/**
 The request/reply protocol between any number of calling threads and the reader thread
 (src/client.rs, `communicate`, `insert_pending_request`, `discard_pending_request`,
 `ClientReceiver::start` and the settling part of `reader_work`).

 Callers share one wrapping invoke-id counter, one map from invoke id to the sending end of a
 one-shot channel, and one socket.  A call is named by its ticket: how many ids were handed out
 before its own.  Every step below is one critical section or one channel operation of the source.
 */
module PendingRequests {
  import opened Bytes
  import opened Ams

  const ID_COUNT := 0x1_0000_0000

  /** `fetch_add` on an `AtomicU32` that starts at 1. */
  function Id(ticket: nat): u32 {
    (ticket + 1) % ID_COUNT
  }

  /** What travels through a call's channel.  `frame` numbers the frames of the socket. */
  datatype Message = Good(header: AdsHeader, payload: seq<byte>, frame: nat) | Bad(error: Error)

  /** Where a caller is in `communicate`. */
  datatype Phase =
    | Dispatched               // has an id, no entry yet
    | Refused                  // payload too long: returned before inserting
    | Inserted                 // entry is in the map, request not yet written
    | WriteFailed              // returned through the failed socket write
    | Waiting                  // request written, waiting on the channel
    | Discarding(error: Error) // about to remove its own entry
    | Returned(result: Result<()>)

  /** How a sender left the map. */
  datatype End =
    | Settled(frame: nat)      // reader sent a reply
    | Drained                  // reader sent the connection's error while shutting down
    | Discarded                // removed by its own caller
    | Orphaned                 // reader took it but the receiver was gone
    | Replaced                 // overwritten by another call's insert
    | Stolen                   // removed by another call's discard

  /** `sent` and `ends` are histories: everything put into the channel, every way the sender left
      the map.  `closed` says that the sender was dropped without sending. */
  datatype Call = Call(target: AmsAddr, cmd: u16, phase: Phase, sent: seq<Message>, closed: bool, ends: seq<End>) {
    /** The receiving end no longer exists. */
    predicate Gone() {
      phase.Refused? || phase.WriteFailed? || phase.Returned?
    }
  }

  /** The reader thread: at work; returned with an error; socket shut down; map drained.  A panic
      (on a notification too short for its length field) ends the thread without the last two. */
  datatype ReaderPhase = Running | Stopped(error: Error) | ShutDown(error: Error) | Done(error: Error) | Crashed

  datatype State = State(next: nat, calls: map<nat, Call>, pending: map<u32, nat>, reader: ReaderPhase,
                         frames: nat, timeouts: bool)

  datatype Step =
    | Dispatch(target: AmsAddr, cmd: u16)
    | Refuse(t: nat)
    | Insert(t: nat)
    | WriteOk(t: nat)
    | WriteFail(t: nat)
    | Settle(header: AdsHeader, payload: seq<byte>)
    | ReaderFail(error: Error)
    | Crash
    | Shutdown
    | Drain
    | Receive(t: nat)
    | SenderGone(t: nat)
    | Timeout(t: nat)
    | Discard(t: nat)

  predicate InMap(s: State, t: nat) {
    Id(t) in s.pending && s.pending[Id(t)] == t
  }

  /** The call whose sender is filed under an id. */
  function Owner(s: State, id: u32): Option<nat> {
    if id in s.pending && s.pending[id] in s.calls then Some(s.pending[id]) else None
  }

  predicate Init(s: State) {
    s.next == 0 && s.calls == map[] && s.pending == map[] && s.reader == Running && s.frames == 0
  }

  predicate At(s: State, t: nat, p: Phase) {
    t in s.calls && s.calls[t].phase == p
  }

  /** When a step can happen.  After the reader has shut the socket down no write succeeds. */
  predicate Enabled(s: State, step: Step) {
    match step
    case Dispatch(_, _) => true
    case Refuse(t) => At(s, t, Dispatched)
    case Insert(t) => At(s, t, Dispatched)
    case WriteOk(t) => At(s, t, Inserted) && !s.reader.ShutDown? && !s.reader.Done?
    case WriteFail(t) => At(s, t, Inserted)
    case Settle(_, _) => s.reader.Running?
    case ReaderFail(_) => s.reader.Running?
    case Crash => s.reader.Running?
    case Shutdown => s.reader.Stopped?
    case Drain => s.reader.ShutDown?
    case Receive(t) => At(s, t, Waiting) && s.calls[t].sent != []
    case SenderGone(t) => At(s, t, Waiting) && s.calls[t].sent == [] && s.calls[t].closed
    case Timeout(t) => s.timeouts && At(s, t, Waiting) && s.calls[t].sent == []
    case Discard(t) => t in s.calls && s.calls[t].phase.Discarding?
  }

  /** Dropping a sender that was pushed out of the map. */
  function Drop(c: Call, end: End): Call {
    c.(closed := true, ends := c.ends + [end])
  }

  function DoInsert(s: State, t: nat): State
    requires At(s, t, Dispatched)
  {
    var calls := match Owner(s, Id(t))
      case None => s.calls
      case Some(u) => s.calls[u := Drop(s.calls[u], Replaced)];
    s.(calls := calls[t := calls[t].(phase := Inserted)], pending := s.pending[Id(t) := t])
  }

  /** The reader takes the entry and sends in one critical section; a missing entry or a dropped
      receiver ends the connection. */
  function DoSettle(s: State, h: AdsHeader, payload: seq<byte>): State
    requires s.reader.Running?
  {
    match Owner(s, h.invokeId)
    case None => s.(frames := s.frames + 1, reader := Stopped(Reply(UnknownInvokeId, h.invokeId)))
    case Some(t) =>
      var c := s.calls[t];
      if c.Gone() then
        s.(frames := s.frames + 1, pending := s.pending - {h.invokeId}, reader := Stopped(IoSync(h.invokeId)),
           calls := s.calls[t := c.(ends := c.ends + [Orphaned])])
      else
        var settled := c.(sent := c.sent + [Good(h, payload, s.frames)], ends := c.ends + [Settled(s.frames)]);
        s.(frames := s.frames + 1, pending := s.pending - {h.invokeId}, calls := s.calls[t := settled])
  }

  function DrainCall(c: Call, e: Error): Call {
    c.(sent := if c.Gone() then c.sent else c.sent + [Bad(e)], ends := c.ends + [Drained])
  }

  function DoDrain(s: State): State
    requires s.reader.ShutDown?
  {
    s.(calls := map t | t in s.calls :: if InMap(s, t) then DrainCall(s.calls[t], s.reader.error) else s.calls[t],
       pending := map[], reader := Done(s.reader.error))
  }

  function DoReceive(s: State, t: nat): State
    requires At(s, t, Waiting) && s.calls[t].sent != []
  {
    var c := s.calls[t];
    var phase := match c.sent[0]
      case Good(h, payload, _) => Returned(CheckReply(c.target, c.cmd, Id(t), h, payload))
      case Bad(e) => Discarding(e);
    s.(calls := s.calls[t := c.(phase := phase)])
  }

  function DoDiscard(s: State, t: nat): State
    requires t in s.calls && s.calls[t].phase.Discarding?
  {
    var c := s.calls[t].(phase := Returned(Err(s.calls[t].phase.error)));
    match Owner(s, Id(t))
    case None => s.(calls := s.calls[t := c])
    case Some(u) =>
      var calls := if u == t then s.calls[t := c.(ends := c.ends + [Discarded])]
                   else s.calls[t := c][u := Drop(s.calls[u], Stolen)];
      s.(calls := calls, pending := s.pending - {Id(t)})
  }

  function Do(s: State, step: Step): State
    requires Enabled(s, step)
  {
    match step
    case Dispatch(target, cmd) =>
      s.(next := s.next + 1, calls := s.calls[s.next := Call(target, cmd, Dispatched, [], false, [])])
    case Refuse(t) => s.(calls := s.calls[t := s.calls[t].(phase := Refused)])
    case Insert(t) => DoInsert(s, t)
    case WriteOk(t) => s.(calls := s.calls[t := s.calls[t].(phase := Waiting)])
    case WriteFail(t) => s.(calls := s.calls[t := s.calls[t].(phase := WriteFailed)])
    case Settle(h, payload) => DoSettle(s, h, payload)
    case ReaderFail(e) => s.(reader := Stopped(e))
    case Crash => s.(reader := Crashed)
    case Shutdown => s.(reader := ShutDown(s.reader.error))
    case Drain => DoDrain(s)
    case Receive(t) => DoReceive(s, t)
    case SenderGone(t) => s.(calls := s.calls[t := s.calls[t].(phase := Discarding(IoSync(Id(t))))])
    case Timeout(t) => s.(calls := s.calls[t := s.calls[t].(phase := Discarding(TimedOut))])
    case Discard(t) => DoDiscard(s, t)
  }

  /** A run: states, and the steps between them. */
  ghost predicate Run(ss: seq<State>, steps: seq<Step>) {
    && |ss| == |steps| + 1
    && Init(ss[0])
    && forall i :: 0 <= i < |steps| ==> Enabled(ss[i], steps[i]) && ss[i + 1] == Do(ss[i], steps[i])
  }

  // ----- the invariant

  /** Map and calls agree: entries are filed under their own call's id, and only existing calls are
      filed. */
  ghost predicate MapInv(s: State) {
    && (forall t: nat :: t in s.calls <==> t < s.next)
    && (forall id :: id in s.pending ==> s.pending[id] in s.calls && Id(s.pending[id]) == id)
  }

  /** What an end says about the channel. */
  ghost predicate EndInv(s: State, t: nat, c: Call, end: End) {
    match end
    case Settled(f) => && |c.sent| == 1 && c.sent[0].Good? && c.sent[0].frame == f < s.frames
                       && c.sent[0].header.invokeId == Id(t) && !c.closed
    case Drained => && !c.closed && (c.sent == [] ==> c.phase.WriteFailed?)
                    && (c.sent != [] ==> |c.sent| == 1 && c.sent[0].Bad?)
    case Discarded => c.sent == [] && !c.closed && c.phase.Returned?
    case Orphaned => c.sent == [] && !c.closed && c.phase.WriteFailed?
    case Replaced => c.sent == [] && c.closed
    case Stolen => c.sent == [] && c.closed
  }

  ghost predicate CallInv(s: State, t: nat, c: Call) {
    && (c.phase.Dispatched? || c.phase.Refused? ==> !InMap(s, t) && c.ends == [])
    && (!c.phase.Dispatched? && !c.phase.Refused? ==> |c.ends| == if InMap(s, t) then 0 else 1)
    && (c.ends == [] ==> c.sent == [] && !c.closed)
    && (c.ends != [] ==> EndInv(s, t, c, c.ends[0]))
    && (InMap(s, t) ==> !c.phase.Returned?)
    && (InMap(s, t) && c.phase.Discarding? ==> c.phase.error == TimedOut)
    && (InMap(s, t) && s.reader.Done? ==> c.phase.Inserted? || c.phase.WriteFailed?)
    && (c.phase.Returned? && c.phase.result.Ok? ==>
          && c.ends != [] && c.ends[0].Settled?
          && CheckReply(c.target, c.cmd, Id(t), c.sent[0].header, c.sent[0].payload).Ok?)
  }

  ghost predicate Inv(s: State) {
    MapInv(s) && forall t :: t in s.calls ==> CallInv(s, t, s.calls[t])
  }

  lemma {:induction false} InitInv(s: State)
    requires Init(s)
    ensures Inv(s)
  {
  }

  /** A step that only moves one call on in `communicate`, leaving map and channel alone. */
  lemma {:induction false} PhaseStep(s: State, t: nat, p: Phase)
    requires Inv(s) && t in s.calls
    requires CallInv(s, t, s.calls[t].(phase := p))
    ensures Inv(s.(calls := s.calls[t := s.calls[t].(phase := p)]))
  {
    var s' := s.(calls := s.calls[t := s.calls[t].(phase := p)]);
    forall u | u in s'.calls
      ensures CallInv(s', u, s'.calls[u])
    {
      assert InMap(s', u) == InMap(s, u);
    }
  }

  lemma {:induction false} DispatchInv(s: State, target: AmsAddr, cmd: u16)
    requires Inv(s)
    ensures Inv(Do(s, Dispatch(target, cmd)))
  {
    var s' := Do(s, Dispatch(target, cmd));
    forall u | u in s'.calls
      ensures CallInv(s', u, s'.calls[u])
    {
      assert InMap(s', u) == InMap(s, u);
    }
  }

  lemma {:induction false} ReaderStep(s: State, r: ReaderPhase, frames: nat)
    requires Inv(s) && frames >= s.frames && !s.reader.Done? && !r.Done?
    ensures Inv(s.(reader := r, frames := frames))
  {
    var s' := s.(reader := r, frames := frames);
    forall u | u in s'.calls
      ensures CallInv(s', u, s'.calls[u])
    {
      assert InMap(s', u) == InMap(s, u);
    }
  }

  lemma {:induction false} InsertKeepsCall(s: State, t: nat, u: nat)
    requires MapInv(s) && At(s, t, Dispatched) && u in s.calls
    requires CallInv(s, u, s.calls[u]) && CallInv(s, t, s.calls[t])
    ensures CallInv(DoInsert(s, t), u, DoInsert(s, t).calls[u])
  {
    var s' := DoInsert(s, t);
    if Id(u) != Id(t) {
      assert InMap(s', u) == InMap(s, u);
      assert s'.calls[u] == s.calls[u];
    } else if u == t {
    } else if InMap(s, u) {
      assert s'.calls[u] == Drop(s.calls[u], Replaced);
    } else {
      assert s'.calls[u] == s.calls[u];
    }
  }

  lemma {:induction false} InsertInv(s: State, t: nat)
    requires Inv(s) && At(s, t, Dispatched)
    ensures Inv(DoInsert(s, t))
  {
    var s' := DoInsert(s, t);
    forall u | u in s'.calls
      ensures CallInv(s', u, s'.calls[u])
    {
      InsertKeepsCall(s, t, u);
    }
  }

  lemma {:induction false} SettleKeepsCall(s: State, h: AdsHeader, payload: seq<byte>, u: nat)
    requires MapInv(s) && s.reader.Running? && u in s.calls && CallInv(s, u, s.calls[u])
    ensures CallInv(DoSettle(s, h, payload), u, DoSettle(s, h, payload).calls[u])
  {
    hide Ams.CheckReply, Id;
    var s' := DoSettle(s, h, payload);
    if Id(u) != h.invokeId || h.invokeId !in s.pending || s.pending[h.invokeId] != u {
      assert InMap(s', u) == InMap(s, u);
      assert s'.calls[u] == s.calls[u];
    } else {
      assert InMap(s, u) && !InMap(s', u);
    }
  }

  lemma {:induction false} SettleInv(s: State, h: AdsHeader, payload: seq<byte>)
    requires Inv(s) && s.reader.Running?
    ensures Inv(DoSettle(s, h, payload))
  {
    var s' := DoSettle(s, h, payload);
    forall u | u in s'.calls
      ensures CallInv(s', u, s'.calls[u])
    {
      SettleKeepsCall(s, h, payload, u);
    }
  }

  lemma {:induction false} DrainInv(s: State)
    requires Inv(s) && s.reader.ShutDown?
    ensures Inv(DoDrain(s))
  {
    var s' := DoDrain(s);
    forall u | u in s'.calls
      ensures CallInv(s', u, s'.calls[u])
    {
      assert CallInv(s, u, s.calls[u]);
    }
  }

  lemma {:induction false} DiscardKeepsCall(s: State, t: nat, u: nat)
    requires MapInv(s) && t in s.calls && s.calls[t].phase.Discarding? && u in s.calls
    requires CallInv(s, u, s.calls[u])
    ensures CallInv(DoDiscard(s, t), u, DoDiscard(s, t).calls[u])
  {
    hide Ams.CheckReply, Id;
    var s' := DoDiscard(s, t);
    if Id(u) != Id(t) {
      assert InMap(s', u) == InMap(s, u);
      assert s'.calls[u] == s.calls[u];
    } else {
      assert !InMap(s', u);
      if u != t && InMap(s, u) {
        assert s'.calls[u] == Drop(s.calls[u], Stolen);
      }
    }
  }

  lemma {:induction false} DiscardInv(s: State, t: nat)
    requires Inv(s) && t in s.calls && s.calls[t].phase.Discarding?
    ensures Inv(DoDiscard(s, t))
  {
    var s' := DoDiscard(s, t);
    forall u | u in s'.calls
      ensures CallInv(s', u, s'.calls[u])
    {
      DiscardKeepsCall(s, t, u);
    }
  }

  lemma {:induction false} ReceiveInv(s: State, t: nat)
    requires Inv(s) && At(s, t, Waiting) && s.calls[t].sent != []
    ensures Inv(DoReceive(s, t))
  {
    assert CallInv(s, t, s.calls[t]);
    PhaseStep(s, t, DoReceive(s, t).calls[t].phase);
  }

  /** Every step keeps the invariant. */
  lemma {:induction false} StepKeepsInv(s: State, step: Step)
    requires Inv(s) && Enabled(s, step)
    ensures Inv(Do(s, step))
  {
    match step
    case Dispatch(target, cmd) => DispatchInv(s, target, cmd);
    case Refuse(t) => PhaseStep(s, t, Refused);
    case Insert(t) => InsertInv(s, t);
    case WriteOk(t) => PhaseStep(s, t, Waiting);
    case WriteFail(t) => PhaseStep(s, t, WriteFailed);
    case Settle(h, payload) => SettleInv(s, h, payload);
    case ReaderFail(e) => ReaderStep(s, Stopped(e), s.frames);
    case Crash => ReaderStep(s, Crashed, s.frames);
    case Shutdown => ReaderStep(s, ShutDown(s.reader.error), s.frames);
    case Drain => DrainInv(s);
    case Receive(t) => ReceiveInv(s, t);
    case SenderGone(t) => PhaseStep(s, t, Discarding(IoSync(Id(t))));
    case Timeout(t) => PhaseStep(s, t, Discarding(TimedOut));
    case Discard(t) => DiscardInv(s, t);
  }

  lemma {:induction false} Reachable(ss: seq<State>, steps: seq<Step>, i: nat)
    requires Run(ss, steps) && i < |ss|
    ensures Inv(ss[i])
  {
    if i == 0 {
      InitInv(ss[0]);
    } else {
      Reachable(ss, steps, i - 1);
      StepKeepsInv(ss[i - 1], steps[i - 1]);
      assert ss[i - 1 + 1] == Do(ss[i - 1], steps[i - 1]);
    }
  }

  // ----- what a step can do to a call

  /** It leaves the call alone, or the call moves on in `communicate`, or something happens to its
      sender, and then it is known which step did it. */
  predicate Changed(s: State, step: Step, t: nat, c: Call, d: Call) {
    || d == c
    || (d == c.(phase := d.phase) && !c.Gone() && Moved(s, step, t, c, d.phase))
    || (d == Drop(c, Replaced) && step.Insert? && step.t != t && Owner(s, Id(step.t)) == Some(t))
    || (d == Drop(c, Stolen) && step.Discard? && step.t != t && Owner(s, Id(step.t)) == Some(t))
    || (step.Settle? && Owner(s, step.header.invokeId) == Some(t) && d == SettledCall(c, step, s.frames))
    || (step.Drain? && s.reader.ShutDown? && d == DrainCall(c, s.reader.error))
    || (&& step == Discard(t) && c.phase.Discarding?
        && d == c.(phase := Returned(Err(c.phase.error)), ends := c.ends + [Discarded]))
  }

  /** Which step ends a wait, and how giving up ends. */
  predicate Moved(s: State, step: Step, t: nat, c: Call, p: Phase) {
    && (c.phase == Waiting ==> (step == Receive(t) && c.sent != []) || (step == SenderGone(t) && c.closed) || s.timeouts)
    && (c.phase.Discarding? ==> step == Discard(t) && p == Returned(Err(c.phase.error)))
  }

  function SettledCall(c: Call, step: Step, frame: nat): Call
    requires step.Settle?
  {
    if c.Gone() then c.(ends := c.ends + [Orphaned])
    else c.(sent := c.sent + [Good(step.header, step.payload, frame)], ends := c.ends + [Settled(frame)])
  }

  lemma {:induction false} InsertChanges(s: State, u: nat, t: nat)
    requires At(s, u, Dispatched) && !InMap(s, u) && t in s.calls
    ensures t in DoInsert(s, u).calls && Changed(s, Insert(u), t, s.calls[t], DoInsert(s, u).calls[t])
  {
    hide Id;
  }

  lemma {:induction false} SettleChanges(s: State, h: AdsHeader, payload: seq<byte>, t: nat)
    requires s.reader.Running? && t in s.calls
    ensures var s' := DoSettle(s, h, payload);
      t in s'.calls && Changed(s, Settle(h, payload), t, s.calls[t], s'.calls[t])
  {
  }

  lemma {:induction false} DiscardChanges(s: State, u: nat, t: nat)
    requires u in s.calls && s.calls[u].phase.Discarding? && t in s.calls
    ensures t in DoDiscard(s, u).calls && Changed(s, Discard(u), t, s.calls[t], DoDiscard(s, u).calls[t])
  {
    hide Id;
  }

  lemma {:induction false} PhaseChanges(s: State, step: Step, t: nat)
    requires Enabled(s, step) && t in s.calls
    requires !step.Insert? && !step.Settle? && !step.Drain? && !step.Discard? && (step.Dispatch? ==> t != s.next)
    ensures t in Do(s, step).calls && Changed(s, step, t, s.calls[t], Do(s, step).calls[t])
  {
    hide Ams.CheckReply, Id;
  }

  lemma {:induction false} StepChanges(s: State, step: Step, t: nat)
    requires Inv(s) && Enabled(s, step) && t in s.calls
    ensures t in Do(s, step).calls && Changed(s, step, t, s.calls[t], Do(s, step).calls[t])
  {
    assert t != s.next;
    match step
    case Insert(u) =>
      assert CallInv(s, u, s.calls[u]);
      InsertChanges(s, u, t);
    case Settle(h, payload) => SettleChanges(s, h, payload, t);
    case Drain =>
    case Discard(u) => DiscardChanges(s, u, t);
    case _ => PhaseChanges(s, step, t);
  }

  /** A call that a step starts. */
  lemma {:induction false} StepStarts(s: State, step: Step, t: nat)
    requires MapInv(s) && Enabled(s, step) && t in Do(s, step).calls && t !in s.calls
    ensures step.Dispatch? && Do(s, step).calls[t] == Call(step.target, step.cmd, Dispatched, [], false, [])
  {
    hide Ams.CheckReply, Id;
  }

  // ----- what holds in every run

  /** Whatever a call finds in its channel was addressed to it; if it returns success, the reply came
      from its target, for its command, as a response, with both error codes zero. */
  lemma {:induction false} RepliesReachTheirCall(ss: seq<State>, steps: seq<Step>, i: nat, t: nat)
    requires Run(ss, steps) && i < |ss| && t in ss[i].calls
    ensures var c := ss[i].calls[t];
      && |c.sent| <= 1
      && (forall m :: m in c.sent && m.Good? ==> m.header.invokeId == Id(t))
      && (c.phase == Returned(Ok(())) ==>
            && |c.sent| == 1 && c.sent[0].Good?
            && c.sent[0].header.src == c.target && c.sent[0].header.command == c.cmd
            && c.sent[0].header.stateFlags == 5 && c.sent[0].header.errorCode == 0
            && Le(0, 4) <= c.sent[0].payload)
  {
    Reachable(ss, steps, i);
    var c := ss[i].calls[t];
    assert CallInv(ss[i], t, c);
    if c.phase == Returned(Ok(())) {
      AcceptedReply(c.target, c.cmd, Id(t), c.sent[0].header, c.sent[0].payload);
    }
  }

  // ----- what a call returns

  /** A call that finds a reply returns at once: with success exactly if the reply came from its target, for
      its command, as a response, with both error codes zero; otherwise with what the check of the reply
      says. */
  lemma {:induction false} ReceiveReturnsIff(ss: seq<State>, steps: seq<Step>, i: nat, t: nat)
    requires Run(ss, steps) && i < |steps| && steps[i] == Receive(t) && ss[i].calls[t].sent[0].Good?
    ensures t in ss[i + 1].calls && ss[i + 1].calls[t].phase.Returned?
    ensures var c := ss[i].calls[t];
      var h, payload := c.sent[0].header, c.sent[0].payload;
      && (ss[i + 1].calls[t].phase == Returned(Ok(())) <==>
            && h.src == c.target && h.command == c.cmd && h.stateFlags == 5 && h.errorCode == 0 && Le(0, 4) <= payload)
      && (forall code: u32 :: ss[i + 1].calls[t].phase == Returned(Err(Ads(code))) <==>
            && h.src == c.target && h.command == c.cmd && h.stateFlags == 5
            && code != 0 && (h.errorCode == code || (h.errorCode == 0 && Le(code, 4) <= payload)))
  {
    Reachable(ss, steps, i);
    var c := ss[i].calls[t];
    assert CallInv(ss[i], t, c);
    assert ss[i + 1] == Do(ss[i], steps[i]);
    var h, payload := c.sent[0].header, c.sent[0].payload;
    assert h.invokeId == Id(t);
    hide Ams.CheckReply, Inv, CallInv, Run, Bytes.Le;
    AcceptedReply(c.target, c.cmd, Id(t), h, payload);
    forall code: u32
      ensures CheckReply(c.target, c.cmd, Id(t), h, payload) == Err(Ads(code)) <==>
        && h.src == c.target && h.command == c.cmd && h.stateFlags == 5
        && code != 0 && (h.errorCode == code || (h.errorCode == 0 && Le(code, 4) <= payload))
    {
      ReplyErrorIff(c.target, c.cmd, Id(t), h, payload, code);
    }
  }

  /** A call that gives up does so for good: it is about to remove its entry, or has returned exactly the
      error it gave up with. */
  ghost predicate GaveUp(s: State, t: nat, e: Error) {
    t in s.calls && (s.calls[t].phase == Discarding(e) || s.calls[t].phase == Returned(Err(e)))
  }

  lemma {:induction false} GivesUpForGood(ss: seq<State>, steps: seq<Step>, i: nat, j: nat, t: nat, e: Error)
    requires Run(ss, steps) && i <= j < |ss| && GaveUp(ss[i], t, e)
    ensures GaveUp(ss[j], t, e)
    ensures forall k :: i <= k < j && steps[k] == Discard(t) ==> At(ss[j], t, Returned(Err(e)))
    decreases j
  {
    hide Do, Inv, Enabled, Owner, Id, Ams.CheckReply;
    if i < j {
      GivesUpForGood(ss, steps, i, j - 1, t, e);
      Reachable(ss, steps, j - 1);
      assert ss[j - 1 + 1] == Do(ss[j - 1], steps[j - 1]);
      StepChanges(ss[j - 1], steps[j - 1], t);
      DiscardReturns(ss[j - 1], steps[j - 1], t);
    }
  }

  lemma {:induction false} DiscardReturns(s: State, step: Step, t: nat)
    requires Enabled(s, step)
    ensures step == Discard(t) ==>
      t in s.calls && s.calls[t].phase.Discarding? && At(Do(s, step), t, Returned(Err(s.calls[t].phase.error)))
  {
    hide Ams.CheckReply, Id;
  }

  /** What an unanswered call returns: the error that it found in its channel, the time-out, or the closed
      channel with its own id. */
  lemma {:induction false} FailureReturned(ss: seq<State>, steps: seq<Step>, i: nat, j: nat, t: nat, e: Error)
    requires Run(ss, steps) && i < j < |ss|
    requires || (steps[i] == Receive(t) && ss[i].calls[t].sent[0] == Bad(e))
             || (steps[i] == Timeout(t) && e == TimedOut)
             || (steps[i] == SenderGone(t) && e == IoSync(Id(t)))
    ensures GaveUp(ss[j], t, e)
    ensures forall k :: i < k < j && steps[k] == Discard(t) ==> At(ss[j], t, Returned(Err(e)))
  {
    assert ss[i + 1] == Do(ss[i], steps[i]);
    assert GaveUp(ss[i + 1], t, e);
    hide Do, Inv, Enabled, GaveUp;
    GivesUpForGood(ss, steps, i + 1, j, t, e);
  }

  /** A reply for a listening call goes into its channel, as the only message, and its entry is gone; the
      reader goes on. */
  lemma {:induction false} SettleDelivers(ss: seq<State>, steps: seq<Step>, i: nat, t: nat)
    requires Run(ss, steps) && i < |steps| && steps[i].Settle?
    requires Owner(ss[i], steps[i].header.invokeId) == Some(t) && !ss[i].calls[t].Gone()
    ensures t in ss[i + 1].calls && ss[i + 1].reader.Running? && !InMap(ss[i + 1], t)
    ensures ss[i + 1].calls[t].sent == [Good(steps[i].header, steps[i].payload, ss[i].frames)]
    ensures ss[i + 1].calls[t].phase == ss[i].calls[t].phase
  {
    Reachable(ss, steps, i);
    assert ss[i + 1] == Do(ss[i], steps[i]);
    NoForgottenMessage(ss[i], t);
  }

  /** The reader ends the connection because of an unknown invoke id exactly when no entry is filed under
      the id of the reply. */
  lemma {:induction false} UnknownIdEndsConnection(ss: seq<State>, steps: seq<Step>, i: nat)
    requires Run(ss, steps) && i < |steps| && steps[i].Settle?
    ensures var id := steps[i].header.invokeId;
      && (ss[i + 1].reader == Stopped(Reply(UnknownInvokeId, id)) <==> id !in ss[i].pending)
      && (ss[i + 1].reader.Running? <==> id in ss[i].pending && !ss[i].calls[ss[i].pending[id]].Gone())
  {
    Reachable(ss, steps, i);
    assert ss[i + 1] == Do(ss[i], steps[i]);
  }

  /** A step never takes a result back: channels only grow and returned calls stay as they are. */
  ghost predicate Follows(c: Call, d: Call) {
    && c.sent <= d.sent && c.target == d.target && c.cmd == d.cmd
    && (c.Gone() ==> d.phase == c.phase)
  }

  lemma {:induction false} StepFollows(s: State, step: Step, t: nat)
    requires Inv(s) && Enabled(s, step) && t in s.calls
    ensures t in Do(s, step).calls && Follows(s.calls[t], Do(s, step).calls[t])
  {
    hide Do, Inv, Enabled, Owner, Id, Ams.CheckReply;
    StepChanges(s, step, t);
  }

  /** Each call gets at most one result, for good. */
  lemma {:induction false} ResultsAreFinal(ss: seq<State>, steps: seq<Step>, i: nat, j: nat, t: nat)
    requires Run(ss, steps) && i <= j < |ss| && t in ss[i].calls
    ensures t in ss[j].calls && Follows(ss[i].calls[t], ss[j].calls[t]) && |ss[j].calls[t].sent| <= 1
    decreases j
  {
    hide Do, Inv, Enabled;
    if i < j {
      ResultsAreFinal(ss, steps, i, j - 1, t);
      Reachable(ss, steps, j - 1);
      StepFollows(ss[j - 1], steps[j - 1], t);
      assert ss[j - 1 + 1] == Do(ss[j - 1], steps[j - 1]);
    }
    RepliesReachTheirCall(ss, steps, j, t);
  }

  /** Each frame settles at most one call. */
  ghost predicate FramesDistinct(s: State) {
    forall t, u | t in s.calls && u in s.calls && t != u && s.calls[t].ends != [] && s.calls[u].ends != [] ::
      s.calls[t].ends[0].Settled? ==> s.calls[u].ends[0] != s.calls[t].ends[0]
  }

  /** A step keeps the ends of a call or appends one; only a settlement appends `Settled`. */
  lemma {:induction false} EndsGrow(s: State, step: Step, t: nat)
    requires Inv(s) && Enabled(s, step) && t in Do(s, step).calls
    ensures t in s.calls ==> s.calls[t].ends <= Do(s, step).calls[t].ends
    ensures t !in s.calls ==> Do(s, step).calls[t].ends == []
    ensures t in s.calls && s.calls[t].ends == [] && Do(s, step).calls[t].ends != [] ==>
      var e := Do(s, step).calls[t].ends[0];
      e.Settled? ==> e.frame == s.frames && step.Settle? && Owner(s, step.header.invokeId) == Some(t)
  {
    hide Do, Enabled, Owner, CallInv, Id, Ams.CheckReply;
    if t in s.calls {
      StepChanges(s, step, t);
    } else {
      assert MapInv(s);
      StepStarts(s, step, t);
    }
  }

  lemma {:induction false} SettledBefore(s: State, t: nat)
    requires Inv(s) && t in s.calls && s.calls[t].ends != [] && s.calls[t].ends[0].Settled?
    ensures s.calls[t].ends[0].frame < s.frames
  {
    assert CallInv(s, t, s.calls[t]);
  }

  lemma {:induction false} StepKeepsFrames(s: State, step: Step)
    requires Inv(s) && Enabled(s, step) && FramesDistinct(s)
    ensures FramesDistinct(Do(s, step))
  {
    var s' := Do(s, step);
    hide Do, CallInv, Owner;
    forall t, u | t in s'.calls && u in s'.calls && t != u && s'.calls[t].ends != [] && s'.calls[u].ends != []
                  && s'.calls[t].ends[0].Settled?
      ensures s'.calls[u].ends[0] != s'.calls[t].ends[0]
    {
      EndsGrow(s, step, t);
      EndsGrow(s, step, u);
      if s.calls[t].ends != [] {
        SettledBefore(s, t);
      }
      if s.calls[u].ends != [] && s.calls[u].ends[0].Settled? {
        SettledBefore(s, u);
      }
    }
  }

  lemma {:induction false} FrameSettlesOneCall(ss: seq<State>, steps: seq<Step>, i: nat)
    requires Run(ss, steps) && i < |ss|
    ensures FramesDistinct(ss[i])
  {
    if i > 0 {
      FrameSettlesOneCall(ss, steps, i - 1);
      Reachable(ss, steps, i - 1);
      StepKeepsFrames(ss[i - 1], steps[i - 1]);
      assert ss[i - 1 + 1] == Do(ss[i - 1], steps[i - 1]);
    }
  }

  /** Conservation: a sender that was put into the map is still there or has left it in exactly one
      way; and a reply is in the channel iff that way was settlement. */
  lemma {:induction false} SendersAreConserved(ss: seq<State>, steps: seq<Step>, i: nat, t: nat)
    requires Run(ss, steps) && i < |ss| && t in ss[i].calls
    ensures var c := ss[i].calls[t];
      && (c.phase.Dispatched? || c.phase.Refused? ==> c.ends == [] && !InMap(ss[i], t))
      && (!c.phase.Dispatched? && !c.phase.Refused? ==> |c.ends| + (if InMap(ss[i], t) then 1 else 0) == 1)
      && ((exists m :: m in c.sent && m.Good?) <==> exists f :: c.ends == [Settled(f)])
  {
    Reachable(ss, steps, i);
    var c := ss[i].calls[t];
    assert CallInv(ss[i], t, c);
    if c.ends != [] {
      assert c.ends == [c.ends[0]];
      if c.ends[0].Settled? {
        assert c.sent[0] in c.sent;
        assert c.ends == [Settled(c.ends[0].frame)];
      }
    }
  }

  /** The reader ends the connection because of a dropped receiver exactly when the addressed call
      returned through the failed socket write, which leaves its entry behind. */
  lemma {:induction false} OnlyFailedWritesAreOrphaned(ss: seq<State>, steps: seq<Step>, i: nat)
    requires Run(ss, steps) && i < |steps| && steps[i].Settle?
    ensures ss[i + 1].reader == Stopped(IoSync(steps[i].header.invokeId)) <==>
      exists t :: Owner(ss[i], steps[i].header.invokeId) == Some(t) && ss[i].calls[t].phase.WriteFailed?
    ensures forall t :: t in ss[i].calls && InMap(ss[i], t) && ss[i].calls[t].Gone() ==> ss[i].calls[t].phase.WriteFailed?
  {
    Reachable(ss, steps, i);
    var s, id := ss[i], steps[i].header.invokeId;
    match Owner(s, id) {
      case None =>
      case Some(t) => assert CallInv(s, t, s.calls[t]);
    }
  }

  /** After the drain the map is empty, and every call that was in it and still listens has exactly
      one message: the error that ended the connection. */
  lemma {:induction false} DrainAnswersEveryone(ss: seq<State>, steps: seq<Step>, i: nat)
    requires Run(ss, steps) && i < |steps| && steps[i] == Drain
    ensures ss[i + 1].pending == map[]
    ensures forall t :: t in ss[i].calls && InMap(ss[i], t) ==>
      && t in ss[i + 1].calls && ss[i + 1].calls[t].ends == [Drained]
      && (!ss[i].calls[t].Gone() ==> ss[i + 1].calls[t].sent == [Bad(ss[i].reader.error)])
  {
    Reachable(ss, steps, i);
    forall t | t in ss[i].calls && InMap(ss[i], t)
      ensures ss[i + 1].calls[t] == DrainCall(ss[i].calls[t], ss[i].reader.error)
      ensures ss[i].calls[t].sent == [] && ss[i].calls[t].ends == []
    {
      assert CallInv(ss[i], t, ss[i].calls[t]);
    }
  }

  /** No waiting call is forgotten: it has a message, or its sender is gone and the wait ends, or its
      sender is in the map and the reader will still settle or drain it, unless it crashed.  In
      particular no call waits in vain after the drain, although entries can be inserted after it. */
  lemma {:induction false} NoForgottenCall(ss: seq<State>, steps: seq<Step>, i: nat, t: nat)
    requires Run(ss, steps) && i < |ss| && At(ss[i], t, Waiting)
    ensures ss[i].calls[t].sent != [] || ss[i].calls[t].closed || (InMap(ss[i], t) && !ss[i].reader.Done?)
  {
    Reachable(ss, steps, i);
    assert CallInv(ss[i], t, ss[i].calls[t]);
  }

  /** After a crash of the reader nothing is ever sent to any call again: whoever waits then, without
      a timeout, waits for good. */
  lemma {:induction false} CrashStrandsCalls(ss: seq<State>, steps: seq<Step>, i: nat, j: nat, t: nat)
    requires Run(ss, steps) && i <= j < |ss| && ss[i].reader.Crashed? && t in ss[i].calls
    ensures ss[j].reader.Crashed? && t in ss[j].calls && ss[j].calls[t].sent == ss[i].calls[t].sent
    ensures At(ss[i], t, Waiting) && ss[i].calls[t].sent == [] && !ss[j].timeouts && !ss[j].calls[t].closed ==>
      At(ss[j], t, Waiting)
    decreases j
  {
    hide Do, Inv, Enabled;
    if i < j {
      CrashStrandsCalls(ss, steps, i, j - 1, t);
      Reachable(ss, steps, j - 1);
      assert ss[j - 1 + 1] == Do(ss[j - 1], steps[j - 1]);
      CrashStep(ss[j - 1], steps[j - 1], t);
    }
  }

  lemma {:induction false} CrashStep(s: State, step: Step, t: nat)
    requires Inv(s) && Enabled(s, step) && s.reader.Crashed? && t in s.calls
    ensures Do(s, step).reader.Crashed? && t in Do(s, step).calls && Do(s, step).timeouts == s.timeouts
    ensures Do(s, step).calls[t].sent == s.calls[t].sent
    ensures s.calls[t].closed ==> Do(s, step).calls[t].closed
    ensures At(s, t, Waiting) && s.calls[t].sent == [] && !s.timeouts && !s.calls[t].closed ==> At(Do(s, step), t, Waiting)
  {
    hide Do, Inv, Enabled, Owner, Id, Ams.CheckReply;
    StepChanges(s, step, t);
    ReaderGone(s, step);
  }

  lemma {:induction false} ReaderGone(s: State, step: Step)
    requires Enabled(s, step) && s.reader.Crashed?
    ensures Do(s, step).reader.Crashed? && Do(s, step).timeouts == s.timeouts && !step.Settle? && !step.Drain?
  {
    hide Ams.CheckReply, Id;
  }

  /** A run with one more step. */
  lemma {:induction false} OneStep(ss: seq<State>, steps: seq<Step>, step: Step) returns (ss': seq<State>, steps': seq<Step>)
    requires Run(ss, steps) && Enabled(ss[|steps|], step)
    ensures ss' == ss + [Do(ss[|steps|], step)] && steps' == steps + [step] && Run(ss', steps')
    ensures |steps'| == |steps| + 1 && |ss'| == |steps'| + 1 && ss'[|steps'|] == Do(ss[|steps|], step)
  {
    hide Do, Enabled;
    ss', steps' := ss + [Do(ss[|steps|], step)], steps + [step];
    forall i | 0 <= i < |steps'|
      ensures Enabled(ss'[i], steps'[i]) && ss'[i + 1] == Do(ss'[i], steps'[i])
    {
      if i < |steps| {
        assert ss[i + 1] == Do(ss[i], steps[i]);
      }
    }
  }

  /** From the reader's failure on, the shutdown ends the wait of a call that is in the map. */
  lemma {:induction false} DrainEndsWait(ss: seq<State>, steps: seq<Step>, t: nat)
    returns (ss': seq<State>, steps': seq<Step>)
    requires Run(ss, steps) && t in ss[|steps|].calls && ss[|steps|].calls[t].phase == Waiting
    requires InMap(ss[|steps|], t)
    requires ss[|steps|].reader.Stopped? || ss[|steps|].reader.ShutDown?
    ensures Run(ss', steps') && ss <= ss' && steps <= steps' && t in ss'[|steps'|].calls
    ensures ss'[|steps'|].calls[t].phase.Discarding?
  {
    RunEnd(ss, steps);
    hide *;
    ss', steps' := ss, steps;
    Reachable(ss, steps, |steps|);
    NoForgottenMessage(ss[|steps|], t);
    ShutdownKeeps(ss[|steps|], t);
    if ss[|steps|].reader.Stopped? {
      ss', steps' := OneStep(ss', steps', Shutdown);
    }
    DrainSends(ss'[|steps'|], t);
    ss', steps' := OneStep(ss', steps', Drain);
    ss', steps' := OneStep(ss', steps', Receive(t));
  }

  lemma {:induction false} RunEnd(ss: seq<State>, steps: seq<Step>)
    requires Run(ss, steps)
    ensures |ss| == |steps| + 1
  {
  }

  /** What is still in the map has not been answered. */
  lemma {:induction false} NoForgottenMessage(s: State, t: nat)
    requires Inv(s) && t in s.calls && InMap(s, t)
    ensures s.calls[t].sent == []
  {
    assert CallInv(s, t, s.calls[t]);
  }

  lemma {:induction false} ShutdownKeeps(s: State, t: nat)
    ensures s.reader.Stopped? ==>
      && Enabled(s, Shutdown) && Do(s, Shutdown).reader.ShutDown?
      && Do(s, Shutdown).calls == s.calls && InMap(Do(s, Shutdown), t) == InMap(s, t)
  {
  }

  /** The drain puts an error into the channel of a waiting call, and receiving it ends the wait. */
  lemma {:induction false} DrainSends(s: State, t: nat)
    requires t in s.calls && s.calls[t].phase == Waiting && s.calls[t].sent == [] && InMap(s, t) && s.reader.ShutDown?
    ensures Enabled(s, Drain) && Enabled(Do(s, Drain), Receive(t))
    ensures var s' := Do(Do(s, Drain), Receive(t));
      t in s'.calls && s'.calls[t].phase.Discarding?
  {
    var d := DoDrain(s);
    assert d.calls[t] == DrainCall(s.calls[t], s.reader.error);
  }

  /** Unless the reader has crashed, every wait can end: the run can go on so that the call leaves it. */
  lemma {:induction false} WaitCanEnd(ss: seq<State>, steps: seq<Step>, t: nat)
    returns (ss': seq<State>, steps': seq<Step>)
    requires Run(ss, steps) && At(ss[|steps|], t, Waiting) && !ss[|steps|].reader.Crashed?
    ensures Run(ss', steps') && ss <= ss' && steps <= steps' && !At(ss'[|steps'|], t, Waiting)
  {
    NoForgottenCall(ss, steps, |steps|, t);
    hide Run;
    ss', steps' := ss, steps;
    if ss[|steps|].calls[t].sent != [] {
      ss', steps' := OneStep(ss', steps', Receive(t));
    } else if ss[|steps|].calls[t].closed {
      ss', steps' := OneStep(ss', steps', SenderGone(t));
    } else {
      if ss[|steps|].reader.Running? {
        ss', steps' := OneStep(ss', steps', ReaderFail(UnexpectedEof));
      }
      ss', steps' := DrainEndsWait(ss', steps', t);
    }
  }

  /** And a crashed reader strands calls indeed: a run in which a call without a timeout waits and the
      reader is gone. */
  lemma {:induction false} StrandedCall(target: AmsAddr, cmd: u16) returns (ss: seq<State>, steps: seq<Step>)
    ensures Run(ss, steps) && steps == [Dispatch(target, cmd), Insert(0), WriteOk(0), Crash]
    ensures var s := ss[|steps|];
      s.reader.Crashed? && !s.timeouts && At(s, 0, Waiting) && s.calls[0].sent == [] && !s.calls[0].closed
  {
    ss, steps := CrowdReachable(1, target, cmd);
    hide Run;
    ss, steps := OneStep(ss, steps, Crash);
  }

  // ----- the wrapping id counter

  /** Ids repeat exactly every 2^32 calls. */
  lemma {:induction false} IdsAgree(a: nat, b: nat)
    ensures Id(a) == Id(b) <==> (a - b) % ID_COUNT == 0
    ensures -ID_COUNT < a - b < ID_COUNT && a != b ==> Id(a) != Id(b)
    ensures a < 0xFFFF_FFFF ==> Id(a) == a + 1
    ensures a == 0xFFFF_FFFF ==> Id(a) == 0
  {
    var q := (a + 1) / ID_COUNT - (b + 1) / ID_COUNT;
    assert a - b == q * ID_COUNT + (Id(a) - Id(b));
    var k := (a - b) / ID_COUNT;
    if (a - b) % ID_COUNT == 0 {
      assert Id(a) - Id(b) == (k - q) * ID_COUNT;
    }
  }

  /** Calls that still hold a receiver, or have left an entry behind. */
  ghost predicate Live(s: State, t: nat) {
    t in s.calls && (!s.calls[t].Gone() || InMap(s, t))
  }

  /** All live calls were started fewer than 2^32 calls apart. */
  ghost predicate Window(s: State) {
    forall t: nat, u: nat :: Live(s, t) && Live(s, u) ==> t - u < ID_COUNT
  }

  /** An insert pushes out another call's sender iff that sender is from a multiple of 2^32 calls
      ago. */
  lemma {:induction false} InsertReplacesIff(ss: seq<State>, steps: seq<Step>, i: nat, t: nat, u: nat)
    requires Run(ss, steps) && i < |steps| && steps[i] == Insert(t) && u in ss[i].calls
    ensures u in ss[i + 1].calls
    ensures ss[i + 1].calls[u].ends == ss[i].calls[u].ends + [Replaced] <==> InMap(ss[i], u) && (t - u) % ID_COUNT == 0
  {
    Reachable(ss, steps, i);
    assert CallInv(ss[i], t, ss[i].calls[t]);
    assert CallInv(ss[i], u, ss[i].calls[u]);
    IdsAgree(t, u);
  }

  /** Likewise a discard removes another call's entry iff that call is a multiple of 2^32 away. */
  lemma {:induction false} DiscardStealsIff(ss: seq<State>, steps: seq<Step>, i: nat, t: nat, u: nat)
    requires Run(ss, steps) && i < |steps| && steps[i] == Discard(t) && u in ss[i].calls && u != t
    ensures u in ss[i + 1].calls
    ensures ss[i + 1].calls[u].ends == ss[i].calls[u].ends + [Stolen] <==> InMap(ss[i], u) && (t - u) % ID_COUNT == 0
  {
    Reachable(ss, steps, i);
    assert CallInv(ss[i], u, ss[i].calls[u]);
    IdsAgree(t, u);
  }

  ghost predicate Undisturbed(s: State) {
    forall t :: t in s.calls ==> Quiet(s.calls[t])
  }

  /** Within a window, an entry under a live call's id is that call's own. */
  lemma {:induction false} OwnerIsSelf(s: State, t: nat)
    requires Inv(s) && Window(s) && t in s.calls && !s.calls[t].Gone() && Owner(s, Id(t)).Some?
    ensures Owner(s, Id(t)) == Some(t)
  {
    var u := Owner(s, Id(t)).value;
    assert Live(s, t) && Live(s, u);
    IdsAgree(t, u);
  }

  ghost predicate Quiet(c: Call) {
    !c.closed && Replaced !in c.ends && Stolen !in c.ends
  }

  /** Only an insert or a discard that finds another call's entry disturbs that call. */
  lemma {:induction false} StepQuiet(s: State, step: Step, t: nat)
    requires Inv(s) && Enabled(s, step) && t in Do(s, step).calls && (t in s.calls ==> Quiet(s.calls[t]))
    requires step.Insert? ==> Owner(s, Id(step.t)).None?
    requires step.Discard? ==> Owner(s, Id(step.t)).None? || Owner(s, Id(step.t)) == Some(step.t)
    ensures Quiet(Do(s, step).calls[t])
  {
    hide Do, Enabled, Owner, CallInv, Id, Ams.CheckReply;
    if t in s.calls {
      StepChanges(s, step, t);
    } else {
      assert MapInv(s);
      StepStarts(s, step, t);
    }
  }

  lemma {:induction false} StepUndisturbed(s: State, step: Step)
    requires Inv(s) && Enabled(s, step) && Window(s) && Undisturbed(s)
    ensures Undisturbed(Do(s, step))
  {
    if (step.Insert? || step.Discard?) && Owner(s, Id(step.t)).Some? {
      OwnerIsSelf(s, step.t);
      assert CallInv(s, step.t, s.calls[step.t]);
    }
    hide Do, CallInv, Owner, Window;
    forall t | t in Do(s, step).calls
      ensures Quiet(Do(s, step).calls[t])
    {
      StepQuiet(s, step, t);
    }
  }

  /** While live calls stay within such a window, no sender is ever replaced or removed by another
      call: every sender that left the map was settled, drained, discarded by its own caller, or
      orphaned by a failed write; and no wait ends with a closed channel. */
  lemma {:induction false} WindowKeepsCallsApart(ss: seq<State>, steps: seq<Step>, i: nat)
    requires Run(ss, steps) && i < |ss| && forall k :: 0 <= k < i ==> Window(ss[k])
    ensures Undisturbed(ss[i])
    ensures forall t :: t in ss[i].calls ==> !Enabled(ss[i], SenderGone(t))
  {
    hide Do, Inv, Window;
    if i > 0 {
      WindowKeepsCallsApart(ss, steps, i - 1);
      Reachable(ss, steps, i - 1);
      StepUndisturbed(ss[i - 1], steps[i - 1]);
      assert ss[i - 1 + 1] == Do(ss[i - 1], steps[i - 1]);
    }
  }

  // ----- without the window the counter's wrap-around is observable

  ghost function CrowdCall(t: nat, a: AmsAddr, cmd: u16): Call {
    Call(a, cmd, if t == 0 then Waiting else Dispatched, [], false, [])
  }

  /** Call 0 waits for its reply while `n - 1` later calls have drawn their ids. */
  ghost function Crowd(n: nat, a: AmsAddr, cmd: u16): State
    requires n > 0
  {
    State(n, map t: nat | 0 <= t < n :: CrowdCall(t, a, cmd), map[1 := 0], Running, 0, false)
  }

  lemma {:induction false} CrowdGrows(n: nat, a: AmsAddr, cmd: u16)
    requires n > 0
    ensures Enabled(Crowd(n, a, cmd), Dispatch(a, cmd))
    ensures Do(Crowd(n, a, cmd), Dispatch(a, cmd)) == Crowd(n + 1, a, cmd)
  {
    assert Do(Crowd(n, a, cmd), Dispatch(a, cmd)).calls == Crowd(n + 1, a, cmd).calls;
  }

  lemma {:induction false} CrowdReachable(n: nat, a: AmsAddr, cmd: u16) returns (ss: seq<State>, steps: seq<Step>)
    requires n > 0
    ensures Run(ss, steps) && ss[|steps|] == Crowd(n, a, cmd)
    ensures n == 1 ==> steps == [Dispatch(a, cmd), Insert(0), WriteOk(0)]
  {
    if n == 1 {
      var s0 := State(0, map[], map[], Running, 0, false);
      steps := [Dispatch(a, cmd), Insert(0), WriteOk(0)];
      var s1 := Do(s0, steps[0]);
      var s2 := Do(s1, steps[1]);
      var s3 := Do(s2, steps[2]);
      assert s3.calls == Crowd(1, a, cmd).calls && s3.pending == map[1 := 0];
      ss := [s0, s1, s2, s3];
    } else {
      CrowdGrows(n - 1, a, cmd);
      hide *;
      ss, steps := CrowdReachable(n - 1, a, cmd);
      ss, steps := OneStep(ss, steps, Dispatch(a, cmd));
    }
  }

  /** The plain case: a call whose reply arrives and passes the checks succeeds. */
  lemma {:induction false} SuccessfulRun(a: AmsAddr, cmd: u16, h: AdsHeader, payload: seq<byte>)
    returns (ss: seq<State>, steps: seq<Step>)
    requires h.invokeId == 1 && h.src == a && h.command == cmd && h.stateFlags == 5 && h.errorCode == 0
    requires Le(0, 4) <= payload
    ensures Run(ss, steps) && steps == [Dispatch(a, cmd), Insert(0), WriteOk(0), Settle(h, payload), Receive(0)]
    ensures At(ss[|steps|], 0, Returned(Ok(()))) && ss[|steps|].pending == map[] && ss[|steps|].reader.Running?
  {
    ss, steps := CrowdReachable(1, a, cmd);
    RunEnd(ss, steps);
    hide Ams.CheckReply, Run;
    ss, steps := OneStep(ss, steps, Settle(h, payload));
    AcceptedReply(a, cmd, 1, h, payload);
    ss, steps := OneStep(ss, steps, Receive(0));
  }

  /** The first call, waiting for its reply with time-outs enabled. */
  ghost function FirstWaiting(a: AmsAddr, cmd: u16): State {
    State(1, map[0 := Call(a, cmd, Waiting, [], false, [])], map[1 := 0], Running, 0, true)
  }

  lemma {:induction false} FirstWaitingReachable(a: AmsAddr, cmd: u16) returns (ss: seq<State>, steps: seq<Step>)
    ensures Run(ss, steps) && steps == [Dispatch(a, cmd), Insert(0), WriteOk(0)]
    ensures |ss| == 4 && ss[3] == FirstWaiting(a, cmd)
  {
    var s0 := State(0, map[], map[], Running, 0, true);
    steps := [Dispatch(a, cmd), Insert(0), WriteOk(0)];
    var s1 := Do(s0, steps[0]);
    var s2 := Do(s1, steps[1]);
    var s3 := Do(s2, steps[2]);
    assert s3.calls == FirstWaiting(a, cmd).calls && s3.pending == map[1 := 0];
    ss := [s0, s1, s2, s3];
  }

  lemma {:induction false} TimesOut(a: AmsAddr, cmd: u16)
    ensures Enabled(FirstWaiting(a, cmd), Timeout(0))
    ensures var s := Do(FirstWaiting(a, cmd), Timeout(0));
      && Enabled(s, Discard(0))
      && var s' := Do(s, Discard(0));
         && At(s', 0, Returned(Err(TimedOut))) && s'.pending == map[] && s'.calls[0].ends == [Discarded]
         && s'.reader.Running?
  {
    assert Id(0) == 1;
  }

  /** And one that waits in vain returns the time-out and leaves no entry behind. */
  lemma {:induction false} TimedOutRun(a: AmsAddr, cmd: u16) returns (ss: seq<State>, steps: seq<Step>)
    ensures Run(ss, steps) && steps == [Dispatch(a, cmd), Insert(0), WriteOk(0), Timeout(0), Discard(0)]
    ensures At(ss[|steps|], 0, Returned(Err(TimedOut))) && ss[|steps|].pending == map[]
    ensures ss[|steps|].calls[0].ends == [Discarded] && ss[|steps|].reader.Running?
  {
    TimesOut(a, cmd);
    hide *;
    ss, steps := FirstWaitingReachable(a, cmd);
    ss, steps := OneStep(ss, steps, Timeout(0));
    ss, steps := OneStep(ss, steps, Discard(0));
  }

  /** The first call after its write failed: its entry is still there. */
  ghost function FirstFailed(a: AmsAddr, cmd: u16): State {
    State(1, map[0 := Call(a, cmd, WriteFailed, [], false, [])], map[1 := 0], Running, 0, false)
  }

  lemma {:induction false} FirstFailedReachable(a: AmsAddr, cmd: u16) returns (ss: seq<State>, steps: seq<Step>)
    ensures Run(ss, steps) && steps == [Dispatch(a, cmd), Insert(0), WriteFail(0)]
    ensures |ss| == 4 && ss[3] == FirstFailed(a, cmd)
  {
    var s0 := State(0, map[], map[], Running, 0, false);
    steps := [Dispatch(a, cmd), Insert(0), WriteFail(0)];
    var s1 := Do(s0, steps[0]);
    var s2 := Do(s1, steps[1]);
    var s3 := Do(s2, steps[2]);
    assert s3.calls == FirstFailed(a, cmd).calls && s3.pending == map[1 := 0];
    ss := [s0, s1, s2, s3];
  }

  lemma {:induction false} LateReply(a: AmsAddr, cmd: u16, h: AdsHeader, payload: seq<byte>)
    requires h.invokeId == 1
    ensures Enabled(FirstFailed(a, cmd), Settle(h, payload))
    ensures var s := Do(FirstFailed(a, cmd), Settle(h, payload));
      s.reader == Stopped(IoSync(1)) && At(s, 0, WriteFailed) && s.calls[0].ends == [Orphaned]
  {
  }

  /** A late reply to a call whose write failed ends the connection. */
  lemma {:induction false} LateReplyEndsConnection(a: AmsAddr, cmd: u16, h: AdsHeader, payload: seq<byte>)
    returns (ss: seq<State>, steps: seq<Step>)
    requires h.invokeId == 1
    ensures Run(ss, steps) && steps == [Dispatch(a, cmd), Insert(0), WriteFail(0), Settle(h, payload)]
    ensures ss[|steps|].reader == Stopped(IoSync(1)) && At(ss[|steps|], 0, WriteFailed)
    ensures ss[|steps|].calls[0].ends == [Orphaned]
  {
    LateReply(a, cmd, h, payload);
    hide *;
    ss, steps := FirstFailedReachable(a, cmd);
    ss, steps := OneStep(ss, steps, Settle(h, payload));
  }

  /** After 2^32 further calls, a new call's insert silently drops the sender of a call that is still
      waiting. */
  lemma {:induction false} WrapAroundReplacesSender(a: AmsAddr, cmd: u16) returns (ss: seq<State>, steps: seq<Step>)
    ensures Run(ss, steps) && At(ss[|steps|], 0, Waiting)
    ensures ss[|steps|].calls[0].ends == [Replaced] && ss[|steps|].calls[0].closed && ss[|steps|].calls[0].sent == []
    ensures At(ss[|steps|], ID_COUNT, Inserted) && InMap(ss[|steps|], ID_COUNT) && ss[|steps|].reader.Running?
    ensures ss[|steps|].calls[ID_COUNT].ends == []
  {
    CrowdInsert(a, cmd);
    hide *;
    ss, steps := CrowdReachable(ID_COUNT + 1, a, cmd);
    ss, steps := OneStep(ss, steps, Insert(ID_COUNT));
  }

  lemma {:induction false} CrowdInsert(a: AmsAddr, cmd: u16)
    ensures var s := Crowd(ID_COUNT + 1, a, cmd);
      && Enabled(s, Insert(ID_COUNT))
      && var s' := Do(s, Insert(ID_COUNT));
         && At(s', 0, Waiting) && s'.calls[0].ends == [Replaced] && s'.calls[0].closed && s'.calls[0].sent == []
         && At(s', ID_COUNT, Inserted) && InMap(s', ID_COUNT) && s'.reader.Running? && s'.calls[ID_COUNT].ends == []
  {
    var s := Crowd(ID_COUNT + 1, a, cmd);
    assert At(s, ID_COUNT, Dispatched) && Id(ID_COUNT) == 1 && Owner(s, 1) == Some(0);
  }

  /** And when that call then gives up, it removes the entry of the new call, which waits for it. */
  lemma {:induction false} WrapAroundStealsEntry(a: AmsAddr, cmd: u16) returns (ss: seq<State>, steps: seq<Step>)
    ensures Run(ss, steps) && At(ss[|steps|], ID_COUNT, Waiting)
    ensures ss[|steps|].calls[ID_COUNT].ends == [Stolen] && ss[|steps|].calls[ID_COUNT].closed
  {
    ss, steps := WrapAroundReplacesSender(a, cmd);
    hide Run;
    ss, steps := OneStep(ss, steps, WriteOk(ID_COUNT));
    ss, steps := OneStep(ss, steps, SenderGone(0));
    assert Id(0) == Id(ID_COUNT) == 1;
    ss, steps := OneStep(ss, steps, Discard(0));
  }
}
