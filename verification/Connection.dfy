/**
 Reader and callers together: what a call gets back was sent, in one piece, as a frame for it.
 */
module Connection {
  import opened Bytes
  import opened Ams
  import PR = PendingRequests
  import opened Reader

  /** The replies the reader handed to the pending map in a run. */
  function Settlements(steps: seq<PR.Step>): seq<(AdsHeader, seq<byte>)> {
    if steps == [] then []
    else
      var last := steps[|steps| - 1];
      Settlements(steps[..|steps| - 1]) + (if last.Settle? then [(last.header, last.payload)] else [])
  }

  lemma {:induction false} SettlementsGrow(steps: seq<PR.Step>, i: nat)
    requires i <= |steps|
    ensures Settlements(steps[..i]) <= Settlements(steps)
    decreases |steps|
  {
    if i < |steps| {
      var init := steps[..|steps| - 1];
      SettlementsGrow(init, i);
      assert init[..i] == steps[..i];
    } else {
      assert steps[..i] == steps;
    }
  }

  /** A step leaves a channel alone, or puts an error or the settled reply with its number into it. */
  lemma {:induction false} StepSends(s: PR.State, step: PR.Step, t: nat)
    requires PR.Inv(s) && PR.Enabled(s, step) && t in PR.Do(s, step).calls
    ensures forall m :: m in PR.Do(s, step).calls[t].sent && m.Good? ==>
      || (t in s.calls && m in s.calls[t].sent)
      || (step.Settle? && m == PR.Good(step.header, step.payload, s.frames))
  {
    if t in s.calls {
      PR.StepChanges(s, step, t);
    } else {
      PR.StepStarts(s, step, t);
    }
    hide PR.Do, PR.Inv, PR.Enabled, PR.Owner;
  }

  /** Messages are numbered settlements. */
  lemma {:induction false} MessagesAreSettlements(ss: seq<PR.State>, steps: seq<PR.Step>, i: nat)
    requires PR.Run(ss, steps) && i < |ss|
    ensures ss[i].frames == |Settlements(steps[..i])|
    ensures forall t, m :: t in ss[i].calls && m in ss[i].calls[t].sent && m.Good? ==>
      m.frame < ss[i].frames && Settlements(steps[..i])[m.frame] == (m.header, m.payload)
  {
    if i > 0 {
      MessagesAreSettlements(ss, steps, i - 1);
      PR.Reachable(ss, steps, i - 1);
      var s, step := ss[i - 1], steps[i - 1];
      assert ss[i - 1 + 1] == PR.Do(s, step);
      assert steps[..i][..i - 1] == steps[..i - 1];
      hide PR.Do, PR.Enabled, PR.Inv, PR.MapInv, PR.Run;
      StepCounts(s, step);
      forall t, m | t in ss[i].calls && m in ss[i].calls[t].sent && m.Good?
        ensures m.frame < ss[i].frames && Settlements(steps[..i])[m.frame] == (m.header, m.payload)
      {
        StepSends(s, step, t);
      }
    }
  }

  lemma {:induction false} StepCounts(s: PR.State, step: PR.Step)
    requires PR.Enabled(s, step)
    ensures PR.Do(s, step).frames == s.frames + (if step.Settle? then 1 else 0)
  {
    hide Ams.CheckReply, PR.Id;
  }

  /** Replies found among the events of frames are frames. */
  lemma {:induction false} RepliesAreFrames(source: AmsAddr, fs: seq<Frame>, k: nat, settle: nat -> Option<Error>,
                                            r: (AdsHeader, seq<byte>))
    requires forall f :: f in fs ==> WellFormed(f)
    requires r in RepliesIn(Handle(source, fs, k, settle).events)
    ensures Full(r.0, r.1) in fs && r.0.amsCmd == 0 && r.0.dest == source && r.0.command != CMD_NOTIFICATION
    decreases |fs|
  {
    if fs != [] && Meaning(source, fs[0]).Ok? {
      var event := Meaning(source, fs[0]).value;
      HandedOverIff(source, fs[0]);
      hide Meaning, RepliesIn;
      var rest := if event.ReplyTo? && settle(k).Some? then []
                  else Handle(source, fs[1..], if event.ReplyTo? then k + 1 else k, settle).events;
      RepliesCons(event, rest);
      if r in RepliesIn(rest) {
        RepliesAreFrames(source, fs[1..], if event.ReplyTo? then k + 1 else k, settle, r);
      }
    }
  }

  lemma {:induction false} RepliesCons(event: Event, rest: seq<Event>)
    ensures RepliesIn([event] + rest)
         == (if event.ReplyTo? then [(event.header, event.payload)] else []) + RepliesIn(rest)
    ensures RepliesIn([]) == []
  {
    assert ([event] + rest)[1..] == rest;
  }

  // ----- the reader's steps and its stream

  /** Whether the settlement that led to this state ended the connection, and with which error. */
  function Verdict(s: PR.State): Option<Error> {
    if s.reader.Stopped? then Some(s.reader.error) else None
  }

  /** The verdicts of all settlements of a run, in order. */
  ghost function Verdicts(ss: seq<PR.State>, steps: seq<PR.Step>): (vs: seq<Option<Error>>)
    requires |ss| == |steps| + 1
    ensures |vs| == |Settlements(steps)|
  {
    if steps == [] then []
    else
      var n := |steps| - 1;
      Verdicts(ss[..n + 1], steps[..n]) + (if steps[n].Settle? then [Verdict(ss[n + 1])] else [])
  }

  function Nth(vs: seq<Option<Error>>): nat -> Option<Error> {
    (k: nat) => if k < |vs| then vs[k] else None
  }

  /** What the reader does with its stream, given how the run's settlements went. */
  ghost function ReaderOf(source: AmsAddr, stream: seq<byte>, ss: seq<PR.State>, steps: seq<PR.Step>): (seq<Event>, Error)
    requires |ss| == |steps| + 1
  {
    Work(source, stream, 0, Nth(Verdicts(ss, steps)))
  }

  /** Callers and reader together: in this run the reader works on this stream.  It has settled the
      replies it found so far, in order; it fails with the error that ends its loop, and crashes where
      its loop panics, having settled all replies before. */
  ghost predicate Joined(source: AmsAddr, stream: seq<byte>, ss: seq<PR.State>, steps: seq<PR.Step>) {
    && PR.Run(ss, steps)
    && var (events, error) := ReaderOf(source, stream, ss, steps);
       && Settlements(steps) <= RepliesIn(events)
       && (forall e :: PR.ReaderFail(e) in steps ==> e == error != Panic && Settlements(steps) == RepliesIn(events))
       && (PR.Crash in steps ==> error == Panic && Settlements(steps) == RepliesIn(events))
  }

  /** The error with which a reader has ended, if it has. */
  function Ended(r: PR.ReaderPhase): Option<Error> {
    match r
    case Stopped(e) => Some(e)
    case ShutDown(e) => Some(e)
    case Done(e) => Some(e)
    case _ => None
  }

  /** Why the reader is where it is: it ended by failing or by its last settlement, and before that no
      settlement ended the connection. */
  ghost predicate History(r: PR.ReaderPhase, vs: seq<Option<Error>>, steps: seq<PR.Step>) {
    && (r.Running? ==> forall k :: 0 <= k < |vs| ==> vs[k].None?)
    && (r.Crashed? ==> PR.Crash in steps)
    && (Ended(r).Some? ==>
          || PR.ReaderFail(Ended(r).value) in steps
          || (vs != [] && vs[|vs| - 1] == Ended(r) && forall k :: 0 <= k < |vs| - 1 ==> vs[k].None?))
  }

  /** How a step moves the reader. */
  predicate Moves(r: PR.ReaderPhase, r': PR.ReaderPhase, step: PR.Step) {
    if step.Settle? then r.Running? && (r'.Running? || (r'.Stopped? && r'.error != Panic))
    else
      || r' == r
      || (step.Crash? && r'.Crashed?)
      || (step.ReaderFail? && r' == PR.Stopped(step.error))
      || (Ended(r).Some? && Ended(r') == Ended(r))
  }

  lemma {:induction false} ReaderMoves(s: PR.State, step: PR.Step)
    requires PR.Enabled(s, step)
    ensures Moves(s.reader, PR.Do(s, step).reader, step)
  {
    hide Ams.CheckReply, PR.Id;
  }

  lemma {:induction false} HistoryKept(r: PR.ReaderPhase, r': PR.ReaderPhase, vs: seq<Option<Error>>,
                                       steps: seq<PR.Step>, step: PR.Step)
    requires History(r, vs, steps) && Moves(r, r', step)
    ensures History(r', if step.Settle? then vs + [if r'.Stopped? then Some(r'.error) else None] else vs, steps + [step])
  {
  }

  lemma {:induction false} ReaderHistory(ss: seq<PR.State>, steps: seq<PR.Step>)
    requires PR.Run(ss, steps)
    ensures History(ss[|steps|].reader, Verdicts(ss, steps), steps)
    decreases |steps|
  {
    if steps != [] {
      var n := |steps| - 1;
      RunPrefix(ss, steps, n);
      ReaderHistory(ss[..n + 1], steps[..n]);
      ReaderMoves(ss[n], steps[n]);
      hide PR.Run, PR.Do, PR.Enabled, History;
      HistoryKept(ss[n].reader, ss[n + 1].reader, Verdicts(ss[..n + 1], steps[..n]), steps[..n], steps[n]);
      assert steps == steps[..n] + [steps[n]];
    }
  }

  lemma {:induction false} RunPrefix(ss: seq<PR.State>, steps: seq<PR.Step>, n: nat)
    requires PR.Run(ss, steps) && n < |steps|
    ensures PR.Run(ss[..n + 1], steps[..n]) && ss[..n + 1][n] == ss[n]
    ensures |ss| == |steps| + 1 && PR.Enabled(ss[n], steps[n]) && ss[n + 1] == PR.Do(ss[n], steps[n])
  {
    hide PR.Do, PR.Enabled;
    forall i | 0 <= i < n
      ensures PR.Enabled(ss[..n + 1][i], steps[..n][i]) && ss[..n + 1][i + 1] == PR.Do(ss[..n + 1][i], steps[..n][i])
    {
      assert ss[i + 1] == PR.Do(ss[i], steps[i]);
    }
  }

  /** No settlement ends the connection with a panic. */
  lemma {:induction false} VerdictsNoPanic(ss: seq<PR.State>, steps: seq<PR.Step>)
    requires PR.Run(ss, steps)
    ensures forall k :: 0 <= k < |Verdicts(ss, steps)| ==> Verdicts(ss, steps)[k] != Some(Panic)
    decreases |steps|
  {
    if steps != [] {
      var n := |steps| - 1;
      RunPrefix(ss, steps, n);
      VerdictsNoPanic(ss[..n + 1], steps[..n]);
      ReaderMoves(ss[n], steps[n]);
      hide PR.Run, PR.Do, PR.Enabled;
    }
  }

  /** A loop that hands over more than `m` replies, the `m`-th of which ends the connection, ends there. */
  lemma {:induction false} WorkStopsAt(source: AmsAddr, p: seq<byte>, k: nat, settle: nat -> Option<Error>, m: nat, e: Error)
    requires settle(k + m) == Some(e) && forall j: nat :: k <= j < k + m ==> settle(j).None?
    requires |RepliesIn(Work(source, p, k, settle).0)| > m
    ensures Work(source, p, k, settle).1 == e && |RepliesIn(Work(source, p, k, settle).0)| == m + 1
    decreases |p|
  {
    hide ReadFrame, Work, NotificationsIn, RepliesIn;
    WorkStep(source, p, k, settle);
    if ReadFrame(source, p).Ok? {
      var (event, rest) := ReadFrame(source, p).value;
      if event.ReplyTo? {
        if m > 0 {
          assert settle(k).None?;
          WorkStopsAt(source, rest, k + 1, settle, m - 1, e);
        }
      } else {
        WorkStopsAt(source, rest, k, settle, m, e);
      }
    }
  }

  /** In a joined run the connection ends as the stream says: the error that the reader returns, and that
      the drain hands to the calls, is the one that ends its loop, and it crashes exactly by panicking. */
  lemma {:induction false} EndsAsTheStreamSays(source: AmsAddr, stream: seq<byte>, ss: seq<PR.State>, steps: seq<PR.Step>)
    requires Joined(source, stream, ss, steps)
    ensures var r, (events, error) := ss[|steps|].reader, ReaderOf(source, stream, ss, steps);
      && (Ended(r).Some? ==> Ended(r) == Some(error) && error != Panic)
      && (r.Crashed? ==> error == Panic)
      && (Ended(r).Some? || r.Crashed? ==> Settlements(steps) == RepliesIn(events))
  {
    ReaderHistory(ss, steps);
    VerdictsNoPanic(ss, steps);
    hide PR.Run, Work, RepliesIn, Verdicts, Settlements;
    var r, vs := ss[|steps|].reader, Verdicts(ss, steps);
    if Ended(r).Some? && PR.ReaderFail(Ended(r).value) !in steps {
      WorkStopsAt(source, stream, 0, Nth(vs), |vs| - 1, Ended(r).value);
      assert Settlements(steps) == RepliesIn(ReaderOf(source, stream, ss, steps).0);
    }
  }

  /** A reader that works on frames has crashed only if one of them was a notification too short for its
      length field, with nothing before it that ended the connection. */
  lemma {:induction false} CrashedByFrame(source: AmsAddr, fs: seq<Frame>, ss: seq<PR.State>, steps: seq<PR.Step>)
    requires forall f :: f in fs ==> WellFormed(f)
    requires Joined(source, EncodeFrames(fs), ss, steps) && ss[|steps|].reader.Crashed?
    ensures exists i: nat :: PanicsAt(source, fs, 0, Nth(Verdicts(ss, steps)), i)
  {
    EndsAsTheStreamSays(source, EncodeFrames(fs), ss, steps);
    VerdictsNoPanic(ss, steps);
    hide PR.Run, Work, WellFormed, EncodeFrames, PanicsAt, Verdicts;
    ReaderPanicsIff(source, fs, 0, Nth(Verdicts(ss, steps)));
  }

  /** And each such frame does it: with it alone on the stream there is a run in which a call without a
      timeout is left waiting; by `CrashStrandsCalls` it waits for good. */
  lemma {:induction false} FrameStrandsCall(source: AmsAddr, f: Frame, target: AmsAddr, cmd: u16)
    returns (ss: seq<PR.State>, steps: seq<PR.Step>)
    requires WellFormed(f) && ShortNotification(source, f)
    ensures Joined(source, EncodeFrames([f]), ss, steps)
    ensures var s := ss[|steps|];
      && s.reader.Crashed? && !s.timeouts
      && PR.At(s, 0, PR.Waiting) && s.calls[0].sent == [] && !s.calls[0].closed
  {
    ss, steps := PR.StrandedCall(target, cmd);
    RunLengths(ss, steps);
    hide PR.Run, Work, EncodeFrames, WellFormed, Meaning, ShortNotification, Joined, Verdicts, Handle;
    var settle := Nth(Verdicts(ss, steps));
    FramePanicsIff(source, f);
    WorkOnFrames(source, [f], 0, settle);
    HandleOne(source, f, settle);
    JoinedByPanic(source, EncodeFrames([f]), ss, steps);
  }

  lemma {:induction false} JoinedByPanic(source: AmsAddr, stream: seq<byte>, ss: seq<PR.State>, steps: seq<PR.Step>)
    requires PR.Run(ss, steps) && ReaderOf(source, stream, ss, steps) == ([], Panic)
    requires forall x :: x in steps ==> !x.Settle? && !x.ReaderFail?
    ensures Joined(source, stream, ss, steps)
  {
    hide PR.Run, ReaderOf;
    NoSettlements(steps);
  }

  lemma {:induction false} HandleOne(source: AmsAddr, f: Frame, settle: nat -> Option<Error>)
    requires Meaning(source, f) == Err(Panic)
    ensures Handle(source, [f], 0, settle) == Handled([], Some(Panic), 0) && RepliesIn([]) == []
  {
    hide Meaning;
  }

  lemma {:induction false} NoSettlements(steps: seq<PR.Step>)
    requires forall x :: x in steps ==> !x.Settle?
    ensures Settlements(steps) == []
    decreases |steps|
  {
    if steps != [] {
      NoSettlements(steps[..|steps| - 1]);
    }
  }

  /** For any frames a server sends and any interleaving of callers and the reader that works on them: a
      call that succeeds got the payload of one of the frames, unchanged, that was sent by its target to
      this client with its own id and command. */
  lemma {:induction false} SuccessWasSent(source: AmsAddr, fs: seq<Frame>, ss: seq<PR.State>, steps: seq<PR.Step>,
                                          i: nat, t: nat)
    requires forall f :: f in fs ==> WellFormed(f)
    requires Joined(source, EncodeFrames(fs), ss, steps) && i < |ss| && PR.At(ss[i], t, PR.Returned(Ok(())))
    ensures var c := ss[i].calls[t];
      && |c.sent| == 1 && c.sent[0].Good?
      && var h := c.sent[0].header;
         && Full(h, c.sent[0].payload) in fs
         && h.invokeId == PR.Id(t) && h.dest == source && h.src == c.target && h.command == c.cmd
         && h.stateFlags == 5 && h.errorCode == 0
  {
    RunLengths(ss, steps);
    hide PR.Run, PR.Id, Work, Handle, EncodeFrames, RepliesIn, WellFormed, Settlements, Verdicts;
    PR.RepliesReachTheirCall(ss, steps, i, t);
    var m := ss[i].calls[t].sent[0];
    assert m in ss[i].calls[t].sent;
    MessagesAreSettlements(ss, steps, i);
    SettlementsGrow(steps, i);
    var settle := Nth(Verdicts(ss, steps));
    WorkOnFrames(source, fs, 0, settle);
    var done := Handle(source, fs, 0, settle);
    var r := (m.header, m.payload);
    assert r == Settlements(steps)[m.frame] == RepliesIn(done.events)[m.frame];
    RepliesAreFrames(source, fs, 0, settle, r);
  }

  lemma {:induction false} RunLengths(ss: seq<PR.State>, steps: seq<PR.Step>)
    requires PR.Run(ss, steps)
    ensures |ss| == |steps| + 1
  {
  }
}
