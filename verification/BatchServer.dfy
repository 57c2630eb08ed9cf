/**
 Batching and single requests compared, on any server that executes the sub-requests of a batch one by
 one (src/test/mod.rs, `handle_client` and `do_read_write`): the server ends in the same state, and
 what a caller gets out of each request of `read_multi`, `write_multi` and `write_read_multi` is set
 against what `read`, `write` and `write_read` would have returned in the same place.
 */
module BatchServer {
  import opened Bytes
  import opened Ams
  import opened Exchange
  import opened SumUp
  import opened ReplyBuffers
  import opened MultiRequests

  // ----- the server

  /** A command handler: from a state and a request payload to the new state, the error code of the
      reply's header and the reply's payload. */
  type Handler<!S> = (S, seq<byte>) -> (S, u32, seq<byte>)

  /** How a server executes reads, writes, and those write/reads that are not sum-up requests it can
      take apart. */
  datatype Server<!S> = Server(read: Handler<S>, write: Handler<S>, readWrite: Handler<S>)

  function Resize(d: seq<byte>, n: nat): (r: seq<byte>)
    ensures |r| == n
  {
    if |d| >= n then d[..n] else d + seq(n - |d|, _ => 0)
  }

  /** How the server packs the answer to a sub-request into the reply to the batch: reads are padded to
      the requested length, write/reads are not, and the handler's own result field is dropped. */
  function AsSubReply(kind: Kind, request: seq<byte>, code: u32, d: seq<byte>): SubReply
    requires |request| >= kind.HeaderSize()
  {
    match kind
    case Reads =>
      var rlen := U32(request[8..12]);
      SubReply(code, rlen, Resize(d, rlen + 8)[8..])
    case Writes => SubReply(code, 0, [])
    case WriteReads =>
      if |d| > 8 then SubReply(code, (|d| - 8) % U32_LIMIT, d[8..]) else SubReply(code, 0, [])
  }

  /** The total length the server puts in front of a batch reply (`as u32`). */
  function Total(kind: Kind, replies: seq<SubReply>): u32 {
    (|Flatten(ResultHeaders(kind, replies))| + |Flatten(Datas(replies))|) % U32_LIMIT
  }

  /** Which batch a function code announces. */
  function BatchKind(group: u32): Option<Kind> {
    if group == SUMUP_READ_EX then Some(Reads)
    else if group == SUMUP_WRITE then Some(Writes)
    else if group == SUMUP_READWRITE then Some(WriteReads)
    else None
  }

  lemma {:induction false} UnpackedLengths(kind: Kind, n: nat, headers: seq<byte>, data: seq<byte>)
    ensures var u := Unpack(kind, n, headers, data);
      u.Some? ==> forall q :: q in u.value ==> kind.HeaderSize() <= |q| <= |headers| + |data|
  {
    if n > 0 && |headers| >= kind.HeaderSize() {
      var wlen := DataLength(kind, headers[..kind.HeaderSize()]);
      if |data| >= wlen {
        UnpackedLengths(kind, n - 1, headers[kind.HeaderSize()..], data[wlen..]);
      }
    }
  }

  lemma {:induction false} UnpackedBatch(kind: Kind, batch: seq<byte>)
    requires |batch| >= 16
    ensures var u := UnpackBatch(kind, batch);
      u.Some? ==> forall q :: q in u.value ==> kind.HeaderSize() <= |q| < |batch|
  {
    hide Unpack, Bytes.Unle;
    var n := U32(batch[4..8]);
    var woff := kind.HeaderAt(n);
    if woff <= |batch| {
      UnpackedLengths(kind, n, batch[16..woff], batch[woff..]);
    }
  }

  /** The read/write command: a sum-up request is taken apart and its sub-requests are executed in
      order, a sub-request of a write/read batch by this same command. */
  function ReadWrite<S>(srv: Server<S>, st: S, data: seq<byte>): (S, u32, seq<byte>)
    decreases |data|, 1, 0
  {
    if |data| < 16 then srv.readWrite(st, data)
    else
      match BatchKind(U32(data[..4]))
      case None => srv.readWrite(st, data)
      case Some(kind) =>
        match UnpackBatch(kind, data)
        case None => srv.readWrite(st, data)
        case Some(requests) =>
          UnpackedBatch(kind, data);
          var (last, replies) := ServeAll(kind, srv, st, requests, |data|);
          (last, 0, ReplyPayload(kind, Total(kind, replies), replies))
  }

  /** One operation, sent on its own or taken out of a batch. */
  function Execute<S>(kind: Kind, srv: Server<S>, st: S, request: seq<byte>): (S, u32, seq<byte>)
    decreases |request|, 2, 0
  {
    match kind
    case Reads => srv.read(st, request)
    case Writes => srv.write(st, request)
    case WriteReads => ReadWrite(srv, st, request)
  }

  /** The server's loop over the unpacked sub-requests. */
  function ServeAll<S>(kind: Kind, srv: Server<S>, st: S, requests: seq<seq<byte>>, bound: nat): (S, seq<SubReply>)
    requires forall q :: q in requests ==> kind.HeaderSize() <= |q| < bound
    decreases bound, 0, |requests|
  {
    if requests == [] then (st, [])
    else
      var n := |requests| - 1;
      var (before, replies) := ServeAll(kind, srv, st, requests[..n], bound);
      var (after, code, d) := Execute(kind, srv, before, requests[n]);
      (after, replies + [AsSubReply(kind, requests[n], code, d)])
  }

  /** The header a server puts on its reply: addresses swapped, response flag set. */
  function ReplyHeader(h: AdsHeader, code: u32, replyLen: nat): AdsHeader
    requires AMS_HEADER_SIZE + replyLen < U32_LIMIT
  {
    AdsHeader(0, AMS_HEADER_SIZE + replyLen, h.src, h.dest, h.command,
              if h.stateFlags % 2 == 0 then h.stateFlags + 1 else h.stateFlags, replyLen, code, h.invokeId)
  }

  function Command(kind: Kind): u16 {
    match kind case Reads => CMD_READ case Writes => CMD_WRITE case WriteReads => CMD_READ_WRITE
  }

  /** Commands are dispatched by their number; others are refused. */
  function Dispatch<S>(srv: Server<S>, st: S, command: u16, data: seq<byte>): (S, u32, seq<byte>) {
    if command == CMD_READ then Execute(Reads, srv, st, data)
    else if command == CMD_WRITE then Execute(Writes, srv, st, data)
    else if command == CMD_READ_WRITE then Execute(WriteReads, srv, st, data)
    else (st, 0x701, [])
  }

  predicate FitsFrame(payload: seq<byte>) {
    AMS_HEADER_SIZE + |payload| < U32_LIMIT
  }

  /** The server in this state as a client's exchange partner; a reply that no frame can announce does
      not arrive. */
  function ServerExchange<S>(srv: Server<S>, st: S): seq<byte> -> Answer {
    (frame: seq<byte>) =>
      if |frame| < ADS_HEADER_SIZE then Lost(UnexpectedEof)
      else
        var h := DecodeHeader(frame[..ADS_HEADER_SIZE]);
        var (_, code, reply) := Dispatch(srv, st, h.command, frame[ADS_HEADER_SIZE..]);
        if FitsFrame(reply) then Answered(ReplyHeader(h, code, |reply|), reply) else Lost(UnexpectedEof)
  }

  // ----- the operations one after the other

  /** The state in which operation `i` is executed when all are sent singly, in order. */
  function StateBefore<S>(kind: Kind, srv: Server<S>, st: S, ops: seq<Op>, i: nat): S
    requires i <= |ops|
  {
    if i == 0 then st
    else Execute(kind, srv, StateBefore(kind, srv, st, ops, i - 1), Single(kind, ops[i - 1])).0
  }

  /** What operation `i` is answered then: error code and payload. */
  function AnswerTo<S>(kind: Kind, srv: Server<S>, st: S, ops: seq<Op>, i: nat): (u32, seq<byte>)
    requires i < |ops|
  {
    var (_, code, d) := Execute(kind, srv, StateBefore(kind, srv, st, ops, i), Single(kind, ops[i]));
    (code, d)
  }

  /** This answer, packed into a batch reply. */
  function SubReplyTo<S>(kind: Kind, srv: Server<S>, st: S, ops: seq<Op>, i: nat): SubReply
    requires i < |ops|
  {
    var (code, d) := AnswerTo(kind, srv, st, ops, i);
    AsSubReply(kind, Single(kind, ops[i]), code, d)
  }

  function SubReplies<S>(kind: Kind, srv: Server<S>, st: S, ops: seq<Op>): (replies: seq<SubReply>)
    ensures |replies| == |ops|
    ensures forall i :: 0 <= i < |ops| ==> replies[i] == SubReplyTo(kind, srv, st, ops, i)
  {
    seq(|ops|, i requires 0 <= i < |ops| => SubReplyTo(kind, srv, st, ops, i))
  }

  lemma {:induction false} ServeOneMore<S>(kind: Kind, srv: Server<S>, st: S, requests: seq<seq<byte>>, bound: nat,
                                           i: nat)
    requires i < |requests| && forall q :: q in requests ==> kind.HeaderSize() <= |q| < bound
    ensures var (before, replies) := ServeAll(kind, srv, st, requests[..i], bound);
      var (after, code, d) := Execute(kind, srv, before, requests[i]);
      ServeAll(kind, srv, st, requests[..i + 1], bound)
        == (after, replies + [AsSubReply(kind, requests[i], code, d)])
  {
    hide Execute, AsSubReply;
    assert requests[..i + 1][..i] == requests[..i];
  }

  lemma {:induction false} NextState<S>(kind: Kind, srv: Server<S>, st: S, ops: seq<Op>, i: nat)
    requires i < |ops|
    ensures var (after, code, d) := Execute(kind, srv, StateBefore(kind, srv, st, ops, i), Single(kind, ops[i]));
      && StateBefore(kind, srv, st, ops, i + 1) == after
      && SubReplyTo(kind, srv, st, ops, i) == AsSubReply(kind, Single(kind, ops[i]), code, d)
  {
    hide Execute, AsSubReply, Single;
  }

  lemma {:induction false} ServeNone<S>(kind: Kind, srv: Server<S>, st: S, ops: seq<Op>, bound: nat)
    ensures ServeAll(kind, srv, st, Singles(kind, ops)[..0], bound)
         == (StateBefore(kind, srv, st, ops, 0), SubReplies(kind, srv, st, ops)[..0])
  {
    assert Singles(kind, ops)[..0] == [] && SubReplies(kind, srv, st, ops)[..0] == [];
  }

  lemma {:induction false} ServeSingles<S>(kind: Kind, srv: Server<S>, st: S, ops: seq<Op>, bound: nat, i: nat)
    requires i <= |ops| && forall q :: q in Singles(kind, ops) ==> kind.HeaderSize() <= |q| < bound
    ensures ServeAll(kind, srv, st, Singles(kind, ops)[..i], bound)
         == (StateBefore(kind, srv, st, ops, i), SubReplies(kind, srv, st, ops)[..i])
  {
    hide *;
    if i == 0 {
      ServeNone(kind, srv, st, ops, bound);
    } else {
      ServeSingles(kind, srv, st, ops, bound, i - 1);
      ServeOneMore(kind, srv, st, Singles(kind, ops), bound, i - 1);
      NextState(kind, srv, st, ops, i - 1);
      var replies := SubReplies(kind, srv, st, ops);
      assert replies[..i] == replies[..i - 1] + [replies[i - 1]];
      assert Singles(kind, ops)[i - 1] == Single(kind, ops[i - 1]);
    }
  }

  /** A server that gets the batch ends in the state that the single operations lead to, and answers with
      exactly their results, in order. */
  lemma {:induction false} BatchServed<S>(kind: Kind, srv: Server<S>, st: S, ops: seq<Op>)
    requires Fits(kind, ops)
    ensures var replies := SubReplies(kind, srv, st, ops);
      ReadWrite(srv, st, Batch(kind, ops))
        == (StateBefore(kind, srv, st, ops, |ops|), 0, ReplyPayload(kind, Total(kind, replies), replies))
  {
    hide ServeAll, Bytes.Unle, Bytes.Le, Batch, UnpackBatch, ReplyPayload, StateBefore, SubReplies, Fits, Total;
    var batch, ss, replies := Batch(kind, ops), Singles(kind, ops), SubReplies(kind, srv, st, ops);
    BatchCode(kind, ops);
    BatchUnpacks(kind, ops);
    UnpackedBatch(kind, batch);
    ServeSingles(kind, srv, st, ops, |batch|, |ops|);
    assert ss[..|ops|] == ss && replies[..|ops|] == replies;
  }

  /** The length field of the reply is true whenever it can be. */
  lemma {:induction false} TotalIsTrue(kind: Kind, replies: seq<SubReply>)
    requires FitsFrame(ReplyPayload(kind, Total(kind, replies), replies))
    ensures var reply := ReplyPayload(kind, Total(kind, replies), replies);
      |reply| >= 8 && U32(reply[4..8]) == |reply| - 8
  {
    hide Bytes.Le, Bytes.Unle, Bytes.Flatten;
    var x := Flatten(ResultHeaders(kind, replies)) + Flatten(Datas(replies));
    TakeBack(Le(0, 4), Le(Total(kind, replies), 4) + x);
    U32Field(Total(kind, replies));
    assert ReplyPayload(kind, Total(kind, replies), replies)[4..8] == Le(Total(kind, replies), 4);
  }

  lemma {:induction false} BatchCode(kind: Kind, ops: seq<Op>)
    requires Fits(kind, ops)
    ensures |Batch(kind, ops)| >= 16 && BatchKind(U32(Batch(kind, ops)[..4])) == Some(kind)
  {
    hide Bytes.Unle, Bytes.Le, Bytes.Flatten, ReadLength, WriteLength;
    BatchHeaderDecodes(kind, ops);
    assert Batch(kind, ops)[..4] == BatchHeader(kind, ops)[..4];
  }

  // ----- what a caller gets out of a single request

  /** What a caller takes out of the buffer, given the length that the call returned. */
  function Taken(r: Result<u32>, buf: seq<byte>): Result<seq<byte>> {
    match r
    case Err(e) => Err(e)
    case Ok(n) => if n > |buf| then Err(Panic) else Ok(buf[..n])
  }

  /** The outcome of `read`, `write` or `write_read` for a caller whose buffer held `before`. */
  function SingleOutcome(kind: Kind, me: Sender, target: AmsAddr, op: Op, before: seq<byte>,
                         exchange: seq<byte> -> Answer): Result<seq<byte>>
  {
    if kind.ReadRoom(op) >= U32_LIMIT || |Body(kind, op)| >= U32_LIMIT then Err(Overflow)
    else if kind.Writes? then
      var _ :- Received(me, CMD_WRITE, target, Single(kind, op), None, exchange);
      Ok([])
    else
      var got :- Received(me, Command(kind), target, Single(kind, op), Some(4), exchange);
      Taken(Ok(U32(got[..4])), Overlay(before, got[4..]))
  }

  /** The frame of a single request; none if a length does not fit its field. */
  function SingleFrames(kind: Kind, me: Sender, target: AmsAddr, op: Op): seq<seq<byte>> {
    if kind.ReadRoom(op) >= U32_LIMIT || |Body(kind, op)| >= U32_LIMIT then []
    else Frames(me, Command(kind), target, Single(kind, op))
  }

  /** On the wire a read is command 2, a write 3, a write/read 9, with the operation as payload. */
  lemma {:induction false} SingleFrameIs(kind: Kind, me: Sender, target: AmsAddr, op: Op)
    requires kind.ReadRoom(op) < U32_LIMIT && |Body(kind, op)| < U32_LIMIT && 32 + |Single(kind, op)| < U32_LIMIT
    ensures var fs := SingleFrames(kind, me, target, op);
      && |fs| == 1 && |fs[0]| >= 38 && fs[0][38..] == Single(kind, op)
      && var h := DecodeHeader(fs[0][..38]);
         && h.dest == target && h.src == me.source && h.invokeId == me.id
         && h.command == match kind case Reads => 2 case Writes => 3 case WriteReads => 9
  {
    hide Bytes.Le, Ams.DecodeHeader, Ams.EncodeHeader, Single;
    FrameLengthsAreTrue(me.source, target, Command(kind), me.id, Single(kind, op));
  }

  /** Data too long for a length field is refused before anything is sent. */
  lemma {:induction false} SingleOverflow(kind: Kind, me: Sender, target: AmsAddr, op: Op, before: seq<byte>,
                                          exchange: seq<byte> -> Answer)
    requires (!kind.Writes? && op.rlen >= 0x1_0000_0000) || (!kind.Reads? && |op.wdata| >= 0x1_0000_0000)
    ensures SingleOutcome(kind, me, target, op, before, exchange) == Err(Overflow)
    ensures SingleFrames(kind, me, target, op) == []
  {
    hide Received, Frames, Single;
  }

  /** So is a batch whose sub-requests, or whose reply, would be too long together. */
  lemma {:induction false} BatchOverflow(kind: Kind, me: Sender, target: AmsAddr, ops: seq<Op>, replies: seq<SubReply>,
                                         exchange: seq<byte> -> Answer)
    requires |replies| == |ops| && forall i :: 0 <= i < |ops| ==> |replies[i].data| == kind.ReadRoom(ops[i])
    requires || |Batch(kind, ops)| - 16 >= 0x1_0000_0000
             || |ReplyPayload(kind, 0, replies)| - 8 >= 0x1_0000_0000
    ensures BatchReply(kind, me, target, ops, exchange) == Err(Overflow)
    ensures BatchFrames(kind, me, target, ops) == []
  {
    hide Received, Frames, Bytes.Le, ReadLength, WriteLength, Bytes.Flatten;
    BodyArea(kind, ops);
    ReadLengthIs(kind, ops, replies);
  }

  /** Every sum-up call is a write/read. */
  lemma {:induction false} BatchFrameIs(kind: Kind, me: Sender, target: AmsAddr, ops: seq<Op>)
    requires Fits(kind, ops) && 32 + |Batch(kind, ops)| < U32_LIMIT
    ensures var fs := BatchFrames(kind, me, target, ops);
      && |fs| == 1 && |fs[0]| >= 38 && fs[0][38..] == Batch(kind, ops)
      && var h := DecodeHeader(fs[0][..38]);
         h.dest == target && h.src == me.source && h.invokeId == me.id && h.command == 9
  {
    hide Bytes.Le, Ams.DecodeHeader, Ams.EncodeHeader, Batch, Fits;
    FrameLengthsAreTrue(me.source, target, CMD_READ_WRITE, me.id, Batch(kind, ops));
  }

  /** `Device::write`. */
  method WriteOne(me: Sender, target: AmsAddr, op: Op, socket: Socket) returns (r: Result<()>)
    modifies socket
    ensures socket.sent == old(socket.sent) + SingleFrames(Writes, me, target, op)
    ensures SingleOutcome(Writes, me, target, op, [], socket.answer) == if r.Ok? then Ok([]) else Err(r.error)
  {
    hide Received, Frames, Bytes.Le, Bytes.Unle, Header;
    if |op.wdata| >= U32_LIMIT {
      return Err(Overflow);
    }
    assert Flatten([Header(Writes, op), op.wdata]) == Single(Writes, op) by {
      TwoPieces(Header(Writes, op), op.wdata);
    }
    var n := Communicate(me, CMD_WRITE, target, [Header(Writes, op), op.wdata], [], socket);
    if n.Err? {
      return Err(n.error);
    }
    r := Ok(());
  }

  lemma {:induction false} TwoPieces(a: seq<byte>, b: seq<byte>)
    ensures Flatten([a, b]) == a + b && Flatten([a]) == a
  {
    FlattenCons([a, b]);
    FlattenCons([b]);
    FlattenCons([a]);
    assert [a, b][1..] == [b] && [b][1..] == [] && [a][1..] == [];
  }

  /** `Device::read` and `Device::write_read`: the reported length, and the data at the front of the
      buffer, which a failure leaves alone. */
  method ReadOne(kind: Kind, me: Sender, target: AmsAddr, op: Op, rbuf: array<byte>, socket: Socket)
    returns (r: Result<u32>)
    requires !kind.Writes? && op.rlen == rbuf.Length
    modifies rbuf, socket
    ensures socket.sent == old(socket.sent) + SingleFrames(kind, me, target, op)
    ensures Taken(r, rbuf[..]) == SingleOutcome(kind, me, target, op, old(rbuf[..]), socket.answer)
    ensures r.Err? ==> rbuf[..] == old(rbuf[..])
  {
    hide Received, Frames, Bytes.Le, Bytes.Unle, Header, Overlay;
    if rbuf.Length >= U32_LIMIT {
      return Err(Overflow);
    }
    if kind.WriteReads? && |op.wdata| >= U32_LIMIT {
      return Err(Overflow);
    }
    ghost var before := rbuf[..];
    var payload := if kind.Reads? then [Header(kind, op)] else [Header(kind, op), op.wdata];
    TwoPieces(Header(kind, op), op.wdata);
    assert Flatten(payload) == Single(kind, op);
    var readLen := new byte[4](_ => 0);
    assert Contents([rbuf]) == [before];
    var n := CommunicateWithLength(me, Command(kind), target, payload, readLen, [rbuf], socket);
    assert Contents([rbuf])[0] == rbuf[..];
    if n.Err? {
      return Err(n.error);
    }
    r := Ok(U32(readLen[..]));
  }

  // ----- on the server

  /** The outcome of a single request by the error code and the payload that answer it. */
  function FromAnswer(kind: Kind, before: seq<byte>, code: u32, payload: seq<byte>): Result<seq<byte>> {
    if code != 0 then Err(Ads(code))
    else if |payload| < 4 then Err(Panic)
    else if U32(payload[..4]) != 0 then Err(Ads(U32(payload[..4])))
    else if kind.Writes? then Ok([])
    else if |payload| < 8 then Err(Reply(ShortReply, |payload|))
    else Taken(Ok(U32(payload[4..8])), Overlay(before, payload[8..]))
  }

  /** The server's answer to a request frame, with everything but the error code as the client expects. */
  lemma {:induction false} FrameServed<S>(srv: Server<S>, st: S, me: Sender, target: AmsAddr, cmd: u16,
                                          payload: seq<byte>)
    requires FitsFrame(payload) && FitsFrame(Dispatch(srv, st, cmd, payload).2)
    ensures var (_, code, reply) := Dispatch(srv, st, cmd, payload);
      var frame := RequestFrame(me.source, target, cmd, me.id, payload);
      && frame.Ok? && ServerExchange(srv, st)(frame.value).Answered?
      && ServerExchange(srv, st)(frame.value).payload == reply
      && var h := ServerExchange(srv, st)(frame.value).header;
         h.src == target && h.command == cmd && h.stateFlags == 5 && h.invokeId == me.id && h.errorCode == code
  {
    hide Bytes.Le, Bytes.Unle, Ams.EncodeHeader, Ams.DecodeHeader, Dispatch;
    var h := RequestHeader(me.source, target, cmd, me.id, |payload|);
    TakeBack(EncodeHeader(h), payload);
    HeaderRoundTrip(h);
  }

  /** What a single request delivers, by the answer of the server. */
  lemma {:induction false} SingleReceived<S>(srv: Server<S>, st: S, me: Sender, target: AmsAddr, cmd: u16,
                                             payload: seq<byte>, first: Option<nat>)
    requires FitsFrame(payload) && FitsFrame(Dispatch(srv, st, cmd, payload).2)
    ensures var (_, code, reply) := Dispatch(srv, st, cmd, payload);
      Received(me, cmd, target, payload, first, ServerExchange(srv, st))
        == if code != 0 then Err(Ads(code))
           else if |reply| < 4 then Err(Panic)
           else if U32(reply[..4]) != 0 then Err(Ads(U32(reply[..4])))
           else if first.None? then Ok([])
           else if |reply| < first.value + 4 then Err(Reply(ShortReply, |reply|))
           else Ok(reply[4..])
  {
    hide Bytes.Unle, Ams.RequestFrame, Dispatch, ServerExchange;
    FrameServed(srv, st, me, target, cmd, payload);
  }

  lemma {:induction false} SingleServed<S>(kind: Kind, srv: Server<S>, st: S, me: Sender, target: AmsAddr, op: Op,
                                           before: seq<byte>)
    requires kind.ReadRoom(op) < U32_LIMIT && |Body(kind, op)| < U32_LIMIT
    requires FitsFrame(Single(kind, op)) && FitsFrame(Execute(kind, srv, st, Single(kind, op)).2)
    ensures var (_, code, payload) := Execute(kind, srv, st, Single(kind, op));
      SingleOutcome(kind, me, target, op, before, ServerExchange(srv, st)) == FromAnswer(kind, before, code, payload)
  {
    hide Bytes.Unle, Received, Execute, ServerExchange, Single, Overlay;
    var first := if kind.Writes? then None else Some(4 as nat);
    SingleReceived(srv, st, me, target, Command(kind), Single(kind, op), first);
    var (_, _, payload) := Execute(kind, srv, st, Single(kind, op));
    if |payload| >= 8 {
      assert payload[4..][..4] == payload[4..8] && payload[4..][4..] == payload[8..];
    }
  }

  // ----- batched and single requests compared

  /** When a request of a batch hands out what the same request alone does: it failed, or its answer has
      a zero result field, as a batch assumes, and a length field that tells what a batch counts: the
      data sent with a write/read, the whole buffer for a read, whose missing bytes a batch fills with
      zeros. */
  predicate Agrees(kind: Kind, before: seq<byte>, code: u32, payload: seq<byte>) {
    || code != 0
    || (&& |payload| >= 4 && U32(payload[..4]) == 0
        && match kind
           case Writes => true
           case WriteReads => |payload| >= 8 && U32(payload[4..8]) == |payload| - 8
           case Reads => && |payload| >= 8 && U32(payload[4..8]) == |before|
                         && forall x :: |payload| - 8 <= x < |before| ==> before[x] == 0)
  }

  lemma {:induction false} PaddedReadIff(before: seq<byte>, payload: seq<byte>)
    requires |payload| >= 8
    ensures Overlay(before, payload[8..]) == Resize(payload, |before| + 8)[8..] <==>
      forall x :: |payload| - 8 <= x < |before| ==> before[x] == 0
  {
    var a, b := Overlay(before, payload[8..]), Resize(payload, |before| + 8)[8..];
    forall x | 0 <= x < |before|
      ensures a[x] == (if x < |payload| - 8 then payload[x + 8] else before[x])
      ensures b[x] == (if x < |payload| - 8 then payload[x + 8] else 0)
    {
    }
    if forall x :: |payload| - 8 <= x < |before| ==> before[x] == 0 {
      assert a == b;
    } else {
      var x :| |payload| - 8 <= x < |before| && before[x] != 0;
      assert a[x] != b[x];
    }
  }

  lemma {:induction false} NoData()
    ensures Expected(SubReply(0, 0, [])) == Ok([])
  {
  }

  lemma {:induction false} ReadAgreesIff(op: Op, before: seq<byte>, payload: seq<byte>)
    requires |before| == op.rlen < U32_LIMIT
    ensures FromAnswer(Reads, before, 0, payload) == Expected(AsSubReply(Reads, Single(Reads, op), 0, payload))
            <==> Agrees(Reads, before, 0, payload)
  {
    hide Bytes.Le, Bytes.Unle, Overlay, Resize;
    HeaderReadLength(Reads, op);
    assert Single(Reads, op)[8..12] == Header(Reads, op)[8..12];
    var padded := Resize(payload, op.rlen + 8)[8..];
    assert padded[..op.rlen] == padded;
    if |payload| >= 8 {
      PaddedReadIff(before, payload);
      var now := Overlay(before, payload[8..]);
      assert now[..op.rlen] == now;
    }
  }

  lemma {:induction false} WriteReadAgreesIff(op: Op, before: seq<byte>, payload: seq<byte>)
    requires |before| == op.rlen < U32_LIMIT && |payload| - 8 <= op.rlen
    ensures Expected(AsSubReply(WriteReads, Single(WriteReads, op), 0, payload)) == FromAnswer(WriteReads, before, 0, payload)
            <==> Agrees(WriteReads, before, 0, payload)
  {
    hide Bytes.Le, Bytes.Unle, Header;
    if |payload| >= 8 {
      var now := Overlay(before, payload[8..]);
      assert now[..|payload| - 8] == payload[8..];
      assert payload[8..][..|payload| - 8] == payload[8..];
    }
  }

  /** A batched request and a single one agree exactly under this condition. */
  lemma {:induction false} BatchedAgreesIff(kind: Kind, op: Op, before: seq<byte>, code: u32, payload: seq<byte>)
    requires kind.Writes? || |before| == op.rlen < U32_LIMIT
    requires kind.WriteReads? ==> |payload| - 8 <= op.rlen
    ensures FromAnswer(kind, before, code, payload) == Expected(AsSubReply(kind, Single(kind, op), code, payload))
            <==> Agrees(kind, before, code, payload)
  {
    hide Bytes.Le, Bytes.Unle, Header, Single, Overlay, Resize;
    if code == 0 {
      match kind
      case Reads => ReadAgreesIff(op, before, payload);
      case Writes => NoData();
      case WriteReads => WriteReadAgreesIff(op, before, payload);
    }
  }

  /** An answer as a server without oddities gives it: an error, or a zero result, a true length field,
      and no more data than was asked for. */
  predicate Regular(kind: Kind, room: nat, code: u32, payload: seq<byte>) {
    || code != 0
    || (&& |payload| >= 4 && U32(payload[..4]) == 0
        && (!kind.Writes? ==> |payload| >= 8 && U32(payload[4..8]) == |payload| - 8 <= room))
  }

  /** On regular answers writes and write/reads always agree, and reads exactly if they are not short. */
  lemma {:induction false} RegularAgreesIff(kind: Kind, before: seq<byte>, code: u32, payload: seq<byte>)
    requires Regular(kind, |before|, code, payload)
    ensures Agrees(kind, before, code, payload) <==> (kind.Reads? && code == 0 ==> |payload| - 8 == |before|)
  {
    hide Bytes.Unle;
  }

  /** A handler that reports its failure in the result field only: the single request fails, the batched
      one reports success. */
  lemma {:induction false} ResultFieldDropped(kind: Kind, op: Op, before: seq<byte>, error: u32)
    requires error != 0 && !kind.Reads?
    ensures var payload := Le(error, 4) + Le(0, 4);
      && FromAnswer(kind, before, 0, payload) == Err(Ads(error))
      && Expected(AsSubReply(kind, Single(kind, op), 0, payload)) == Ok([])
  {
    hide Bytes.Le, Bytes.Unle, Header, Overlay;
    U32Field(error);
    TakeBack(Le(error, 4), Le(0, 4));
    NoData();
  }

  // ----- the three calls on the server

  /** The request, its reply and the replies to the single operations are small enough to be framed. */
  ghost predicate RoundFits<S>(kind: Kind, srv: Server<S>, st: S, ops: seq<Op>) {
    && Fits(kind, ops) && FitsFrame(Batch(kind, ops)) && FitsFrame(ReadWrite(srv, st, Batch(kind, ops)).2)
    && forall i :: 0 <= i < |ops| ==> FitsFrame(AnswerTo(kind, srv, st, ops, i).1)
  }

  lemma {:induction false} SingleInBatch(kind: Kind, ops: seq<Op>, i: nat)
    requires i < |ops| && Fits(kind, ops)
    ensures |Single(kind, ops[i])| <= |Batch(kind, ops)|
    ensures kind.ReadRoom(ops[i]) < U32_LIMIT && |Body(kind, ops[i])| < U32_LIMIT
  {
    hide Header, Body, Bytes.Flatten, BatchHeader, ReadLength, WriteLength;
    FlattenSlice(Headers(kind, ops), i);
    FlattenSlice(Bodies(kind, ops), i);
    LengthsFit(kind, ops, i);
  }

  /** The whole round: the batch goes out in one frame, is executed, and the reply passes all checks and
      carries the answers to the single operations in order. */
  lemma {:induction false} BatchAnswered<S>(kind: Kind, srv: Server<S>, st: S, me: Sender, target: AmsAddr, ops: seq<Op>)
    requires RoundFits(kind, srv, st, ops)
    ensures var replies := SubReplies(kind, srv, st, ops);
      AnsweredWith(kind, me, target, ops, ServerExchange(srv, st), Total(kind, replies), replies)
  {
    hide Bytes.Le, Bytes.Unle, Batch, Fits, ReadWrite, ServerExchange, ReplyPayload, SubReplies, StateBefore, Total;
    hide Ams.RequestFrame, Ams.CheckReply;
    var replies := SubReplies(kind, srv, st, ops);
    var batch, reply := Batch(kind, ops), ReplyPayload(kind, Total(kind, replies), replies);
    BatchServed(kind, srv, st, ops);
    assert Dispatch(srv, st, CMD_READ_WRITE, batch) == ReadWrite(srv, st, batch);
    FrameServed(srv, st, me, target, CMD_READ_WRITE, batch);
    var frame := RequestFrame(me.source, target, CMD_READ_WRITE, me.id, batch);
    ReplyDelivered(kind, Total(kind, replies), replies);
    AcceptedReply(target, CMD_READ_WRITE, me.id, ServerExchange(srv, st)(frame.value).header, reply);
  }

  /** Request `i` of the batch hands out what the single request hands out iff they agree. */
  ghost predicate AgreeIff<S>(kind: Kind, srv: Server<S>, st: S, me: Sender, target: AmsAddr, ops: seq<Op>, i: nat,
                              before: seq<byte>, outcome: Result<seq<byte>>)
    requires i < |ops|
  {
    var (code, payload) := AnswerTo(kind, srv, st, ops, i);
    outcome == SingleOutcome(kind, me, target, ops[i], before, ServerExchange(srv, StateBefore(kind, srv, st, ops, i)))
    <==> Agrees(kind, before, code, payload)
  }

  lemma {:induction false} SubReplyAgrees<S>(kind: Kind, srv: Server<S>, st: S, me: Sender, target: AmsAddr,
                                             ops: seq<Op>, i: nat, before: seq<byte>)
    requires RoundFits(kind, srv, st, ops) && i < |ops| && (kind.Writes? || |before| == ops[i].rlen)
    requires kind.WriteReads? ==> |AnswerTo(kind, srv, st, ops, i).1| - 8 <= ops[i].rlen
    ensures AgreeIff(kind, srv, st, me, target, ops, i, before, Expected(SubReplies(kind, srv, st, ops)[i]))
  {
    hide Bytes.Le, Bytes.Unle, Batch, Fits, ReadWrite, ServerExchange, Execute, Single, StateBefore;
    hide Expected, AsSubReply, SingleOutcome, FromAnswer, Agrees;
    SingleInBatch(kind, ops, i);
    var (code, payload) := AnswerTo(kind, srv, st, ops, i);
    SingleServed(kind, srv, StateBefore(kind, srv, st, ops, i), me, target, ops[i], before);
    BatchedAgreesIff(kind, ops[i], before, code, payload);
  }

  /** `read_multi` against that server: every request reports what the single `read` in its place would,
      iff their answers agree. */
  method BatchedReads<S>(srv: Server<S>, st: S, me: Sender, target: AmsAddr, rs: seq<ReadRequest>)
    returns (r: Result<()>)
    requires Apart(ReadResults(rs) + ReadBuffers(rs))
    requires forall i :: 0 <= i < |rs| ==> rs[i].res.Length == 8
    modifies ReadResults(rs) + ReadBuffers(rs)
    ensures RoundFits(Reads, srv, st, ReadOps(rs)) ==>
      && r == Ok(())
      && forall i :: 0 <= i < |rs| ==>
           AgreeIff(Reads, srv, st, me, target, ReadOps(rs), i, old(rs[i].rbuf[..]), rs[i].Data())
  {
    hide RoundFits, AgreeIff, AnsweredWith, BatchFrames, Expected, ServerExchange, SubReplies, BatchReply, Total, Poured, Overlay;
    ghost var ops, before := ReadOps(rs), Contents(ReadBuffers(rs));
    ghost var replies := SubReplies(Reads, srv, st, ops);
    if RoundFits(Reads, srv, st, ops) {
      BatchAnswered(Reads, srv, st, me, target, ops);
      ReadsPadded(srv, st, rs);
    }
    var socket := new Socket(ServerExchange(srv, st));
    r := ReadMulti(me, target, rs, socket, Total(Reads, replies), replies);
    if RoundFits(Reads, srv, st, ops) {
      forall i | 0 <= i < |rs|
        ensures AgreeIff(Reads, srv, st, me, target, ops, i, before[i], rs[i].Data())
      {
        SubReplyAgrees(Reads, srv, st, me, target, ops, i, before[i]);
      }
    }
  }

  lemma {:induction false} ReadsPadded<S>(srv: Server<S>, st: S, rs: seq<ReadRequest>)
    requires RoundFits(Reads, srv, st, ReadOps(rs))
    ensures Padded(rs, SubReplies(Reads, srv, st, ReadOps(rs)))
  {
    hide Bytes.Le, Bytes.Unle, Batch, ReadWrite, AnswerTo, Resize, Header;
    var ops := ReadOps(rs);
    forall i | 0 <= i < |rs|
      ensures |SubReplies(Reads, srv, st, ops)[i].data| == rs[i].rbuf.Length
    {
      NoTruncatedLength(Reads, ops, i);
      assert Single(Reads, ops[i])[8..12] == Header(Reads, ops[i])[8..12];
    }
  }

  /** `write_multi` against that server. */
  method BatchedWrites<S>(srv: Server<S>, st: S, me: Sender, target: AmsAddr, rs: seq<WriteRequest>)
    returns (r: Result<()>)
    requires Apart(WriteResults(rs))
    requires forall i :: 0 <= i < |rs| ==> rs[i].res.Length == 4
    modifies WriteResults(rs)
    ensures RoundFits(Writes, srv, st, WriteOps(rs)) ==>
      && r == Ok(())
      && forall i :: 0 <= i < |rs| ==>
           AgreeIff(Writes, srv, st, me, target, WriteOps(rs), i, [], NoDataOf(rs[i].Ensure()))
  {
    hide RoundFits, AgreeIff, AnsweredWith, BatchFrames, ServerExchange, BatchReply, Total, Poured, Overlay, AnswerTo, Bytes.Unle;
    ghost var ops := WriteOps(rs);
    ghost var replies := SubReplies(Writes, srv, st, ops);
    if RoundFits(Writes, srv, st, ops) {
      BatchAnswered(Writes, srv, st, me, target, ops);
    }
    var socket := new Socket(ServerExchange(srv, st));
    r := WriteMulti(me, target, rs, socket, Total(Writes, replies), replies);
    if RoundFits(Writes, srv, st, ops) {
      forall i | 0 <= i < |rs|
        ensures AgreeIff(Writes, srv, st, me, target, ops, i, [], NoDataOf(rs[i].Ensure()))
      {
        SubReplyAgrees(Writes, srv, st, me, target, ops, i, []);
        NoData();
        assert NoDataOf(rs[i].Ensure()) == Expected(replies[i]);
      }
    }
  }

  function NoDataOf(r: Result<()>): Result<seq<byte>> {
    match r case Ok(_) => Ok([]) case Err(e) => Err(e)
  }

  /** `write_read_multi` against that server; it panics iff an answer is longer than its buffer. */
  method BatchedWriteReads<S>(srv: Server<S>, st: S, me: Sender, target: AmsAddr, rs: seq<WriteReadRequest>)
    returns (r: Result<()>)
    requires Separate(rs)
    modifies set q | q in rs :: q.res, set q | q in rs :: q.rbuf
    ensures RoundFits(WriteReads, srv, st, WriteReadOps(rs)) ==>
      if AnswersHaveRoom(srv, st, WriteReadOps(rs)) then
        && r == Ok(())
        && forall i :: 0 <= i < |rs| ==>
             AgreeIff(WriteReads, srv, st, me, target, WriteReadOps(rs), i, old(rs[i].rbuf[..]), rs[i].Data())
      else r == Err(Panic)
  {
    hide RoundFits, AgreeIff, AnsweredWith, BatchFrames, Expected, ServerExchange, SubReplies, BatchReply, Total, Poured, Overlay;
    hide AnswerTo, Bytes.Unle, Packed, RoomForAll, AllInPlace, ResultsReceived, LengthsFitBuffers, AnswersHaveRoom;
    ghost var ops, before := WriteReadOps(rs), Buffers(rs);
    ghost var replies := if RoundFits(WriteReads, srv, st, ops) then SubReplies(WriteReads, srv, st, ops) else [];
    if RoundFits(WriteReads, srv, st, ops) {
      BatchAnswered(WriteReads, srv, st, me, target, ops);
      AnswersPacked(srv, st, rs);
    }
    NonePacked();
    var socket := new Socket(ServerExchange(srv, st));
    r := WriteReadMulti(me, target, rs, socket, Total(WriteReads, replies), replies);
    if RoundFits(WriteReads, srv, st, ops) && AnswersHaveRoom(srv, st, ops) {
      forall i | 0 <= i < |rs|
        ensures AgreeIff(WriteReads, srv, st, me, target, ops, i, before[i], rs[i].Data())
      {
        RoomAt(srv, st, ops, i);
        SubReplyAgrees(WriteReads, srv, st, me, target, ops, i, before[i]);
      }
    }
  }

  /** No answer to a write/read holds more data than there is room for. */
  ghost predicate AnswersHaveRoom<S>(srv: Server<S>, st: S, ops: seq<Op>) {
    forall i :: 0 <= i < |ops| ==> |AnswerTo(WriteReads, srv, st, ops, i).1| - 8 <= ops[i].rlen
  }

  lemma {:induction false} RoomAt<S>(srv: Server<S>, st: S, ops: seq<Op>, i: nat)
    requires AnswersHaveRoom(srv, st, ops) && i < |ops|
    ensures |AnswerTo(WriteReads, srv, st, ops, i).1| - 8 <= ops[i].rlen
  {
  }

  lemma {:induction false} NonePacked()
    ensures Packed([])
  {
  }

  lemma {:induction false} AnswersPacked<S>(srv: Server<S>, st: S, rs: seq<WriteReadRequest>)
    requires RoundFits(WriteReads, srv, st, WriteReadOps(rs))
    ensures var replies := SubReplies(WriteReads, srv, st, WriteReadOps(rs));
      Packed(replies) && (RoomForAll(rs, replies) <==> AnswersHaveRoom(srv, st, WriteReadOps(rs)))
  {
    hide Bytes.Le, Bytes.Unle, Batch, ReadWrite, AnswerTo, Header, Fits;
    var ops := WriteReadOps(rs);
    forall i | 0 <= i < |rs|
      ensures var s, d := SubReplies(WriteReads, srv, st, ops)[i], AnswerTo(WriteReads, srv, st, ops, i).1;
        s.length == |s.data| == if |d| > 8 then |d| - 8 else 0
    {
      assert FitsFrame(AnswerTo(WriteReads, srv, st, ops, i).1);
    }
  }
}
