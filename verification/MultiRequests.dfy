/**
 Sum-up calls (src/client.rs, `read_multi`, `write_multi`, `write_read_multi`) from the request
 structures to what each request hands back, for replies of any length.
 */
module MultiRequests {
  import opened Bytes
  import opened Ams
  import opened Exchange
  import opened SumUp
  import opened ReplyBuffers

  // ----- replies to batches

  /** What a server answers to one sub-request: result code, length field, and the bytes it puts in
      the data area. */
  datatype SubReply = SubReply(code: u32, length: u32, data: seq<byte>)

  function ResultHeader(kind: Kind, s: SubReply): (h: seq<byte>)
    ensures |h| == kind.ResultSize()
  {
    if kind.Writes? then Le(s.code, 4) else Le(s.code, 4) + Le(s.length, 4)
  }

  function ResultHeaders(kind: Kind, replies: seq<SubReply>): (hs: seq<seq<byte>>)
    ensures |hs| == |replies| && forall i :: 0 <= i < |replies| ==> hs[i] == ResultHeader(kind, replies[i])
  {
    seq(|replies|, i requires 0 <= i < |replies| => ResultHeader(kind, replies[i]))
  }

  function Datas(replies: seq<SubReply>): (ds: seq<seq<byte>>)
    ensures |ds| == |replies| && forall i :: 0 <= i < |replies| ==> ds[i] == replies[i].data
  {
    seq(|replies|, i requires 0 <= i < |replies| => replies[i].data)
  }

  /** The reply to a batch: result, total length, one header per sub-request, then the data of all
      sub-requests packed without gaps. */
  function ReplyPayload(kind: Kind, total: u32, replies: seq<SubReply>): seq<byte> {
    Le(0, 4) + (Le(total, 4) + (Flatten(ResultHeaders(kind, replies)) + Flatten(Datas(replies))))
  }

  /** What a request of the batch should report for its own sub-reply: its error, or the announced
      part of its data. */
  function Expected(s: SubReply): Result<seq<byte>> {
    if s.code != 0 then Err(Ads(s.code))
    else if s.length > |s.data| then Err(Panic)
    else Ok(s.data[..s.length])
  }

  // ----- pouring a batch reply into result headers and read buffers

  /** The size of a result header: a result code, or a code and a length or handle. */
  type CodeSize = n: nat | n == 4 || n == 8 witness 4

  /** Where result header `i` starts. */
  function ResultAt(size: CodeSize, i: nat): nat {
    if size == 4 then 4 * i else 8 * i
  }

  lemma {:induction false} ResultOffset(lens: seq<nat>, size: CodeSize, i: nat)
    requires i <= |lens| && forall k :: 0 <= k < |lens| ==> lens[k] == size
    ensures Offset(lens, i) == ResultAt(size, i)
  {
    if i > 0 {
      ResultOffset(lens, size, i - 1);
    }
  }

  /** A reply of any length, poured into result headers of one size and read buffers behind them: the
      `i`-th header takes what lies `i` header sizes into the reply, and pouring goes on in the read
      buffers behind all headers. */
  lemma {:induction false} PouredResults(size: CodeSize, res: seq<seq<byte>>, rbufs: seq<seq<byte>>, data: seq<byte>)
    requires forall i :: 0 <= i < |res| ==> |res[i]| == size
    ensures Poured(res + rbufs, data) == Poured(res, data) + Poured(rbufs, Tail(data, ResultAt(size, |res|)))
    ensures forall i :: 0 <= i < |res| ==> Poured(res, data)[i] == Overlay(res[i], Tail(data, ResultAt(size, i)))
  {
    hide Poured, Overlay, ResultAt;
    FlattenLength(res);
    ResultOffset(Lens(res), size, |res|);
    PouredSplit(res, rbufs, data);
    assert data[Min(ResultAt(size, |res|), |data|)..] == Tail(data, ResultAt(size, |res|));
    forall i | 0 <= i < |res|
      ensures Poured(res, data)[i] == Overlay(res[i], Tail(data, ResultAt(size, i)))
    {
      PouredAt(res, data, i);
      ResultOffset(Lens(res), size, i);
    }
  }

  // ----- whose word a reported success is

  /** The reply holds a result code at this offset, and it is zero. */
  predicate Confirmed(data: seq<byte>, at: nat) {
    |data| >= at + 4 && U32(data[at..at + 4]) == 0
  }

  /** The reply ends before the result code at this offset does, and what there is of it is zero. */
  predicate Unanswered(data: seq<byte>, at: nat) {
    |data| < at + 4 && forall x :: at <= x < |data| ==> data[x] == 0
  }

  predicate Zero(s: seq<byte>) {
    forall x :: 0 <= x < |s| ==> s[x] == 0
  }

  lemma {:induction false} ZeroIff(s: seq<byte>)
    requires |s| == 4
    ensures U32(s) == 0 <==> Zero(s)
  {
    LeUnle(s);
    assert Le(0, 4) == [0, 0, 0, 0];
    if Zero(s) {
      assert s == Le(0, 4);
      U32Field(0);
    }
  }

  /** A request made for this call, whose result is still zero, reports success iff the server sent the
      code zero for it, or the reply ended before its code. */
  lemma {:induction false} SuccessIff(res: seq<byte>, data: seq<byte>, at: nat)
    requires |res| >= 4 && Zero(res[..4])
    ensures U32(Overlay(res, Tail(data, at))[..4]) == 0 <==> Confirmed(data, at) || Unanswered(data, at)
    ensures !(Confirmed(data, at) && Unanswered(data, at))
  {
    hide Bytes.Le, Bytes.Unle;
    var now := Overlay(res, Tail(data, at))[..4];
    ZeroIff(now);
    forall x | 0 <= x < 4
      ensures now[x] == if at + x < |data| then data[at + x] else 0
    {
      assert res[x] == res[..4][x];
    }
    if |data| >= at + 4 {
      assert now == data[at..at + 4];
    } else {
      assert forall x :: at <= x < |data| ==> data[x] == now[x - at];
    }
  }

  /** A success of request `i`, with result headers of this size, is the server's word. */
  predicate ServersWord(data: seq<byte>, size: CodeSize, i: nat) {
    !Unanswered(data, ResultAt(size, i))
  }

  /** That holds for all `n` requests of a call exactly when the reply reaches the end of the last result
      code, or breaks off inside it behind a byte that is not zero. */
  lemma {:induction false} AllAnsweredIff(data: seq<byte>, size: CodeSize, n: nat)
    requires n > 0
    ensures (forall i :: 0 <= i < n ==> ServersWord(data, size, i)) <==>
      || |data| >= ResultAt(size, n - 1) + 4
      || exists x :: ResultAt(size, n - 1) <= x < |data| && data[x] != 0
  {
    var last := n - 1;
    if ServersWord(data, size, last) {
      forall i | 0 <= i < n
        ensures ServersWord(data, size, i)
      {
      }
    }
  }

  lemma {:induction false} ReplyDelivered(kind: Kind, total: u32, replies: seq<SubReply>)
    ensures var p := ReplyPayload(kind, total, replies);
      && |p| >= 8 && Le(0, 4) <= p
      && p[4..][4..] == Flatten(ResultHeaders(kind, replies)) + Flatten(Datas(replies))
  {
    var x := Flatten(ResultHeaders(kind, replies)) + Flatten(Datas(replies));
    TakeBack(Le(0, 4), Le(total, 4) + x);
    TakeBack(Le(total, 4), x);
  }

  /** The announced read length is the size of the reply, behind its result and length fields, if every
      sub-reply fills its buffer. */
  lemma {:induction false} ReadLengthIs(kind: Kind, ops: seq<Op>, replies: seq<SubReply>)
    requires |replies| == |ops| && forall i :: 0 <= i < |ops| ==> |replies[i].data| == kind.ReadRoom(ops[i])
    ensures ReadLength(kind, ops) == |Flatten(ResultHeaders(kind, replies)) + Flatten(Datas(replies))|
    decreases |ops|
  {
    hide ResultHeader;
    if ops != [] {
      var n := |ops| - 1;
      ReadLengthIs(kind, ops[..n], replies[..n]);
      var hs, ds := ResultHeaders(kind, replies), Datas(replies);
      assert hs[..n] == ResultHeaders(kind, replies[..n]) && ds[..n] == Datas(replies[..n]);
      FlattenSnoc(hs, n);
      FlattenSnoc(ds, n);
      assert hs[..n + 1] == hs && ds[..n + 1] == ds;
    }
  }

  lemma {:induction false} ReplySizeAnnounced(kind: Kind, ops: seq<Op>, total: u32, replies: seq<SubReply>)
    requires Fits(kind, ops) && |replies| == |ops|
    requires forall i :: 0 <= i < |ops| ==> |replies[i].data| == kind.ReadRoom(ops[i])
    ensures |Batch(kind, ops)| >= 16 && U32(Batch(kind, ops)[8..12]) == |ReplyPayload(kind, total, replies)| - 8
  {
    hide Bytes.Le, Bytes.Unle, ReadLength, WriteLength, Bytes.Flatten;
    ReadLengthIs(kind, ops, replies);
    BatchHeaderDecodes(kind, ops);
    assert Batch(kind, ops)[8..12] == BatchHeader(kind, ops)[8..12];
  }

  // ----- the common part of all sum-up calls

  /** The payload of a sum-up request: header, all sub-request headers, all data. */
  function SumUpPayload(group: u32, rlen: nat, wlen: nat, hs: seq<seq<byte>>, bs: seq<seq<byte>>): seq<byte> {
    SumUpHeader(group, |hs|, rlen, wlen) + (Flatten(hs) + Flatten(bs))
  }

  /** What a sum-up call receives behind the length field of the reply.  The two sums are converted to
      32 bits with a check. */
  function SumUpReply(group: u32, rlen: nat, wlen: nat, hs: seq<seq<byte>>, bs: seq<seq<byte>>, me: Sender,
                      target: AmsAddr, exchange: seq<byte> -> Answer): Result<seq<byte>>
  {
    if rlen >= U32_LIMIT || wlen >= U32_LIMIT then Err(Overflow)
    else
      var got :- Received(me, CMD_READ_WRITE, target, SumUpPayload(group, rlen, wlen, hs, bs), Some(4), exchange);
      Ok(got[4..])
  }

  /** The frame of a sum-up call; none if a sum overflows. */
  function SumUpFrames(group: u32, rlen: nat, wlen: nat, hs: seq<seq<byte>>, bs: seq<seq<byte>>, me: Sender,
                       target: AmsAddr): seq<seq<byte>>
  {
    if rlen >= U32_LIMIT || wlen >= U32_LIMIT then []
    else Frames(me, CMD_READ_WRITE, target, SumUpPayload(group, rlen, wlen, hs, bs))
  }

  lemma {:induction false} PouredTail(first: seq<byte>, rest: seq<seq<byte>>, data: seq<byte>)
    requires |first| <= |data|
    ensures Poured([first] + rest, data)[1..] == Poured(rest, data[|first|..])
  {
    assert ([first] + rest)[1..] == rest;
  }

  lemma {:induction false} ContentsCons(first: array<byte>, rest: seq<array<byte>>)
    ensures Contents([first] + rest) == [first[..]] + Contents(rest)
  {
  }

  lemma {:induction false} PouredHead(first: seq<byte>, rest: seq<seq<byte>>, data: seq<byte>)
    requires |first| <= |data|
    ensures Poured([first] + rest, data)[0] == data[..|first|]
  {
  }

  /** An exchange whose first result buffer takes the length field of the reply. */
  method CommunicateWithLength(me: Sender, cmd: u16, target: AmsAddr, payload: seq<seq<byte>>, readLen: array<byte>,
                               results: seq<array<byte>>, socket: Socket)
    returns (r: Result<nat>)
    requires Apart([readLen] + results) && readLen.Length == 4
    modifies readLen, results, socket
    ensures socket.sent == old(socket.sent) + Frames(me, cmd, target, Flatten(payload))
    ensures var got := Received(me, cmd, target, Flatten(payload), Some(4), socket.answer);
      && (got.Err? ==> r == Err(got.error) && Contents(results) == old(Contents(results)))
      && (got.Ok? ==> r == Ok(|got.value|) && readLen[..] == got.value[..4])
      && (got.Ok? ==> Contents(results) == Poured(old(Contents(results)), got.value[4..]))
  {
    hide Received, Poured, Bytes.Flatten, Frames;
    var all := [readLen] + results;
    ghost var got := Received(me, cmd, target, Flatten(payload), FirstLength(all), socket.answer);
    ContentsCons(readLen, results);
    if got.Ok? {
      PouredTail(readLen[..], Contents(results), got.value);
      PouredHead(readLen[..], Contents(results), got.value);
    }
    r := Communicate(me, cmd, target, payload, all, socket);
    ContentsCons(readLen, results);
  }

  lemma {:induction false} SumUpBuffers(header: seq<byte>, hs: seq<seq<byte>>, bs: seq<seq<byte>>)
    ensures Flatten([header] + (hs + bs)) == header + (Flatten(hs) + Flatten(bs))
  {
    FlattenAppend(hs, bs);
    FlattenCons([header] + (hs + bs));
    assert ([header] + (hs + bs))[1..] == hs + bs;
  }

  /** Send one sum-up request and receive result headers and data into `results`.  Nothing is sent if a
      sum overflows, and a failed exchange changes nothing; on success the reply behind its length
      field has been poured into `results`. */
  method SendSumUp(group: u32, rlen: nat, wlen: nat, hs: seq<seq<byte>>, bs: seq<seq<byte>>, me: Sender,
                   target: AmsAddr, results: seq<array<byte>>, socket: Socket)
    returns (r: Result<()>)
    requires Apart(results)
    modifies results, socket
    ensures socket.sent == old(socket.sent) + SumUpFrames(group, rlen, wlen, hs, bs, me, target)
    ensures var got := SumUpReply(group, rlen, wlen, hs, bs, me, target, socket.answer);
      && (got.Err? ==> r == Err(got.error) && Contents(results) == old(Contents(results)))
      && (got.Ok? ==> r == Ok(()) && Contents(results) == Poured(old(Contents(results)), got.value))
  {
    hide Bytes.Le, Received, Poured, SumUpHeader, Bytes.Flatten, Frames;
    if rlen >= U32_LIMIT || wlen >= U32_LIMIT {
      return Err(Overflow);
    }
    var header := SumUpHeader(group, |hs|, rlen, wlen);
    SumUpBuffers(header, hs, bs);
    var readLen := new byte[4](_ => 0);
    var got := CommunicateWithLength(me, CMD_READ_WRITE, target, [header] + (hs + bs), readLen, results, socket);
    if got.Err? {
      return Err(got.error);
    }
    r := Ok(());
  }

  /** A partner that answers every frame alike. */
  function Answering(h: AdsHeader, payload: seq<byte>): seq<byte> -> Answer {
    (_: seq<byte>) => Answered(h, payload)
  }

  /** Only the length field of the reply has to be there: an answer that ends behind it is accepted by
      every sum-up call, whatever the number of sub-requests, and delivers nothing; then all of them are
      unanswered. */
  lemma {:induction false} ShortReplyAccepted(group: u32, rlen: nat, wlen: nat, hs: seq<seq<byte>>, bs: seq<seq<byte>>,
                                              me: Sender, target: AmsAddr, h: AdsHeader, len: u32, at: nat)
    requires rlen < U32_LIMIT && wlen < U32_LIMIT
    requires AMS_HEADER_SIZE + |SumUpPayload(group, rlen, wlen, hs, bs)| < U32_LIMIT
    requires h.src == target && h.command == CMD_READ_WRITE && h.stateFlags == 5 && h.invokeId == me.id && h.errorCode == 0
    ensures SumUpReply(group, rlen, wlen, hs, bs, me, target, Answering(h, Le(0, 4) + Le(len, 4))) == Ok([])
    ensures Unanswered([], at)
  {
    hide Bytes.Le, Bytes.Unle, SumUpPayload, Ams.CheckReply, Ams.EncodeHeader;
    var payload := Le(0, 4) + Le(len, 4);
    AcceptedReply(target, CMD_READ_WRITE, me.id, h, payload);
    assert payload[4..][4..] == [];
  }

  // ----- reads, writes and write/reads

  /** The sums of all reply and request sizes. */
  method BatchLengths(kind: Kind, ops: seq<Op>) returns (rlen: nat, wlen: nat)
    ensures rlen == ReadLength(kind, ops) && wlen == WriteLength(kind, ops)
  {
    rlen, wlen := 0, 0;
    for i := 0 to |ops|
      invariant rlen == ReadLength(kind, ops[..i]) && wlen == WriteLength(kind, ops[..i])
    {
      assert ops[..i + 1][..i] == ops[..i];
      rlen := rlen + kind.ResultSize() + kind.ReadRoom(ops[i]);
      wlen := wlen + kind.HeaderSize() + |Body(kind, ops[i])|;
    }
    assert ops[..|ops|] == ops;
  }

  /** What a batch receives behind the length field of the reply. */
  function BatchReply(kind: Kind, me: Sender, target: AmsAddr, ops: seq<Op>, exchange: seq<byte> -> Answer):
    Result<seq<byte>>
  {
    if !Fits(kind, ops) then Err(Overflow)
    else
      var got :- Received(me, CMD_READ_WRITE, target, Batch(kind, ops), Some(4), exchange);
      Ok(got[4..])
  }

  /** The frame of a batch; none if a sum overflows. */
  function BatchFrames(kind: Kind, me: Sender, target: AmsAddr, ops: seq<Op>): seq<seq<byte>> {
    if Fits(kind, ops) then Frames(me, CMD_READ_WRITE, target, Batch(kind, ops)) else []
  }

  /** Send one batch; a reply of any length is poured into `results`. */
  method SendBatch(kind: Kind, me: Sender, target: AmsAddr, ops: seq<Op>, results: seq<array<byte>>,
                   socket: Socket) returns (r: Result<()>)
    requires Apart(results)
    modifies results, socket
    ensures socket.sent == old(socket.sent) + BatchFrames(kind, me, target, ops)
    ensures var got := BatchReply(kind, me, target, ops, socket.answer);
      && (got.Err? ==> r == Err(got.error) && Contents(results) == old(Contents(results)))
      && (got.Ok? ==> r == Ok(()) && Contents(results) == Poured(old(Contents(results)), got.value))
  {
    hide Bytes.Le, Received, Poured, SumUpHeader, Bytes.Flatten, ReadLength, WriteLength, Frames;
    var rlen, wlen := BatchLengths(kind, ops);
    r := SendSumUp(kind.Group(), rlen, wlen, Headers(kind, ops), Bodies(kind, ops), me, target, results, socket);
  }

  /** The condition under which an exchange is answered with these sub-replies. */
  ghost predicate AnsweredWith(kind: Kind, me: Sender, target: AmsAddr, ops: seq<Op>, exchange: seq<byte> -> Answer,
                               total: u32, replies: seq<SubReply>)
  {
    var frame := RequestFrame(me.source, target, CMD_READ_WRITE, me.id, Batch(kind, ops));
    && Fits(kind, ops) && |replies| == |ops|
    && frame.Ok? && exchange(frame.value).Answered?
    && exchange(frame.value).payload == ReplyPayload(kind, total, replies)
    && CheckReply(target, CMD_READ_WRITE, me.id, exchange(frame.value).header, ReplyPayload(kind, total, replies)).Ok?
  }

  lemma {:induction false} AnswerReceived(kind: Kind, me: Sender, target: AmsAddr, ops: seq<Op>,
      exchange: seq<byte> -> Answer, total: u32, replies: seq<SubReply>)
    requires AnsweredWith(kind, me, target, ops, exchange, total, replies)
    ensures BatchReply(kind, me, target, ops, exchange)
         == Ok(Flatten(ResultHeaders(kind, replies)) + Flatten(Datas(replies)))
  {
    hide Bytes.Le, Bytes.Unle, Bytes.Flatten, Ams.CheckReply, Ams.RequestFrame, Batch, Fits;
    ReplyDelivered(kind, total, replies);
  }

  lemma {:induction false} ContentsAppend(a: seq<array<byte>>, b: seq<array<byte>>)
    ensures Contents(a + b) == Contents(a) + Contents(b)
  {
  }

  /** The two halves of the poured contents of result headers and read buffers. */
  lemma {:induction false} ReceivedParts(size: CodeSize, a: seq<array<byte>>, b: seq<array<byte>>, res: seq<seq<byte>>,
                                         rbufs: seq<seq<byte>>, data: seq<byte>)
    requires |res| == |a| && |rbufs| == |b| && forall i :: 0 <= i < |res| ==> |res[i]| == size
    requires Contents(a + b) == Poured(res + rbufs, data)
    ensures Contents(a) == Poured(res, data)
    ensures Contents(b) == Poured(rbufs, Tail(data, ResultAt(size, |res|)))
    ensures forall i :: 0 <= i < |a| ==> a[i][..] == Overlay(res[i], Tail(data, ResultAt(size, i)))
  {
    hide Poured, Overlay, Tail, ResultAt;
    ContentsAppend(a, b);
    PouredResults(size, res, rbufs, data);
    SameParts(Contents(a), Contents(b), Poured(res, data), Poured(rbufs, Tail(data, ResultAt(size, |res|))));
  }

  lemma {:induction false} SameParts(a: seq<seq<byte>>, b: seq<seq<byte>>, c: seq<seq<byte>>, d: seq<seq<byte>>)
    requires a + b == c + d && |a| == |c|
    ensures a == c && b == d
  {
    assert a == (a + b)[..|a|] && b == (a + b)[|a|..];
    assert c == (c + d)[..|c|] && d == (c + d)[|c|..];
  }

  lemma {:induction false} ResultHeaderFields(kind: Kind, s: SubReply)
    requires !kind.Writes?
    ensures var h := ResultHeader(kind, s);
      |h| == 8 && U32(h[..4]) == s.code && U32(h[4..]) == s.length
  {
    hide Bytes.Le, Bytes.Unle;
    U32Field(s.code); U32Field(s.length);
    TakeBack(Le(s.code, 4), Le(s.length, 4));
  }

  lemma {:induction false} HeadersPoured(kind: Kind, res: seq<seq<byte>>, replies: seq<SubReply>)
    requires |res| == |replies| && forall i :: 0 <= i < |res| ==> |res[i]| == kind.ResultSize()
    ensures var data := Flatten(ResultHeaders(kind, replies)) + Flatten(Datas(replies));
      && Poured(res, data) == ResultHeaders(kind, replies)
      && Tail(data, ResultAt(kind.ResultSize(), |res|)) == Flatten(Datas(replies))
  {
    hide Poured, ResultHeader, ResultAt;
    var hs, ds := ResultHeaders(kind, replies), Flatten(Datas(replies));
    assert Lens(res) == Lens(hs);
    PouredExact(res, hs, ds);
    FlattenLength(hs);
    ResultOffset(Lens(hs), kind.ResultSize(), |hs|);
    TakeBack(Flatten(hs), ds);
  }

  // ----- write_read_multi

  function WriteReadOps(rs: seq<WriteReadRequest>): (ops: seq<Op>)
    ensures |ops| == |rs|
    ensures forall i :: 0 <= i < |rs| ==> ops[i] == Op(rs[i].group, rs[i].offset, rs[i].rbuf.Length, rs[i].wbuf)
  {
    seq(|rs|, i requires 0 <= i < |rs| => Op(rs[i].group, rs[i].offset, rs[i].rbuf.Length, rs[i].wbuf))
  }

  function ResArrays(rs: seq<WriteReadRequest>): (bs: seq<array<byte>>)
    ensures |bs| == |rs| && forall i :: 0 <= i < |rs| ==> bs[i] == rs[i].res
  {
    seq(|rs|, i requires 0 <= i < |rs| => rs[i].res)
  }

  function ReadArrays(rs: seq<WriteReadRequest>): (bs: seq<array<byte>>)
    ensures |bs| == |rs| && forall i :: 0 <= i < |rs| ==> bs[i] == rs[i].rbuf
  {
    seq(|rs|, i requires 0 <= i < |rs| => rs[i].rbuf)
  }

  lemma {:induction false} SeparateApart(rs: seq<WriteReadRequest>)
    requires Separate(rs)
    ensures Apart(ResArrays(rs) + ReadArrays(rs))
  {
  }

  /** The exchange, for any reply: result headers as far as they were sent, and behind them the data
      packed at the front of the read buffers laid end to end. */
  method ReceivePacked(me: Sender, target: AmsAddr, rs: seq<WriteReadRequest>, socket: Socket)
    returns (r: Result<()>)
    requires Separate(rs)
    modifies set q | q in rs :: q.res, set q | q in rs :: q.rbuf, socket
    ensures socket.sent == old(socket.sent) + BatchFrames(WriteReads, me, target, WriteReadOps(rs))
    ensures var got := BatchReply(WriteReads, me, target, WriteReadOps(rs), socket.answer);
      && (got.Err? ==> r == Err(got.error) && Contents(ResArrays(rs)) == old(Contents(ResArrays(rs))))
      && (got.Err? ==> Buffers(rs) == old(Buffers(rs)))
      && (got.Ok? ==> r == Ok(()) && Contents(ResArrays(rs)) == Poured(old(Contents(ResArrays(rs))), got.value))
      && (got.Ok? ==> ResultsReceived(rs, old(Contents(ResArrays(rs))), got.value))
      && (got.Ok? ==> Flatten(Buffers(rs)) == Overlay(old(Flatten(Buffers(rs))), Tail(got.value, 8 * |rs|)))
  {
    hide BatchReply, BatchFrames, Poured, Overlay, Tail;
    ghost var res, rbufs := Contents(ResArrays(rs)), Contents(ReadArrays(rs));
    ContentsAppend(ResArrays(rs), ReadArrays(rs));
    assert Buffers(rs) == rbufs;
    SeparateApart(rs);
    r := SendBatch(WriteReads, me, target, WriteReadOps(rs), ResArrays(rs) + ReadArrays(rs), socket);
    ghost var got := BatchReply(WriteReads, me, target, WriteReadOps(rs), socket.answer);
    assert Buffers(rs) == Contents(ReadArrays(rs));
    if got.Ok? {
      ReceivedParts(8, ResArrays(rs), ReadArrays(rs), res, rbufs, got.value);
      PouredFlat(rbufs, Tail(got.value, 8 * |rs|));
    } else {
      ContentsAppend(ResArrays(rs), ReadArrays(rs));
      SameParts(Contents(ResArrays(rs)), Contents(ReadArrays(rs)), res, rbufs);
    }
  }

  /** The sub-replies a server packs: every length field is true. */
  ghost predicate Packed(replies: seq<SubReply>) {
    forall s :: s in replies ==> s.length == |s.data|
  }

  ghost predicate RoomForAll(rs: seq<WriteReadRequest>, replies: seq<SubReply>) {
    && |rs| == |replies|
    && forall i :: 0 <= i < |rs| ==> |replies[i].data| <= rs[i].rbuf.Length
  }

  /** The result headers of these sub-replies have been received. */
  ghost predicate HeadersReceived(rs: seq<WriteReadRequest>, replies: seq<SubReply>)
    reads set r | r in rs :: r.res
  {
    && |rs| == |replies|
    && forall i :: 0 <= i < |rs| ==> rs[i].res[..] == ResultHeader(WriteReads, replies[i])
  }

  lemma {:induction false} HeaderValues(rs: seq<WriteReadRequest>, replies: seq<SubReply>, i: nat)
    requires Separate(rs) && HeadersReceived(rs, replies) && i < |rs|
    ensures rs[i].ResultCode() == replies[i].code && rs[i].ActualLength() == replies[i].length
  {
    hide Bytes.Le, Bytes.Unle, ResultHeader;
    ResultHeaderFields(WriteReads, replies[i]);
    assert rs[i].res[..4] == rs[i].res[..][..4] && rs[i].res[4..] == rs[i].res[..][4..];
  }

  /** A request whose stretch of the received bytes is in place reports its own sub-reply. */
  lemma {:induction false} DataIsOwn(rs: seq<WriteReadRequest>, replies: seq<SubReply>, received: seq<byte>, i: nat)
    requires Separate(rs) && HeadersReceived(rs, replies) && i < |rs| && Packed(replies)
    requires Flatten(Datas(replies)) <= received
    requires InPlace(rs[i].rbuf, received, Offset(ActualLens(rs), i), 0, ActualLens(rs)[i])
    ensures rs[i].Data() == Expected(replies[i])
  {
    hide Bytes.Le, Bytes.Unle, ResultHeader, Bytes.Flatten;
    var ds := Datas(replies);
    forall k | 0 <= k < |rs|
      ensures ActualLens(rs)[k] == |ds[k]|
    {
      HeaderValues(rs, replies, k);
      assert replies[k] in replies;
    }
    assert ActualLens(rs) == Lens(ds);
    HeaderValues(rs, replies, i);
    FlattenSlice(ds, i);
    var o := Offset(Lens(ds), i);
    assert received[o..o + |ds[i]|] == Flatten(ds)[o..o + |ds[i]|];
    assert rs[i].rbuf[..|ds[i]|] == received[o..o + |ds[i]|];
    assert ds[i][..|ds[i]|] == ds[i];
  }

  lemma {:induction false} OverlayPrefix(rs: seq<WriteReadRequest>, replies: seq<SubReply>, rbufs: seq<seq<byte>>)
    requires RoomForAll(rs, replies) && |rbufs| == |rs|
    requires forall i :: 0 <= i < |rs| ==> |rbufs[i]| == rs[i].rbuf.Length
    ensures Flatten(Datas(replies)) <= Overlay(Flatten(rbufs), Flatten(Datas(replies)))
  {
    FlattenLength(rbufs);
    FlattenLength(Datas(replies));
    ActualBelowInitial(Lens(rbufs), Lens(Datas(replies)), |rs|);
  }

  /** What the requests hold after a reply made of these sub-replies was poured into them. */
  lemma {:induction false} ReplyReceived(rs: seq<WriteReadRequest>, replies: seq<SubReply>, res: seq<seq<byte>>,
                                         rbufs: seq<seq<byte>>)
    requires Separate(rs) && |res| == |rbufs| == |rs| == |replies|
    requires forall i :: 0 <= i < |rs| ==> |res[i]| == 8 && |rbufs[i]| == rs[i].rbuf.Length
    requires var data := Flatten(ResultHeaders(WriteReads, replies)) + Flatten(Datas(replies));
      && Contents(ResArrays(rs)) == Poured(res, data)
      && Flatten(Buffers(rs)) == Overlay(Flatten(rbufs), Tail(data, 8 * |rs|))
    ensures HeadersReceived(rs, replies)
    ensures RoomForAll(rs, replies) ==> Flatten(Datas(replies)) <= Flatten(Buffers(rs))
  {
    hide Poured, Overlay, Tail, Bytes.Flatten, ResultHeader;
    var hs := ResultHeaders(WriteReads, replies);
    HeadersPoured(WriteReads, res, replies);
    forall i | 0 <= i < |rs|
      ensures rs[i].res[..] == ResultHeader(WriteReads, replies[i])
    {
      assert ResArrays(rs)[i][..] == hs[i];
    }
    if RoomForAll(rs, replies) {
      OverlayPrefix(rs, replies, rbufs);
    }
  }

  /** Every length received fits its buffer. */
  ghost predicate LengthsFitBuffers(rs: seq<WriteReadRequest>)
    requires Separate(rs)
    reads set r | r in rs :: r.res
  {
    forall i :: 0 <= i < |rs| ==> rs[i].ActualLength() <= rs[i].rbuf.Length
  }

  /** Every request holds its own stretch of the received bytes. */
  ghost predicate AllInPlace(rs: seq<WriteReadRequest>, received: seq<byte>)
    requires Separate(rs)
    reads set r | r in rs :: r.res, set r | r in rs :: r.rbuf
  {
    forall i :: 0 <= i < |rs| ==> InPlace(rs[i].rbuf, received, Offset(ActualLens(rs), i), 0, ActualLens(rs)[i])
  }

  /** Every request reports its own sub-reply. */
  ghost predicate Reported(rs: seq<WriteReadRequest>, replies: seq<SubReply>)
    requires Separate(rs)
    reads set r | r in rs :: r.res, set r | r in rs :: r.rbuf
  {
    |rs| == |replies| && forall i :: 0 <= i < |rs| ==> rs[i].Data() == Expected(replies[i])
  }

  /** The result headers hold what was sent of them, over what they held before. */
  ghost predicate ResultsReceived(rs: seq<WriteReadRequest>, before: seq<seq<byte>>, data: seq<byte>)
    reads set r | r in rs :: r.res
  {
    |before| == |rs| && forall i :: 0 <= i < |rs| ==> rs[i].res[..] == Overlay(before[i], Tail(data, 8 * i))
  }

  /** After the repair, requests that received these sub-replies report them. */
  lemma {:induction false} SubRepliesReported(rs: seq<WriteReadRequest>, replies: seq<SubReply>, received: seq<byte>)
    requires Separate(rs) && HeadersReceived(rs, replies) && Packed(replies)
    requires Flatten(Datas(replies)) <= received && AllInPlace(rs, received)
    ensures Reported(rs, replies)
  {
    assert |rs| == |replies|;
    hide HeadersReceived, Packed, InPlace, Expected, Bytes.Flatten, Bytes.Offset, Bytes.Unle, Datas;
    forall i | 0 <= i < |rs|
      ensures rs[i].Data() == Expected(replies[i])
    {
      DataIsOwn(rs, replies, received, i);
    }
  }

  lemma {:induction false} RoomIff(rs: seq<WriteReadRequest>, replies: seq<SubReply>)
    requires Separate(rs) && HeadersReceived(rs, replies) && Packed(replies)
    ensures RoomForAll(rs, replies) <==> LengthsFitBuffers(rs)
  {
    hide Bytes.Le, Bytes.Unle, ResultHeader;
    forall i | 0 <= i < |rs|
      ensures rs[i].ActualLength() == |replies[i].data|
    {
      HeaderValues(rs, replies, i);
      assert replies[i] in replies;
    }
  }

  /** `Device::write_read_multi`, for every outcome of the exchange.  A failed exchange changes nothing.
      After a reply of any length each result header holds what was sent of it; the call panics iff a
      length in these headers exceeds its buffer, and otherwise every request holds its own stretch of
      the received data.  So if the reply is made of packed sub-replies, every request reports exactly
      its own code or its own data. */
  method WriteReadMulti(me: Sender, target: AmsAddr, rs: seq<WriteReadRequest>, socket: Socket,
                        ghost total: u32, ghost replies: seq<SubReply>) returns (r: Result<()>)
    requires Separate(rs) && Packed(replies)
    modifies set q | q in rs :: q.res, set q | q in rs :: q.rbuf, socket
    ensures socket.sent == old(socket.sent) + BatchFrames(WriteReads, me, target, WriteReadOps(rs))
    ensures var got := BatchReply(WriteReads, me, target, WriteReadOps(rs), socket.answer);
      && (got.Err? ==> r == Err(got.error) && Contents(ResArrays(rs)) == old(Contents(ResArrays(rs))))
      && (got.Err? ==> Buffers(rs) == old(Buffers(rs)))
      && (got.Ok? ==> ResultsReceived(rs, old(Contents(ResArrays(rs))), got.value))
      && (got.Ok? ==> r == if LengthsFitBuffers(rs) then Ok(()) else Err(Panic))
      && (got.Ok? && r.Ok? ==> AllInPlace(rs, Overlay(old(Flatten(Buffers(rs))), Tail(got.value, 8 * |rs|))))
    ensures AnsweredWith(WriteReads, me, target, WriteReadOps(rs), socket.answer, total, replies) ==>
      r == (if RoomForAll(rs, replies) then Ok(()) else Err(Panic)) && (r.Ok? ==> Reported(rs, replies))
  {
    hide BatchReply, BatchFrames, AnsweredWith, Packed, RoomForAll, HeadersReceived, Expected, Reported, AllInPlace;
    hide ResultsReceived, LengthsFitBuffers, Poured, Overlay, Tail, InPlace, Bytes.Flatten, Bytes.Unle;
    ghost var res, rbufs := Contents(ResArrays(rs)), Buffers(rs);
    r := ReceivePacked(me, target, rs, socket);
    ghost var received := Flatten(Buffers(rs));
    ghost var answered := AnsweredWith(WriteReads, me, target, WriteReadOps(rs), socket.answer, total, replies);
    if answered {
      AnswerReceived(WriteReads, me, target, WriteReadOps(rs), socket.answer, total, replies);
      AnswerCount(WriteReads, me, target, WriteReadOps(rs), socket.answer, total, replies);
      ReplyReceived(rs, replies, res, rbufs);
      RoomIff(rs, replies);
    }
    if r.Ok? {
      var ok := Repair(rs);
      if answered && ok {
        SubRepliesReported(rs, replies, received);
      }
      if !ok {
        r := Err(Panic);
      }
    }
  }

  /** The repair, in the words of this module. */
  method Repair(rs: seq<WriteReadRequest>) returns (ok: bool)
    requires Separate(rs)
    modifies set r | r in rs :: r.rbuf
    ensures ok <==> LengthsFitBuffers(rs)
    ensures ok ==> AllInPlace(rs, old(Flatten(Buffers(rs))))
  {
    hide InPlace, Bytes.Flatten, Bytes.Unle, Bytes.Offset;
    ok := Fixup(rs);
  }

  lemma {:induction false} AnswerCount(kind: Kind, me: Sender, target: AmsAddr, ops: seq<Op>,
      exchange: seq<byte> -> Answer, total: u32, replies: seq<SubReply>)
    requires AnsweredWith(kind, me, target, ops, exchange, total, replies)
    ensures |replies| == |ops| && Fits(kind, ops)
  {
  }

  // ----- read_multi

  /** One entry of a `read_multi` call. */
  class ReadRequest {
    const group: u32
    const offset: u32
    const res: array<byte>
    const rbuf: array<byte>

    constructor (group: u32, offset: u32, rbuf: array<byte>)
      ensures this.group == group && this.offset == offset && this.rbuf == rbuf
      ensures fresh(res) && res.Length == 8 && Zero(res[..])
    {
      this.group, this.offset, this.rbuf := group, offset, rbuf;
      res := new byte[8](_ => 0);
    }

    /** The returned data or the request's own error; slicing past the buffer panics. */
    function Data(): Result<seq<byte>>
      requires res.Length == 8
      reads res, rbuf
    {
      if U32(res[..4]) != 0 then Err(Ads(U32(res[..4])))
      else if U32(res[4..]) > rbuf.Length then Err(Panic)
      else Ok(rbuf[..U32(res[4..])])
    }
  }

  function ReadOps(rs: seq<ReadRequest>): (ops: seq<Op>)
    ensures |ops| == |rs|
    ensures forall i :: 0 <= i < |rs| ==> ops[i] == Op(rs[i].group, rs[i].offset, rs[i].rbuf.Length, [])
  {
    seq(|rs|, i requires 0 <= i < |rs| => Op(rs[i].group, rs[i].offset, rs[i].rbuf.Length, []))
  }

  function ReadResults(rs: seq<ReadRequest>): (bs: seq<array<byte>>)
    ensures |bs| == |rs| && forall i :: 0 <= i < |rs| ==> bs[i] == rs[i].res
  {
    seq(|rs|, i requires 0 <= i < |rs| => rs[i].res)
  }

  function ReadBuffers(rs: seq<ReadRequest>): (bs: seq<array<byte>>)
    ensures |bs| == |rs| && forall i :: 0 <= i < |rs| ==> bs[i] == rs[i].rbuf
  {
    seq(|rs|, i requires 0 <= i < |rs| => rs[i].rbuf)
  }

  lemma {:induction false} ReadData(r: ReadRequest, s: SubReply)
    requires r.res.Length == 8
    requires r.res[..] == ResultHeader(Reads, s) && r.rbuf[..] == s.data
    ensures r.Data() == Expected(s)
  {
    hide Bytes.Le, Bytes.Unle, ResultHeader;
    ResultHeaderFields(Reads, s);
    assert r.res[..4] == r.res[..][..4] && r.res[4..] == r.res[..][4..];
    if s.length <= |s.data| {
      assert r.rbuf[..s.length] == r.rbuf[..][..s.length];
    }
  }

  /** The eight result bytes are the code and then the length. */
  lemma {:induction false} ReadReports(r: ReadRequest, code: u32, length: u32)
    requires r.res.Length == 8 && r.res[..] == Le(code, 4) + Le(length, 4)
    ensures r.Data() == if code != 0 then Err(Ads(code))
                        else if length > r.rbuf.Length then Err(Panic) else Ok(r.rbuf[..length])
  {
    hide Bytes.Le, Bytes.Unle;
    TwoNumbers(code, length);
    assert r.res[..4] == r.res[..][..4] && r.res[4..] == r.res[..][4..];
  }

  lemma {:induction false} WriteReadReports(r: WriteReadRequest, code: u32, length: u32)
    requires r.res.Length == 8 && r.res[..] == Le(code, 4) + Le(length, 4)
    ensures r.ActualLength() == length
    ensures r.Data() == if code != 0 then Err(Ads(code))
                        else if length > r.rbuf.Length then Err(Panic) else Ok(r.rbuf[..length])
  {
    hide Bytes.Le, Bytes.Unle;
    TwoNumbers(code, length);
    assert r.res[..4] == r.res[..][..4] && r.res[4..] == r.res[..][4..];
  }

  lemma {:induction false} TwoNumbers(a: u32, b: u32)
    ensures var s := Le(a, 4) + Le(b, 4);
      U32(s[..4]) == a && U32(s[4..]) == b
  {
    hide Bytes.Le, Bytes.Unle;
    TakeBack(Le(a, 4), Le(b, 4));
    U32Field(a); U32Field(b);
  }

  /** SUMUP_READ_EX fills every sub-reply up to the requested length; the length field may announce
      less. */
  ghost predicate Padded(rs: seq<ReadRequest>, replies: seq<SubReply>) {
    && |rs| == |replies|
    && forall i :: 0 <= i < |rs| ==> |replies[i].data| == rs[i].rbuf.Length
  }

  /** `Device::read_multi`, for every outcome of the exchange: a failed one changes nothing; after a
      reply of any length each result header and each buffer holds what was sent of it.  So if the
      reply is made of padded sub-replies, every request reports its own code, or its own data cut to
      its length field. */
  method ReadMulti(me: Sender, target: AmsAddr, rs: seq<ReadRequest>, socket: Socket,
                   ghost total: u32, ghost replies: seq<SubReply>) returns (r: Result<()>)
    requires Apart(ReadResults(rs) + ReadBuffers(rs))
    requires forall i :: 0 <= i < |rs| ==> rs[i].res.Length == 8
    modifies ReadResults(rs) + ReadBuffers(rs), socket
    ensures socket.sent == old(socket.sent) + BatchFrames(Reads, me, target, ReadOps(rs))
    ensures var got := BatchReply(Reads, me, target, ReadOps(rs), socket.answer);
      && (got.Err? ==> r == Err(got.error) && Contents(ReadResults(rs)) == old(Contents(ReadResults(rs))))
      && (got.Err? ==> Contents(ReadBuffers(rs)) == old(Contents(ReadBuffers(rs))))
      && (got.Ok? ==> r == Ok(()))
      && (got.Ok? ==> forall i :: 0 <= i < |rs| ==> rs[i].res[..] == Overlay(old(rs[i].res[..]), Tail(got.value, 8 * i)))
      && (got.Ok? ==> Contents(ReadBuffers(rs)) == Poured(old(Contents(ReadBuffers(rs))), Tail(got.value, 8 * |rs|)))
    ensures AnsweredWith(Reads, me, target, ReadOps(rs), socket.answer, total, replies) && Padded(rs, replies) ==>
      r == Ok(()) && forall i :: 0 <= i < |rs| ==> rs[i].Data() == Expected(replies[i])
  {
    hide BatchReply, BatchFrames, AnsweredWith, Poured, Overlay, Tail, Bytes.Flatten, Bytes.Unle, Expected;
    ghost var res, rbufs := Contents(ReadResults(rs)), Contents(ReadBuffers(rs));
    ContentsAppend(ReadResults(rs), ReadBuffers(rs));
    r := SendBatch(Reads, me, target, ReadOps(rs), ReadResults(rs) + ReadBuffers(rs), socket);
    ContentsAppend(ReadResults(rs), ReadBuffers(rs));
    if r.Ok? {
      ghost var data := BatchReply(Reads, me, target, ReadOps(rs), socket.answer).value;
      ReceivedParts(8, ReadResults(rs), ReadBuffers(rs), res, rbufs, data);
    } else {
      SameParts(Contents(ReadResults(rs)), Contents(ReadBuffers(rs)), res, rbufs);
    }
    if AnsweredWith(Reads, me, target, ReadOps(rs), socket.answer, total, replies) && Padded(rs, replies) {
      AnswerReceived(Reads, me, target, ReadOps(rs), socket.answer, total, replies);
      PaddedReplies(rs, replies, res, rbufs);
    }
  }

  lemma {:induction false} PaddedReplies(rs: seq<ReadRequest>, replies: seq<SubReply>, res: seq<seq<byte>>,
                                         rbufs: seq<seq<byte>>)
    requires |res| == |rbufs| == |rs| && Padded(rs, replies)
    requires forall i :: 0 <= i < |rs| ==> rs[i].res.Length == |res[i]| == 8
    requires forall i :: 0 <= i < |rs| ==> rs[i].rbuf.Length == |rbufs[i]|
    requires var data := Flatten(ResultHeaders(Reads, replies)) + Flatten(Datas(replies));
      && Contents(ReadResults(rs)) == Poured(res, data)
      && Contents(ReadBuffers(rs)) == Poured(rbufs, Tail(data, 8 * |rs|))
    ensures forall i :: 0 <= i < |rs| ==> rs[i].Data() == Expected(replies[i])
  {
    hide Poured, Tail, Bytes.Flatten, ResultHeader, Expected, Bytes.Unle;
    var hs, ds := ResultHeaders(Reads, replies), Datas(replies);
    HeadersPoured(Reads, res, replies);
    assert Lens(rbufs) == Lens(ds);
    PouredExact(rbufs, ds, []);
    assert Flatten(ds) + [] == Flatten(ds);
    forall i | 0 <= i < |rs|
      ensures rs[i].Data() == Expected(replies[i])
    {
      assert ReadResults(rs)[i][..] == hs[i] && ReadBuffers(rs)[i][..] == ds[i];
      ReadData(rs[i], replies[i]);
    }
  }

  // ----- write_multi

  /** One entry of a `write_multi` call. */
  class WriteRequest {
    const group: u32
    const offset: u32
    const wbuf: seq<byte>
    const res: array<byte>

    constructor (group: u32, offset: u32, wbuf: seq<byte>)
      ensures this.group == group && this.offset == offset && this.wbuf == wbuf
      ensures fresh(res) && res.Length == 4 && Zero(res[..])
    {
      this.group, this.offset, this.wbuf := group, offset, wbuf;
      res := new byte[4](_ => 0);
    }

    function Ensure(): Result<()>
      requires res.Length == 4
      reads res
    {
      if U32(res[..]) != 0 then Err(Ads(U32(res[..]))) else Ok(())
    }
  }

  function WriteOps(rs: seq<WriteRequest>): (ops: seq<Op>)
    ensures |ops| == |rs|
    ensures forall i :: 0 <= i < |rs| ==> ops[i] == Op(rs[i].group, rs[i].offset, 0, rs[i].wbuf)
  {
    seq(|rs|, i requires 0 <= i < |rs| => Op(rs[i].group, rs[i].offset, 0, rs[i].wbuf))
  }

  function WriteResults(rs: seq<WriteRequest>): (bs: seq<array<byte>>)
    ensures |bs| == |rs| && forall i :: 0 <= i < |rs| ==> bs[i] == rs[i].res
  {
    seq(|rs|, i requires 0 <= i < |rs| => rs[i].res)
  }

  /** Result headers that are all a reply consists of. */
  lemma {:induction false} ReceivedResults(size: CodeSize, a: seq<array<byte>>, res: seq<seq<byte>>, data: seq<byte>)
    requires |res| == |a| && forall i :: 0 <= i < |res| ==> |res[i]| == size
    requires Contents(a) == Poured(res, data)
    ensures forall i :: 0 <= i < |a| ==> a[i][..] == Overlay(res[i], Tail(data, ResultAt(size, i)))
  {
    hide Poured, Overlay, Tail, ResultAt;
    PouredResults(size, res, [], data);
  }

  lemma {:induction false} CodeReported(r: WriteRequest, s: SubReply)
    requires r.res.Length == 4 && r.res[..] == ResultHeader(Writes, s)
    ensures r.Ensure() == if s.code != 0 then Err(Ads(s.code)) else Ok(())
  {
    hide Bytes.Le, Bytes.Unle;
    U32Field(s.code);
  }

  lemma {:induction false} WriteSuccess(r: WriteRequest, res: seq<byte>, data: seq<byte>, at: nat)
    requires r.res.Length == 4 == |res| && Zero(res) && r.res[..] == Overlay(res, Tail(data, at))
    ensures r.Ensure().Ok? <==> Confirmed(data, at) || Unanswered(data, at)
  {
    hide Bytes.Le, Bytes.Unle, Overlay, Tail;
    SuccessIff(res, data, at);
    assert Overlay(res, Tail(data, at))[..4] == r.res[..];
  }

  /** `Device::write_multi`, for every outcome of the exchange: a failed one changes nothing; after a
      reply of any length each result holds what was sent of it, so a request made for this call
      reports success iff the server confirmed it or the reply ended before its result.  If the reply
      is made of sub-replies, request `i` reports the `i`-th result code. */
  method WriteMulti(me: Sender, target: AmsAddr, rs: seq<WriteRequest>, socket: Socket,
                    ghost total: u32, ghost replies: seq<SubReply>) returns (r: Result<()>)
    requires Apart(WriteResults(rs))
    requires forall i :: 0 <= i < |rs| ==> rs[i].res.Length == 4
    modifies WriteResults(rs), socket
    ensures socket.sent == old(socket.sent) + BatchFrames(Writes, me, target, WriteOps(rs))
    ensures var got := BatchReply(Writes, me, target, WriteOps(rs), socket.answer);
      && (got.Err? ==> r == Err(got.error) && Contents(WriteResults(rs)) == old(Contents(WriteResults(rs))))
      && (got.Ok? ==> r == Ok(()))
      && (got.Ok? ==> forall i :: 0 <= i < |rs| ==> rs[i].res[..] == Overlay(old(rs[i].res[..]), Tail(got.value, 4 * i)))
      && (got.Ok? ==> forall i :: 0 <= i < |rs| && old(Zero(rs[i].res[..])) ==>
            (rs[i].Ensure().Ok? <==> Confirmed(got.value, 4 * i) || Unanswered(got.value, 4 * i)))
    ensures AnsweredWith(Writes, me, target, WriteOps(rs), socket.answer, total, replies) ==>
      && r == Ok(()) && |replies| == |rs|
      && forall i :: 0 <= i < |rs| ==>
           rs[i].Ensure() == if replies[i].code != 0 then Err(Ads(replies[i].code)) else Ok(())
  {
    hide BatchReply, BatchFrames, AnsweredWith, Poured, Overlay, Tail, Bytes.Flatten, Bytes.Unle, ResultHeader;
    hide Confirmed, Unanswered, Zero;
    ghost var res := Contents(WriteResults(rs));
    r := SendBatch(Writes, me, target, WriteOps(rs), WriteResults(rs), socket);
    if r.Ok? {
      ghost var data := BatchReply(Writes, me, target, WriteOps(rs), socket.answer).value;
      ReceivedResults(4, WriteResults(rs), res, data);
      forall i | 0 <= i < |rs| && Zero(res[i])
        ensures rs[i].Ensure().Ok? <==> Confirmed(data, 4 * i) || Unanswered(data, 4 * i)
      {
        assert WriteResults(rs)[i][..] == Overlay(res[i], Tail(data, 4 * i));
        WriteSuccess(rs[i], res[i], data, 4 * i);
      }
    }
    if AnsweredWith(Writes, me, target, WriteOps(rs), socket.answer, total, replies) {
      AnswerReceived(Writes, me, target, WriteOps(rs), socket.answer, total, replies);
      AnswerCount(Writes, me, target, WriteOps(rs), socket.answer, total, replies);
      HeadersPoured(Writes, res, replies);
      var hs := ResultHeaders(Writes, replies);
      forall i | 0 <= i < |rs|
        ensures rs[i].Ensure() == if replies[i].code != 0 then Err(Ads(replies[i].code)) else Ok(())
      {
        assert WriteResults(rs)[i][..] == hs[i];
        CodeReported(rs[i], replies[i]);
      }
    }
  }
}
