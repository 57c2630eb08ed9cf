/**
 One request/reply exchange as seen by its caller: the frame that goes out, the validation of the
 answer, and the distribution of the answer's data into the caller's result buffers
 (src/client.rs, `Client::communicate`).  How the answer travels is in PendingRequests and Reader.
 */
module Exchange {
  import opened Bytes
  import opened Ams

  /** What the wait for the reply yields. */
  datatype Answer = Answered(header: AdsHeader, payload: seq<byte>) | Lost(error: Error)

  /** The identity under which a caller sends. */
  datatype Sender = Sender(source: AmsAddr, id: u32)

  // ----- pouring a byte string into consecutive buffers

  function Min(a: nat, b: nat): nat {
    if a < b then a else b
  }

  /** `data` written over the front of `old`, as far as it fits. */
  function Overlay(old_: seq<byte>, data: seq<byte>): (s: seq<byte>)
    ensures |s| == |old_|
  {
    var n := Min(|old_|, |data|);
    data[..n] + old_[n..]
  }

  lemma {:induction false} OverlayAt(old_: seq<byte>, data: seq<byte>, x: nat)
    requires x < |old_|
    ensures Overlay(old_, data)[x] == if x < |data| then data[x] else old_[x]
  {
  }

  /** Buffer contents after `data` was poured into them, each filled before the next. */
  function Poured(bufs: seq<seq<byte>>, data: seq<byte>): (r: seq<seq<byte>>)
    ensures |r| == |bufs|
  {
    if bufs == [] then []
    else [Overlay(bufs[0], data)] + Poured(bufs[1..], data[Min(|bufs[0]|, |data|)..])
  }

  lemma {:induction false} PouredNothing(bufs: seq<seq<byte>>)
    ensures Poured(bufs, []) == bufs
  {
    if bufs != [] {
      PouredNothing(bufs[1..]);
      assert Overlay(bufs[0], []) == bufs[0];
    }
  }

  lemma {:induction false} PouredCons(bufs: seq<seq<byte>>, data: seq<byte>)
    requires bufs != []
    ensures Poured(bufs, data)
         == [Overlay(bufs[0], data)] + Poured(bufs[1..], data[Min(|bufs[0]|, |data|)..])
  {
    hide Overlay;
  }

  /** Laid end to end, the buffers received a prefix of the data and kept the rest. */
  lemma {:induction false} PouredFlat(bufs: seq<seq<byte>>, data: seq<byte>)
    ensures Flatten(Poured(bufs, data)) == Overlay(Flatten(bufs), data)
  {
    if bufs == [] {
      assert Overlay([], data) == [];
    } else {
      hide Poured, Bytes.Flatten, Overlay;
      var n := Min(|bufs[0]|, |data|);
      PouredFlat(bufs[1..], data[n..]);
      PouredCons(bufs, data);
      var first, rest := Overlay(bufs[0], data), Poured(bufs[1..], data[n..]);
      assert ([first] + rest)[1..] == rest;
      FlattenCons([first] + rest);
      FlattenCons(bufs);
      OverlayOn(bufs[0], Flatten(bufs[1..]), data);
    }
  }

  lemma {:induction false} OverlayOn(a: seq<byte>, b: seq<byte>, data: seq<byte>)
    ensures Overlay(a, data) + Overlay(b, data[Min(|a|, |data|)..]) == Overlay(a + b, data)
  {
  }

  /** Pouring continues in the second list where the first one is full. */
  lemma {:induction false} PouredSplit(a: seq<seq<byte>>, b: seq<seq<byte>>, data: seq<byte>)
    ensures Poured(a + b, data) == Poured(a, data) + Poured(b, data[Min(|Flatten(a)|, |data|)..])
  {
    hide Overlay, Poured, Bytes.Flatten;
    if a == [] {
      NoneFirst(a, b, data);
    } else {
      var n := Min(|a[0]|, |data|);
      PouredSplit(a[1..], b, data[n..]);
      PouredCons(a, data);
      PouredCons(a + b, data);
      AppendedHead(a, b);
      FlattenCons(a);
      DropTwice(data, |a[0]|, |Flatten(a[1..])|);
    }
  }

  lemma {:induction false} NoneFirst(a: seq<seq<byte>>, b: seq<seq<byte>>, data: seq<byte>)
    requires a == []
    ensures a + b == b && Poured(a, data) == [] && Flatten(a) == [] && data[0..] == data
  {
  }

  lemma {:induction false} DropTwice(data: seq<byte>, m: nat, n: nat)
    ensures data[Min(m, |data|)..][Min(n, |data[Min(m, |data|)..]|)..] == data[Min(m + n, |data|)..]
  {
  }

  /** Pieces poured into buffers of exactly their sizes come out again. */
  lemma {:induction false} PouredExact(bufs: seq<seq<byte>>, pieces: seq<seq<byte>>, rest: seq<byte>)
    requires Lens(bufs) == Lens(pieces)
    ensures Poured(bufs, Flatten(pieces) + rest) == pieces
  {
    assert |bufs| == |pieces|;
    if bufs != [] {
      assert Lens(bufs)[0] == Lens(pieces)[0];
      assert Lens(bufs[1..]) == Lens(bufs)[1..] == Lens(pieces[1..]);
      var data, n := Flatten(pieces) + rest, |bufs[0]|;
      assert data == pieces[0] + (Flatten(pieces[1..]) + rest);
      assert data[n..] == Flatten(pieces[1..]) + rest && data[..n] == pieces[0];
      PouredExact(bufs[1..], pieces[1..], rest);
      assert Overlay(bufs[0], data) == pieces[0];
    }
  }

  /** What follows the first `k` bytes; nothing if there are no more. */
  function Tail(data: seq<byte>, k: nat): seq<byte> {
    if k <= |data| then data[k..] else []
  }

  lemma {:induction false} TailOfTail(data: seq<byte>, n: nat, k: nat)
    ensures Tail(data[Min(n, |data|)..], k) == Tail(data, n + k)
  {
  }

  /** Whatever the length of the data: a buffer receives what lies at its own offset, as far as the
      data reaches, and keeps the rest of what it held. */
  lemma {:induction false} PouredAt(bufs: seq<seq<byte>>, data: seq<byte>, i: nat)
    requires i < |bufs|
    ensures Poured(bufs, data)[i] == Overlay(bufs[i], Tail(data, Offset(Lens(bufs), i)))
  {
    hide Overlay, Poured, Tail, Bytes.Offset;
    PouredCons(bufs, data);
    if i == 0 {
      WholeTail(Lens(bufs), data);
    } else {
      var n := Min(|bufs[0]|, |data|);
      PouredAt(bufs[1..], data[n..], i - 1);
      assert Lens(bufs)[1..] == Lens(bufs[1..]);
      OffsetShift(Lens(bufs), i);
      TailOfTail(data, |bufs[0]|, Offset(Lens(bufs[1..]), i - 1));
    }
  }

  lemma {:induction false} WholeTail(lens: seq<nat>, data: seq<byte>)
    ensures Tail(data, Offset(lens, 0)) == data
  {
  }

  /** A buffer of `n` bytes holds nothing but received data iff all `n` bytes were sent; then it does
      not matter what it held before. */
  lemma {:induction false} FilledIff(n: nat, data: seq<byte>)
    ensures (forall a: seq<byte>, b: seq<byte> :: |a| == n && |b| == n ==> Overlay(a, data) == Overlay(b, data))
            <==> |data| >= n
    ensures forall a: seq<byte> :: |a| == n && |data| >= n ==> Overlay(a, data) == data[..n]
  {
    if |data| < n {
      var a, b := seq(n, _ => 0), seq(n, _ => 1);
      assert Overlay(a, data)[|data|] != Overlay(b, data)[|data|];
    } else {
      forall a: seq<byte> | |a| == n
        ensures Overlay(a, data) == data[..n]
      {
        assert a[n..] == [];
      }
    }
  }

  // ----- the copying loop at the end of communicate

  ghost predicate Apart(bufs: seq<array<byte>>) {
    forall i, j :: 0 <= i < |bufs| && 0 <= j < |bufs| && i != j ==> bufs[i] != bufs[j]
  }

  ghost function Contents(bufs: seq<array<byte>>): (cs: seq<seq<byte>>)
    reads bufs
    ensures |cs| == |bufs|
    ensures forall k :: 0 <= k < |bufs| ==> cs[k] == bufs[k][..]
  {
    seq(|bufs|, k requires 0 <= k < |bufs| reads bufs => bufs[k][..])
  }

  lemma {:induction false} PouredSnoc(before: seq<seq<byte>>, data: seq<byte>, i: nat, taken: nat)
    requires i < |before| && taken <= |data|
    ensures Poured(before[i..], data[taken..])
         == [Overlay(before[i], data[taken..])]
          + Poured(before[i + 1..], data[taken + Min(|before[i]|, |data| - taken)..])
  {
    var n := Min(|before[i]|, |data| - taken);
    assert before[i..][1..] == before[i + 1..];
    assert data[taken..][n..] == data[taken + n..];
  }

  lemma {:induction false} OverlayCut(c: seq<byte>, d: seq<byte>)
    ensures Overlay(c, d[..Min(|c|, |d|)]) == Overlay(c, d)
  {
  }

  method CopyFront(buf: array<byte>, b: seq<byte>)
    requires |b| <= buf.Length
    modifies buf
    ensures buf[..] == Overlay(old(buf[..]), b)
  {
    forall x | 0 <= x < |b| {
      buf[x] := b[x];
    }
  }

  /** Distribute the reply's data into the result buffers, stopping when it is used up. */
  method Distribute(data: seq<byte>, bufs: seq<array<byte>>)
    requires Apart(bufs)
    modifies bufs
    ensures Contents(bufs) == Poured(old(Contents(bufs)), data)
  {
    hide Overlay, Poured;
    ghost var before := Contents(bufs);
    ghost var all := Poured(before, data);
    var taken, restLen := 0, |data|;
    assert before[0..] == before && data[0..] == data;
    for i := 0 to |bufs|
      invariant 0 <= taken && 0 <= restLen && taken + restLen == |data|
      invariant forall k :: i <= k < |bufs| ==> bufs[k][..] == before[k]
      invariant forall k :: 0 <= k < i ==> bufs[k][..] == all[k]
      invariant Poured(before[i..], data[taken..]) == all[i..]
    {
      PouredSnoc(before, data, i, taken);
      assert all[i..][0] == all[i] && all[i..][1..] == all[i + 1..];
      var n := Min(bufs[i].Length, restLen);
      OverlayCut(before[i], data[taken..]);
      label copy:
      CopyFront(bufs[i], data[taken..][..n]);
      forall k | 0 <= k < |bufs| && k != i
        ensures bufs[k][..] == old@copy(bufs[k][..])
      {
        assert bufs[k] != bufs[i];
      }
      taken, restLen := taken + n, restLen - n;
      if restLen == 0 {
        assert data[taken..] == [];
        PouredNothing(before[i + 1..]);
        forall k | i < k < |bufs|
          ensures bufs[k][..] == all[k]
        {
          assert all[k] == all[i + 1..][k - (i + 1)] == before[i + 1..][k - (i + 1)];
        }
        break;
      }
    }
  }

  // ----- the whole exchange

  /** The data a request delivers to its result buffers.  `first` is the length of the first result
      buffer, if there is one; the reply must at least fill it. */
  function Received(me: Sender, cmd: u16, target: AmsAddr, payload: seq<byte>, first: Option<nat>,
                    exchange: seq<byte> -> Answer): (r: Result<seq<byte>>)
    ensures r.Ok? && first.Some? ==> |r.value| >= first.value
  {
    var frame :- RequestFrame(me.source, target, cmd, me.id, payload);
    match exchange(frame)
    case Lost(e) => Err(e)
    case Answered(h, reply) =>
      var _ :- CheckReply(target, cmd, me.id, h, reply);
      match first
      case None => Ok([])
      case Some(n) => if |reply| < n + 4 then Err(Reply(ShortReply, |reply|)) else Ok(reply[4..])
  }

  function FirstLength(bufs: seq<array<byte>>): Option<nat> {
    if bufs == [] then None else Some(bufs[0].Length)
  }

  /** The socket with the reader thread and the server behind it: what was written to it, and how each
      frame is answered. */
  class Socket {
    const answer: seq<byte> -> Answer
    var sent: seq<seq<byte>>

    constructor (answer: seq<byte> -> Answer)
      ensures this.answer == answer && sent == []
    {
      this.answer, sent := answer, [];
    }

    /** Write one frame and wait for what answers it. */
    method Request(frame: seq<byte>) returns (a: Answer)
      modifies this
      ensures sent == old(sent) + [frame] && a == answer(frame)
    {
      sent := sent + [frame];
      a := answer(frame);
    }
  }

  /** The frames a request puts on the socket: its own, unless it is too long for one. */
  function Frames(me: Sender, cmd: u16, target: AmsAddr, payload: seq<byte>): seq<seq<byte>> {
    match RequestFrame(me.source, target, cmd, me.id, payload)
    case Ok(frame) => [frame]
    case Err(_) => []
  }

  /** `Client::communicate`.  Exactly the request's frame is written.  Result buffers change only on
      success, and then hold the reply's data in order. */
  method Communicate(me: Sender, cmd: u16, target: AmsAddr, payloadBufs: seq<seq<byte>>,
                     resultBufs: seq<array<byte>>, socket: Socket)
    returns (r: Result<nat>)
    requires Apart(resultBufs)
    modifies resultBufs, socket
    ensures socket.sent == old(socket.sent) + Frames(me, cmd, target, Flatten(payloadBufs))
    ensures var got := Received(me, cmd, target, Flatten(payloadBufs), FirstLength(resultBufs), socket.answer);
      && (got.Ok? ==> r == Ok(|got.value|) && Contents(resultBufs) == Poured(old(Contents(resultBufs)), got.value))
      && (got.Err? ==> r == Err(got.error) && Contents(resultBufs) == old(Contents(resultBufs)))
  {
    hide Ams.EncodeHeader, Ams.CheckReply, Poured, Bytes.Flatten, Bytes.Le, Bytes.Unle;
    var request := BuildRequest(me.source, target, cmd, me.id, payloadBufs);
    if request.Err? {
      return Err(request.error);
    }
    var answer := socket.Request(request.value);
    if answer.Lost? {
      return Err(answer.error);
    }
    var check := CheckReply(target, cmd, me.id, answer.header, answer.payload);
    if check.Err? {
      return Err(check.error);
    }
    if resultBufs == [] {
      return Ok(0);
    }
    if |answer.payload| < resultBufs[0].Length + 4 {
      return Err(Reply(ShortReply, |answer.payload|));
    }
    Distribute(answer.payload[4..], resultBufs);
    return Ok(|answer.payload[4..]|);
  }

  /** The outcome in terms of the bytes of the answer, for every answer: a lost one is its error; success
      takes a header that answers the request without error, a payload that starts with the result zero,
      and enough data for the first result buffer, and delivers everything behind the result. */
  lemma {:induction false} ReceivedIff(me: Sender, cmd: u16, target: AmsAddr, payload: seq<byte>, first: Option<nat>,
                                       exchange: seq<byte> -> Answer, frame: seq<byte>, data: seq<byte>)
    requires Frames(me, cmd, target, payload) == [frame]
    ensures var got := Received(me, cmd, target, payload, first, exchange);
      match exchange(frame)
      case Lost(e) => got == Err(e)
      case Answered(h, reply) =>
        got == Ok(data) <==>
          && h.src == target && h.command == cmd && h.stateFlags == 5 && h.invokeId == me.id && h.errorCode == 0
          && (if first.Some? then reply == Le(0, 4) + data && |data| >= first.value
              else Le(0, 4) <= reply && data == [])
  {
    hide Bytes.Le, Bytes.Unle, Ams.CheckReply, Ams.EncodeHeader;
    if exchange(frame).Answered? {
      var h, reply := exchange(frame).header, exchange(frame).payload;
      AcceptedReply(target, cmd, me.id, h, reply);
      if Le(0, 4) <= reply {
        assert reply == Le(0, 4) + reply[4..];
      }
      TakeBack(Le(0, 4), data);
    }
  }
}
