/**
 Distribution of a reply into caller buffers, and the in-place repair of a packed
 SUMUP_READWRITE reply (src/client.rs, end of `communicate` and
 `fixup_write_read_return_buffers`).

 The buffers of all requests, laid end to end, are one address space.  `initial` are the buffer
 lengths and `actual` the lengths the server reports; request `i` owns the addresses from
 `Offset(initial, i)` on, but its bytes were received at `Offset(actual, i)`.
 */
module ReplyBuffers {
  import opened Bytes

  /** One entry of a `write_read_multi` call.  `res` holds the wire form of the server's result
      code and data length, which the reply is received into. */
  class WriteReadRequest {
    const group: u32
    const offset: u32
    const wbuf: seq<byte>
    const res: array<byte>
    const rbuf: array<byte>

    constructor (group: u32, offset: u32, wbuf: seq<byte>, rbuf: array<byte>)
      ensures this.group == group && this.offset == offset && this.wbuf == wbuf && this.rbuf == rbuf
      ensures fresh(res) && res.Length == 8 && res[..] == seq(8, _ => 0)
    {
      this.group, this.offset, this.wbuf, this.rbuf := group, offset, wbuf, rbuf;
      res := new byte[8](_ => 0);
    }

    function ResultCode(): u32
      requires res.Length == 8
      reads res
    {
      U32(res[..4])
    }

    function ActualLength(): u32
      requires res.Length == 8
      reads res
    {
      U32(res[4..])
    }

    /** The returned data or the request's own error; slicing past the buffer panics. */
    function Data(): Result<seq<byte>>
      requires res.Length == 8
      reads res, rbuf
    {
      if ResultCode() != 0 then Err(Ads(ResultCode()))
      else if ActualLength() > rbuf.Length then Err(Panic)
      else Ok(rbuf[..ActualLength()])
    }
  }

  /** What exclusive borrows guarantee: no two buffers share memory. */
  ghost predicate Separate(rs: seq<WriteReadRequest>) {
    && (forall i :: 0 <= i < |rs| ==> rs[i].res.Length == 8)
    && (forall i, j :: 0 <= i < |rs| && 0 <= j < |rs| ==> rs[i].rbuf != rs[j].res)
    && (forall i, j :: 0 <= i < |rs| && 0 <= j < |rs| && i != j ==> rs[i].rbuf != rs[j].rbuf)
    && (forall i, j :: 0 <= i < |rs| && 0 <= j < |rs| && i != j ==> rs[i].res != rs[j].res)
  }

  ghost function InitialLens(rs: seq<WriteReadRequest>): (lens: seq<nat>)
    ensures |lens| == |rs|
    ensures forall k :: 0 <= k < |rs| ==> lens[k] == rs[k].rbuf.Length
  {
    seq(|rs|, k requires 0 <= k < |rs| => rs[k].rbuf.Length)
  }

  ghost function ActualLens(rs: seq<WriteReadRequest>): (lens: seq<nat>)
    requires Separate(rs)
    reads set r | r in rs :: r.res
    ensures |lens| == |rs|
    ensures forall k :: 0 <= k < |rs| ==> lens[k] == rs[k].ActualLength()
  {
    seq(|rs|, k requires 0 <= k < |rs| reads set r | r in rs :: r.res => rs[k].ActualLength())
  }

  /** The contents of every read buffer. */
  ghost function Buffers(rs: seq<WriteReadRequest>): (bs: seq<seq<byte>>)
    reads set r | r in rs :: r.rbuf
    ensures |bs| == |rs|
    ensures forall k :: 0 <= k < |rs| ==> bs[k] == rs[k].rbuf[..]
  {
    seq(|rs|, k requires 0 <= k < |rs| reads set r | r in rs :: r.rbuf => rs[k].rbuf[..])
  }

  // ----- the address space

  /** Every buffer byte at an address below `bound` still holds what was received there. */
  ghost predicate Kept(rs: seq<WriteReadRequest>, initial: seq<nat>, received: seq<byte>, bound: int)
    requires |initial| == |rs|
    reads set r | r in rs :: r.rbuf
  {
    && bound <= |received|
    && forall k, x :: 0 <= k < |rs| && 0 <= x < rs[k].rbuf.Length && Offset(initial, k) + x < bound ==>
         rs[k].rbuf[x] == received[Offset(initial, k) + x]
  }

  /** Bytes `from..size` of the data received at `start` are in place in the buffer. */
  ghost predicate InPlace(buf: array<byte>, received: seq<byte>, start: nat, from: nat, size: nat)
    reads buf
  {
    && size <= buf.Length
    && start + size <= |received|
    && forall x :: from <= x < size ==> buf[x] == received[start + x]
  }

  lemma {:induction false} AllKept(rs: seq<WriteReadRequest>)
    ensures Kept(rs, InitialLens(rs), Flatten(Buffers(rs)), |Flatten(Buffers(rs))|)
  {
    var bs, initial := Buffers(rs), InitialLens(rs);
    assert Lens(bs) == initial;
    forall k, x | 0 <= k < |rs| && 0 <= x < rs[k].rbuf.Length && Offset(initial, k) + x < |Flatten(bs)|
      ensures rs[k].rbuf[x] == Flatten(bs)[Offset(initial, k) + x]
    {
      FlattenSlice(bs, k);
      assert bs[k][x] == Flatten(bs)[Offset(initial, k)..Offset(initial, k) + |bs[k]|][x];
    }
  }

  /** In particular all bytes below the end of the data. */
  lemma {:induction false} KeptToEnd(rs: seq<WriteReadRequest>, actual: seq<nat>)
    requires |actual| == |rs| && forall i :: 0 <= i < |rs| ==> actual[i] <= rs[i].rbuf.Length
    ensures Kept(rs, InitialLens(rs), Flatten(Buffers(rs)), Offset(actual, |rs|))
  {
    hide Kept, Bytes.Flatten, Bytes.Offset;
    AllKept(rs);
    ActualBelowInitial(InitialLens(rs), actual, |rs|);
    FlattenLength(Buffers(rs));
    assert Lens(Buffers(rs)) == InitialLens(rs);
    KeptBelow(rs, InitialLens(rs), Flatten(Buffers(rs)), |Flatten(Buffers(rs))|, Offset(actual, |rs|));
  }

  lemma {:induction false} KeptBelow(rs: seq<WriteReadRequest>, initial: seq<nat>, received: seq<byte>, a: int, b: int)
    requires |initial| == |rs| && Kept(rs, initial, received, a) && b <= a
    ensures Kept(rs, initial, received, b)
  {
    hide Bytes.Offset;
  }

  /** If no request is longer than its buffer, data never starts after its buffer. */
  lemma {:induction false} ActualBelowInitial(initial: seq<nat>, actual: seq<nat>, k: nat)
    requires |initial| == |actual| && k <= |initial|
    requires forall i :: 0 <= i < |initial| ==> actual[i] <= initial[i]
    ensures Offset(actual, k) <= Offset(initial, k)
  {
    if k > 0 {
      ActualBelowInitial(initial, actual, k - 1);
    }
  }

  /** Once data and buffer start at the same address, so do those of all earlier requests. */
  lemma {:induction false} AlignedBefore(initial: seq<nat>, actual: seq<nat>, k: nat, i: nat)
    requires |initial| == |actual| && k <= i <= |initial|
    requires forall i :: 0 <= i < |initial| ==> actual[i] <= initial[i]
    requires Offset(initial, i) == Offset(actual, i)
    ensures Offset(initial, k) == Offset(actual, k)
    decreases i
  {
    if k < i {
      ActualBelowInitial(initial, actual, i - 1);
      AlignedBefore(initial, actual, k, i - 1);
    }
  }

  // ----- fixup_write_read_return_buffers

  /** Start of buffer and data in the address space, buffer length and data length. */
  datatype Slot = Slot(initial: nat, actual: nat, room: nat, size: nat)

  ghost predicate Table(rs: seq<WriteReadRequest>, initial: seq<nat>, actual: seq<nat>, slots: seq<Slot>) {
    && |slots| == |rs| == |initial| == |actual|
    && (forall i :: 0 <= i < |rs| ==> actual[i] <= initial[i])
    && (forall i {:trigger slots[i]} :: 0 <= i < |rs| ==>
         slots[i] == Slot(Offset(initial, i), Offset(actual, i), initial[i], actual[i]))
  }

  /** The offset table.  Fails like the assertion in the source when a reported length exceeds
      its buffer. */
  method ScanOffsets(rs: seq<WriteReadRequest>) returns (ok: bool, slots: seq<Slot>)
    requires Separate(rs)
    ensures ok <==> forall i :: 0 <= i < |rs| ==> rs[i].ActualLength() <= rs[i].rbuf.Length
    ensures ok ==> Table(rs, InitialLens(rs), ActualLens(rs), slots)
  {
    ghost var initial, actual := InitialLens(rs), ActualLens(rs);
    var initCum: nat, actCum: nat := 0, 0;
    slots := [];
    for i := 0 to |rs|
      invariant initCum == Offset(initial, i) && actCum == Offset(actual, i)
      invariant |slots| == i
      invariant forall k :: 0 <= k < i ==> actual[k] <= initial[k]
      invariant forall k {:trigger slots[k]} :: 0 <= k < i ==>
        slots[k] == Slot(Offset(initial, k), Offset(actual, k), initial[k], actual[k])
    {
      var init, act := rs[i].rbuf.Length, rs[i].ActualLength();
      assert init == initial[i] && act == actual[i];
      slots := slots + [Slot(initCum, actCum, init, act)];
      if init < act {
        return false, slots;
      }
      initCum, actCum := initCum + init, actCum + act;
    }
    ok := true;
  }

  lemma {:induction false} SlotIs(rs: seq<WriteReadRequest>, initial: seq<nat>, actual: seq<nat>, slots: seq<Slot>,
                                  j: nat)
    requires initial == InitialLens(rs) && Table(rs, initial, actual, slots) && j < |rs|
    ensures |slots| == |rs| == |initial| == |actual|
    ensures slots[j].initial == Offset(initial, j) && slots[j].room == rs[j].rbuf.Length
    ensures slots[j].actual == Offset(actual, j) && slots[j].size <= slots[j].room
    ensures Offset(actual, j + 1) == slots[j].actual + slots[j].size
    ensures j + 1 < |rs| ==> slots[j + 1].initial == slots[j].initial + slots[j].room
    ensures j == 0 ==> slots[j].initial == 0
    ensures slots[j].actual <= slots[j].initial
  {
    ActualBelowInitial(initial, actual, j);
  }

  /** Copy `n` bytes of buffer `j` into buffer `i`; the two ranges may overlap when `i == j`. */
  method MoveRun(rs: seq<WriteReadRequest>, i: nat, j: nat, src: nat, dst: nat, n: nat)
    requires i < |rs| && j < |rs|
    requires src + n <= rs[j].rbuf.Length && dst + n <= rs[i].rbuf.Length
    modifies rs[i].rbuf
    ensures forall x :: 0 <= x < rs[i].rbuf.Length ==>
      rs[i].rbuf[x] == if dst <= x < dst + n then old(rs[j].rbuf[src + x - dst]) else old(rs[i].rbuf[x])
  {
    var from, to := rs[j].rbuf, rs[i].rbuf;
    forall x | dst <= x < dst + n {
      to[x] := from[src + x - dst];
    }
  }

  /** The last request up to `i` whose buffer starts before address `bound`. */
  method LastBufferBefore(slots: seq<Slot>, i: nat, bound: nat) returns (j: nat)
    requires i < |slots| && slots[0].initial < bound
    ensures j <= i && slots[j].initial < bound
    ensures forall k :: j < k <= i ==> slots[k].initial >= bound
  {
    j := i;
    while slots[j].initial >= bound
      invariant j <= i
      invariant forall k :: j < k <= i ==> slots[k].initial >= bound
      decreases j
    {
      j := j - 1;
    }
  }

  /** One round of the copying loop: bytes `size..size + n` of request `i` come from buffer `j`. */
  method PullRun(rs: seq<WriteReadRequest>, ghost initial: seq<nat>, ghost received: seq<byte>,
                 i: nat, j: nat, jEnd: nat, ghost start: nat, size: nat, n: nat, ghost full: nat)
    requires Separate(rs) && initial == InitialLens(rs)
    requires j <= i < |rs| && n <= jEnd <= rs[j].rbuf.Length
    requires start + size + n == Offset(initial, j) + jEnd
    requires start < Offset(initial, i)
    requires InPlace(rs[i].rbuf, received, start, size + n, full)
    requires size + n <= full
    requires Kept(rs, initial, received, start + size + n)
    modifies rs[i].rbuf
    ensures InPlace(rs[i].rbuf, received, start, size, full)
    ensures Kept(rs, initial, received, start + size)
  {
    hide Bytes.Offset;
    MoveRun(rs, i, j, jEnd - n, size, n);
    assert InPlace(rs[i].rbuf, received, start, size, full) by {
      forall x | size <= x < full
        ensures rs[i].rbuf[x] == received[start + x]
      {
        if x < size + n {
          assert rs[i].rbuf[x] == old(rs[j].rbuf[jEnd - n + x - size]);
        } else {
          assert rs[i].rbuf[x] == old(rs[i].rbuf[x]);
        }
      }
    }
    forall k, x | 0 <= k < |rs| && 0 <= x < rs[k].rbuf.Length && Offset(initial, k) + x < start + size
      ensures rs[k].rbuf[x] == received[Offset(initial, k) + x]
    {
      if k == i {
        assert x < size;
      } else {
        assert rs[k].rbuf != rs[i].rbuf;
      }
      assert rs[k].rbuf[x] == old(rs[k].rbuf[x]);
    }
  }

  /** The request's last byte was received in buffer `j`, which the search always finds. */
  method LocateEnd(rs: seq<WriteReadRequest>, slots: seq<Slot>, i: nat, ghost initial: seq<nat>, ghost actual: seq<nat>)
    returns (j: nat, jEnd: nat)
    requires initial == InitialLens(rs) && Table(rs, initial, actual, slots) && i < |rs|
    requires slots[i].actual <= slots[i].initial && 0 < slots[i].size
    ensures j <= i && jEnd <= slots[j].room
    ensures slots[i].actual + slots[i].size == slots[j].initial + jEnd
  {
    SlotIs(rs, initial, actual, slots, i);
    SlotIs(rs, initial, actual, slots, 0);
    j := LastBufferBefore(slots, i, slots[i].actual + slots[i].size);
    SlotIs(rs, initial, actual, slots, j);
    jEnd := slots[i].actual + slots[i].size - slots[j].initial;
  }

  lemma {:induction false} NothingMovedYet(rs: seq<WriteReadRequest>, initial: seq<nat>, actual: seq<nat>,
                                           slots: seq<Slot>, received: seq<byte>, i: nat)
    requires initial == InitialLens(rs) && Table(rs, initial, actual, slots) && i < |rs|
    requires Kept(rs, initial, received, slots[i].actual + slots[i].size)
    ensures InPlace(rs[i].rbuf, received, slots[i].actual, slots[i].size, slots[i].size)
  {
    SlotIs(rs, initial, actual, slots, i);
  }

  /** Move request `i`'s data, received at `Offset(actual, i)`, to the start of its buffer.  Only
      that buffer is written, and no byte is overwritten before it has been moved. */
  method PullIntoBuffer(rs: seq<WriteReadRequest>, slots: seq<Slot>, i: nat, ghost initial: seq<nat>,
                        ghost actual: seq<nat>, ghost received: seq<byte>)
    requires Separate(rs) && initial == InitialLens(rs) && Table(rs, initial, actual, slots)
    requires i < |rs| && slots[i].actual < slots[i].initial && 0 < slots[i].size
    requires Kept(rs, initial, received, slots[i].actual + slots[i].size)
    modifies rs[i].rbuf
    ensures InPlace(rs[i].rbuf, received, slots[i].actual, 0, slots[i].size)
    ensures Kept(rs, initial, received, slots[i].actual)
  {
    hide *;
    SlotIs(rs, initial, actual, slots, i);
    NothingMovedYet(rs, initial, actual, slots, received, i);
    var start, full := slots[i].actual, slots[i].size;
    var size := full;
    var j, jEnd := LocateEnd(rs, slots, i, initial, actual);
    SlotIs(rs, initial, actual, slots, j);
    while true
      invariant 0 < size <= full && 0 <= j <= i && 0 <= jEnd
      invariant start + size == slots[j].initial + jEnd
      invariant jEnd <= slots[j].room
      invariant slots[j].initial == Offset(initial, j) && slots[j].room == rs[j].rbuf.Length
      invariant InPlace(rs[i].rbuf, received, start, size, full)
      invariant Kept(rs, initial, received, start + size)
      decreases j
    {
      var n := if jEnd < size then jEnd else size;
      size := size - n;
      PullRun(rs, initial, received, i, j, jEnd, start, size, n, full);
      if size == 0 {
        return;
      }
      SlotIs(rs, initial, actual, slots, 0);
      j := j - 1;
      SlotIs(rs, initial, actual, slots, j);
      jEnd := slots[j].room;
    }
  }

  /** Requests from `from` on have all their data in place. */
  ghost predicate Repaired(rs: seq<WriteReadRequest>, slots: seq<Slot>, received: seq<byte>, from: nat)
    requires |slots| == |rs|
    reads set r | r in rs :: r.rbuf
  {
    forall k :: from <= k < |rs| ==> InPlace(rs[k].rbuf, received, slots[k].actual, 0, slots[k].size)
  }

  /** Below an aligned request everything was received in place. */
  lemma {:induction false} ReceivedInPlace(rs: seq<WriteReadRequest>, initial: seq<nat>, actual: seq<nat>,
                                  slots: seq<Slot>,
                        received: seq<byte>, k: nat, i: nat)
    requires initial == InitialLens(rs) && Table(rs, initial, actual, slots)
    requires k <= i < |rs| && slots[i].initial == slots[i].actual
    requires Kept(rs, initial, received, Offset(actual, i + 1))
    ensures InPlace(rs[k].rbuf, received, slots[k].actual, 0, slots[k].size)
  {
    AlignedBefore(initial, actual, k, i);
    OffsetMonotone(actual, k, i + 1);
    assert Offset(actual, k) + actual[k] == Offset(actual, k + 1);
  }

  /** So the early exit is right. */
  lemma {:induction false} AlreadyInPlace(rs: seq<WriteReadRequest>, initial: seq<nat>, actual: seq<nat>,
                                  slots: seq<Slot>,
                       received: seq<byte>, i: nat)
    requires initial == InitialLens(rs) && Table(rs, initial, actual, slots)
    requires i < |rs| && slots[i].initial == slots[i].actual
    requires Kept(rs, initial, received, Offset(actual, i + 1))
    requires Repaired(rs, slots, received, i + 1)
    ensures Repaired(rs, slots, received, 0)
  {
    forall k | 0 <= k <= i
      ensures InPlace(rs[k].rbuf, received, slots[k].actual, 0, slots[k].size)
    {
      ReceivedInPlace(rs, initial, actual, slots, received, k, i);
    }
  }

  /** Repairing request `i` disturbs neither the repaired ones nor what earlier ones still need. */
  method RepairOne(rs: seq<WriteReadRequest>, slots: seq<Slot>, i: nat, ghost initial: seq<nat>,
                   ghost actual: seq<nat>, ghost received: seq<byte>)
    requires Separate(rs) && initial == InitialLens(rs) && Table(rs, initial, actual, slots)
    requires i < |rs| && slots[i].actual < slots[i].initial && 0 < slots[i].size
    requires Kept(rs, initial, received, Offset(actual, i + 1))
    requires Repaired(rs, slots, received, i + 1)
    modifies rs[i].rbuf
    ensures Kept(rs, initial, received, Offset(actual, i))
    ensures Repaired(rs, slots, received, i)
  {
    PullIntoBuffer(rs, slots, i, initial, actual, received);
    forall k | i < k < |rs|
      ensures InPlace(rs[k].rbuf, received, slots[k].actual, 0, slots[k].size)
    {
      assert rs[k].rbuf != rs[i].rbuf;
      assert old(InPlace(rs[k].rbuf, received, slots[k].actual, 0, slots[k].size));
    }
  }

  /** A request without data needs no repair. */
  lemma {:induction false} NothingToRepair(rs: seq<WriteReadRequest>, initial: seq<nat>, actual: seq<nat>,
                                           slots: seq<Slot>, received: seq<byte>, i: nat)
    requires initial == InitialLens(rs) && Table(rs, initial, actual, slots)
    requires i < |rs| && slots[i].size == 0
    requires Kept(rs, initial, received, Offset(actual, i + 1))
    requires Repaired(rs, slots, received, i + 1)
    ensures Kept(rs, initial, received, Offset(actual, i))
    ensures Repaired(rs, slots, received, i)
  {
    SlotIs(rs, initial, actual, slots, i);
    hide Table;
    assert InPlace(rs[i].rbuf, received, slots[i].actual, 0, slots[i].size);
  }

  lemma {:induction false} NothingRepaired(rs: seq<WriteReadRequest>, initial: seq<nat>, actual: seq<nat>,
                                           slots: seq<Slot>, received: seq<byte>)
    requires Table(rs, initial, actual, slots)
    ensures |slots| == |rs| == |initial| == |actual| && Repaired(rs, slots, received, |rs|)
  {
  }

  /** The reverse pass over the requests. */
  method ReversePass(rs: seq<WriteReadRequest>, slots: seq<Slot>, ghost initial: seq<nat>,
                     ghost actual: seq<nat>, ghost received: seq<byte>)
    requires Separate(rs) && initial == InitialLens(rs) && Table(rs, initial, actual, slots)
    requires Kept(rs, initial, received, Offset(actual, |rs|))
    modifies set r | r in rs :: r.rbuf
    ensures Repaired(rs, slots, received, 0)
  {
    hide *;
    NothingRepaired(rs, initial, actual, slots, received);
    var i := |rs|;
    while i > 0
      invariant 0 <= i <= |rs|
      invariant Kept(rs, initial, received, Offset(actual, i))
      invariant Repaired(rs, slots, received, i)
    {
      i := i - 1;
      SlotIs(rs, initial, actual, slots, i);
      if slots[i].size == 0 {
        NothingToRepair(rs, initial, actual, slots, received, i);
      } else if slots[i].initial == slots[i].actual {
        AlreadyInPlace(rs, initial, actual, slots, received, i);
        return;
      } else {
        RepairOne(rs, slots, i, initial, actual, received);
      }
    }
  }

  lemma {:induction false} RepairedInPlace(rs: seq<WriteReadRequest>, initial: seq<nat>, actual: seq<nat>,
                                           slots: seq<Slot>, received: seq<byte>)
    requires Table(rs, initial, actual, slots) && Repaired(rs, slots, received, 0)
    ensures |actual| == |rs|
    ensures forall i :: 0 <= i < |rs| ==> InPlace(rs[i].rbuf, received, Offset(actual, i), 0, actual[i])
  {
    hide InPlace, Bytes.Offset;
    forall i | 0 <= i < |rs|
      ensures InPlace(rs[i].rbuf, received, Offset(actual, i), 0, actual[i])
    {
      assert slots[i] == Slot(Offset(initial, i), Offset(actual, i), initial[i], actual[i]);
    }
  }

  /** Scan, then repair, in terms of the lengths reported beforehand. */
  method ScanAndRepair(rs: seq<WriteReadRequest>) returns (ok: bool)
    requires Separate(rs)
    modifies set r | r in rs :: r.rbuf
    ensures ok <==> forall i :: 0 <= i < |rs| ==> old(ActualLens(rs))[i] <= rs[i].rbuf.Length
    ensures !ok ==> Buffers(rs) == old(Buffers(rs))
    ensures ok ==> forall i :: 0 <= i < |rs| ==>
      InPlace(rs[i].rbuf, old(Flatten(Buffers(rs))), Offset(old(ActualLens(rs)), i), 0, old(ActualLens(rs))[i])
  {
    hide Kept, InPlace, Table, Repaired, Bytes.Flatten, Bytes.Offset, Bytes.Unle;
    ghost var received := Flatten(Buffers(rs));
    ghost var initial, actual := InitialLens(rs), ActualLens(rs);
    var slots;
    ok, slots := ScanOffsets(rs);
    if ok {
      KeptToEnd(rs, actual);
      ReversePass(rs, slots, initial, actual, received);
      RepairedInPlace(rs, initial, actual, slots, received);
    }
  }

  /** `fixup_write_read_return_buffers`.  Nothing is written unless all reported lengths fit; then
      every request ends with its own stretch of the received bytes at the start of its buffer. */
  method Fixup(rs: seq<WriteReadRequest>) returns (ok: bool)
    requires Separate(rs)
    modifies set r | r in rs :: r.rbuf
    ensures ok <==> forall i :: 0 <= i < |rs| ==> rs[i].ActualLength() <= rs[i].rbuf.Length
    ensures !ok ==> Buffers(rs) == old(Buffers(rs))
    ensures ok ==> forall i :: 0 <= i < |rs| ==>
      InPlace(rs[i].rbuf, old(Flatten(Buffers(rs))), Offset(ActualLens(rs), i), 0, ActualLens(rs)[i])
  {
    hide Kept, InPlace, Bytes.Flatten, Bytes.Unle;
    ok := ScanAndRepair(rs);
    assert ActualLens(rs) == old(ActualLens(rs));
  }
}
