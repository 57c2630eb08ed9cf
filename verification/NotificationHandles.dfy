/**
 The client's record of open notification handles (src/client.rs, `Client::device`,
 `add_notification`, `add_notification_multi`, `delete_notification`, `delete_notification_multi`
 and `Drop for Client`), set against what the server's replies say.
 */
module NotificationHandles {
  import opened Bytes
  import opened Ams
  import opened Exchange
  import opened SumUp
  import opened MultiRequests

  /** Handles added and deleted, in order. */
  datatype Event = Added(addr: AmsAddr, handle: u32) | Deleted(addr: AmsAddr, handle: u32)

  /** The handles that such events leave open. */
  function Open(log: seq<Event>): set<(AmsAddr, u32)> {
    if log == [] then {}
    else
      var before := Open(log[..|log| - 1]);
      match log[|log| - 1]
      case Added(a, h) => before + {(a, h)}
      case Deleted(a, h) => before - {(a, h)}
  }

  lemma {:induction false} OpenSnoc(log: seq<Event>, e: Event)
    ensures Open(log + [e]) == if e.Added? then Open(log) + {(e.addr, e.handle)} else Open(log) - {(e.addr, e.handle)}
  {
    assert (log + [e])[..|log|] == log;
  }

  /** A handle is open iff it was added and not deleted afterwards. */
  lemma {:induction false} OpenIff(log: seq<Event>, a: AmsAddr, h: u32)
    ensures (a, h) in Open(log) <==>
      exists i :: 0 <= i < |log| && log[i] == Added(a, h) && forall j :: i < j < |log| ==> log[j] != Deleted(a, h)
  {
    if log != [] {
      var init, last := log[..|log| - 1], log[|log| - 1];
      OpenIff(init, a, h);
      if last == Added(a, h) {
        assert log[|log| - 1] == Added(a, h);
      } else if last == Deleted(a, h) {
        assert log[|log| - 1] == Deleted(a, h);
      } else {
        if (a, h) in Open(init) {
          var i :| 0 <= i < |init| && init[i] == Added(a, h) && forall j :: i < j < |init| ==> init[j] != Deleted(a, h);
          assert log[i] == Added(a, h);
          assert forall j :: i < j < |log| ==> log[j] != Deleted(a, h);
        }
        if i :| 0 <= i < |log| && log[i] == Added(a, h) && forall j :: i < j < |log| ==> log[j] != Deleted(a, h) {
          assert init[i] == Added(a, h);
          assert forall j :: i < j < |init| ==> init[j] != Deleted(a, h);
        }
      }
    }
  }

  /** `Client::device`: the local NetID stands for the client's own. */
  function DeviceAddr(source: AmsAddr, addr: AmsAddr): AmsAddr {
    if addr.netid == LOCAL_NETID then AmsAddr(source.netid, addr.port) else addr
  }

  /** The port is kept, and exactly the local NetID, 127.0.0.1.1.1, becomes the client's own. */
  lemma {:induction false} DeviceAddrMaps(source: AmsAddr, addr: AmsAddr)
    ensures DeviceAddr(source, addr).port == addr.port
    ensures DeviceAddr(source, addr).netid == if addr.netid == [127, 0, 0, 1, 1, 1] then source.netid else addr.netid
  {
  }

  lemma {:induction false} DeviceAddrIdempotent(source: AmsAddr, addr: AmsAddr)
    ensures DeviceAddr(source, DeviceAddr(source, addr)) == DeviceAddr(source, addr)
  {
  }

  // ----- sum-up calls: what a client concludes and what the reply says

  /** A sum-up call: adding handles for a device, or deleting these handles of it. */
  datatype Call = Adding(addr: AmsAddr) | Deleting(addr: AmsAddr, handles: seq<u32>) {
    /** Bytes of reply per sub-request: a result code, and the new handle. */
    function Size(): CodeSize {
      if Adding? then 8 else 4
    }

    /** Where the reply to sub-request `i` starts. */
    function At(i: nat): nat {
      ResultAt(Size(), i)
    }

    predicate Has(n: nat) {
      Deleting? ==> |handles| == n
    }

    /** The event that result header `i` stands for, if its code is zero. */
    function EventOf(i: nat, h: seq<byte>): seq<Event>
      requires |h| == Size() && (Deleting? ==> i < |handles|)
    {
      if U32(h[..4]) != 0 then []
      else if Adding? then [Added(addr, U32(h[4..]))]
      else [Deleted(addr, handles[i])]
    }

    /** What the client concludes from the first `k` result headers. */
    function Concluded(hs: seq<seq<byte>>, k: nat): seq<Event>
      requires k <= |hs| && Has(|hs|) && forall i :: 0 <= i < |hs| ==> |hs[i]| == Size()
    {
      if k == 0 then [] else Concluded(hs, k - 1) + EventOf(k - 1, hs[k - 1])
    }

    /** What a reply says about the first `k` of `n` sub-requests: nothing about those it does not reach. */
    function Stated(data: seq<byte>, k: nat, n: nat): seq<Event>
      requires k <= n && Has(n)
    {
      if k == 0 then []
      else Stated(data, k - 1, n) + (if |data| < At(k) then [] else EventOf(k - 1, Header(data, k - 1)))
    }

    function Header(data: seq<byte>, i: nat): (h: seq<byte>)
      requires At(i + 1) <= |data|
      ensures |h| == Size()
    {
      data[At(i)..At(i + 1)]
    }

    /** `hs` are results that held `res` when this reply came. */
    ghost predicate Received(res: seq<seq<byte>>, data: seq<byte>, hs: seq<seq<byte>>) {
      && |res| == |hs| && Has(|hs|)
      && forall i :: 0 <= i < |hs| ==>
           |res[i]| == |hs[i]| == Size() && hs[i] == Overlay(res[i], Tail(data, At(i)))
    }

    /** An event the client concludes although the reply does not state it. */
    ghost predicate Phantom(data: seq<byte>, hs: seq<seq<byte>>, i: nat)
      requires i < |hs| && |hs[i]| >= 4
    {
      |data| < At(i + 1) && U32(hs[i][..4]) == 0
    }
  }

  lemma {:induction false} HeaderReceived(c: Call, res: seq<seq<byte>>, data: seq<byte>, hs: seq<seq<byte>>, i: nat)
    requires c.Received(res, data, hs) && i < |hs| && c.At(i + 1) <= |data|
    ensures hs[i] == c.Header(data, i)
  {
    FilledIff(c.Size(), Tail(data, c.At(i)));
  }

  /** As far as the reply reaches, the client concludes what it states. */
  lemma {:induction false} ReachedAgree(c: Call, res: seq<seq<byte>>, data: seq<byte>, hs: seq<seq<byte>>, k: nat)
    requires c.Received(res, data, hs) && k <= |hs| && c.At(k) <= |data|
    ensures c.Concluded(hs, k) == c.Stated(data, k, |hs|)
  {
    hide Overlay, Tail, Bytes.Unle;
    if k > 0 {
      ReachedAgree(c, res, data, hs, k - 1);
      HeaderReceived(c, res, data, hs, k - 1);
    }
  }

  /** Beyond that it can only conclude more, and does so exactly where there is a phantom. */
  lemma {:induction false} ConcludesMoreIff(c: Call, res: seq<seq<byte>>, data: seq<byte>, hs: seq<seq<byte>>, k: nat)
    requires c.Received(res, data, hs) && k <= |hs|
    ensures c.Stated(data, k, |hs|) <= c.Concluded(hs, k)
    ensures c.Concluded(hs, k) == c.Stated(data, k, |hs|) <==> forall i :: 0 <= i < k ==> !c.Phantom(data, hs, i)
  {
    hide Overlay, Tail, Bytes.Unle;
    if k > 0 {
      ConcludesMoreIff(c, res, data, hs, k - 1);
      if c.At(k) <= |data| {
        ReachedAgree(c, res, data, hs, k);
        forall i | 0 <= i < k
          ensures !c.Phantom(data, hs, i)
        {
        }
      } else {
        var event := c.EventOf(k - 1, hs[k - 1]);
        assert c.Stated(data, k, |hs|) == c.Stated(data, k - 1, |hs|) + [];
        assert c.Concluded(hs, k) == c.Concluded(hs, k - 1) + event;
        assert event == [] <==> !c.Phantom(data, hs, k - 1);
        if c.Concluded(hs, k) == c.Stated(data, k, |hs|) {
          assert |c.Stated(data, k - 1, |hs|)| <= |c.Concluded(hs, k - 1)|;
          assert event == [];
        }
      }
    }
  }

  /** Sub-requests before the last one that is reached are reached completely. */
  lemma {:induction false} LastDecides(c: Call, data: seq<byte>, hs: seq<seq<byte>>, last: nat)
    requires |hs| == last + 1 && (forall i :: 0 <= i < |hs| ==> |hs[i]| >= 4)
    requires c.Phantom(data, hs, last) || |data| > c.At(last)
    ensures (forall i :: 0 <= i < |hs| ==> !c.Phantom(data, hs, i)) <==> !c.Phantom(data, hs, last)
  {
    hide Bytes.Unle;
    if |data| > c.At(last) {
      forall i | 0 <= i < last
        ensures !c.Phantom(data, hs, i)
      {
      }
    }
  }

  /** With requests made for this call, the client concludes exactly what the reply states iff the reply
      is complete, or ends in the last sub-request behind an error code. */
  lemma {:induction false} ConcludesStatedIff(c: Call, res: seq<seq<byte>>, data: seq<byte>, hs: seq<seq<byte>>,
                                              last: nat)
    requires c.Received(res, data, hs) && |hs| == last + 1 && forall i :: 0 <= i < |res| ==> Zero(res[i])
    ensures c.Concluded(hs, |hs|) == c.Stated(data, |hs|, |hs|) <==>
      || |data| >= c.At(last + 1)
      || exists x :: c.At(last) <= x < |data| && x < c.At(last) + 4 && data[x] != 0
  {
    ConcludesMoreIff(c, res, data, hs, |hs|);
    FreshPhantomIff(c, res, data, hs, last);
    hide Call.Received, Call.Concluded, Call.Stated, Call.Phantom;
    LastDecides(c, data, hs, last);
  }

  lemma {:induction false} FreshPhantomIff(c: Call, res: seq<seq<byte>>, data: seq<byte>, hs: seq<seq<byte>>, i: nat)
    requires c.Received(res, data, hs) && i < |hs| && Zero(res[i])
    ensures c.Phantom(data, hs, i) <==>
      && |data| < c.At(i + 1)
      && forall x :: c.At(i) <= x < |data| && x < c.At(i) + 4 ==> data[x] == 0
  {
    hide Overlay, Tail, Bytes.Unle;
    var at := c.At(i);
    SuccessIff(res[i], data, at);
    if |data| >= at + 4 {
      ZeroIff(data[at..at + 4]);
      assert forall x :: at <= x < at + 4 ==> data[x] == data[at..at + 4][x - at];
    }
  }

  /** The extreme case, a reply that ends behind its length field: every sub-request counts as confirmed,
      new handles with the value 0. */
  lemma {:induction false} EmptyReplyConfirmsAll(c: Call, res: seq<seq<byte>>, hs: seq<seq<byte>>, k: nat)
    requires c.Received(res, [], hs) && k <= |hs| && forall i :: 0 <= i < |res| ==> Zero(res[i])
    ensures c.Stated([], k, |hs|) == [] && |c.Concluded(hs, k)| == k
    ensures forall i :: 0 <= i < k ==>
      c.Concluded(hs, k)[i] == if c.Adding? then Added(c.addr, 0) else Deleted(c.addr, c.handles[i])
  {
    hide Bytes.Unle, Overlay, Call.EventOf, Call.Received;
    if k > 0 {
      EmptyReplyConfirmsAll(c, res, hs, k - 1);
      assert |res| == |hs| by {
        ReceivedLength(c, res, [], hs);
      }
      ZeroEvent(c, res, hs, k - 1);
    }
  }

  lemma {:induction false} ReceivedLength(c: Call, res: seq<seq<byte>>, data: seq<byte>, hs: seq<seq<byte>>)
    requires c.Received(res, data, hs)
    ensures |res| == |hs|
  {
  }

  lemma {:induction false} ZeroEvent(c: Call, res: seq<seq<byte>>, hs: seq<seq<byte>>, i: nat)
    requires c.Received(res, [], hs) && i < |hs| && Zero(res[i])
    ensures c.EventOf(i, hs[i]) == [if c.Adding? then Added(c.addr, 0) else Deleted(c.addr, c.handles[i])]
  {
    hide Bytes.Unle;
    assert hs[i] == res[i];
    ZeroIff(hs[i][..4]);
    if c.Adding? {
      ZeroIff(hs[i][4..]);
    }
  }

  // ----- requests

  /** Notification attributes; delays in milliseconds. */
  datatype Attributes = Attributes(length: nat, transMode: u32, maxDelay: nat, cycleTime: nat)

  /** The request record; its four-byte fields keep the low 32 bits (`as u32`). */
  function EncodeAdd(group: u32, offset: u32, a: Attributes): (s: seq<byte>)
    ensures |s| == 40
  {
    Le(group, 4) + Le(offset, 4) + Le(a.length, 4) + Le(a.transMode, 4) + Le(a.maxDelay, 4) + Le(a.cycleTime, 4)
    + seq(16, _ => 0)
  }

  /** Where a server finds the fields of a request record; durations and lengths that fit 32 bits are
      the true ones. */
  lemma {:induction false} AddRecordFields(group: u32, offset: u32, a: Attributes)
    ensures var s := EncodeAdd(group, offset, a);
      && U32(s[..4]) == group && U32(s[4..8]) == offset && U32(s[12..16]) == a.transMode
      && (a.length < U32_LIMIT ==> U32(s[8..12]) == a.length)
      && (a.maxDelay < U32_LIMIT ==> U32(s[16..20]) == a.maxDelay)
      && (a.cycleTime < U32_LIMIT ==> U32(s[20..24]) == a.cycleTime)
      && Zero(s[24..])
  {
    hide Bytes.Le, Bytes.Unle;
    var s := EncodeAdd(group, offset, a);
    assert s[..4] == Le(group, 4) && s[4..8] == Le(offset, 4) && s[8..12] == Le(a.length, 4);
    assert s[12..16] == Le(a.transMode, 4) && s[16..20] == Le(a.maxDelay, 4) && s[20..24] == Le(a.cycleTime, 4);
    U32Field(group); U32Field(offset); U32Field(a.transMode);
    if a.length < U32_LIMIT {
      U32Field(a.length);
    }
    if a.maxDelay < U32_LIMIT {
      U32Field(a.maxDelay);
    }
    if a.cycleTime < U32_LIMIT {
      U32Field(a.cycleTime);
    }
  }

  /** One entry of an `add_notification_multi` call. */
  class AddNotifRequest {
    const group: u32
    const offset: u32
    const attributes: Attributes
    const res: array<byte>

    constructor (group: u32, offset: u32, attributes: Attributes)
      ensures this.group == group && this.offset == offset && this.attributes == attributes
      ensures fresh(res) && res.Length == 8 && Zero(res[..])
    {
      this.group, this.offset, this.attributes := group, offset, attributes;
      res := new byte[8](_ => 0);
    }

    /** The returned handle, or the request's own error. */
    function Handle(): Result<u32>
      requires res.Length == 8
      reads res
    {
      if U32(res[..4]) != 0 then Err(Ads(U32(res[..4]))) else Ok(U32(res[4..]))
    }
  }

  /** One entry of a `delete_notification_multi` call. */
  class DelNotifRequest {
    const handle: u32
    const res: array<byte>

    constructor (handle: u32)
      ensures this.handle == handle
      ensures fresh(res) && res.Length == 4 && Zero(res[..])
    {
      this.handle := handle;
      res := new byte[4](_ => 0);
    }

    function Ensure(): Result<()>
      requires res.Length == 4
      reads res
    {
      if U32(res[..]) != 0 then Err(Ads(U32(res[..]))) else Ok(())
    }
  }

  /** The eight result bytes of an add are the code and then the handle. */
  lemma {:induction false} AddReports(r: AddNotifRequest, code: u32, handle: u32)
    requires r.res.Length == 8 && r.res[..] == Le(code, 4) + Le(handle, 4)
    ensures r.Handle() == if code != 0 then Err(Ads(code)) else Ok(handle)
  {
    hide Bytes.Le, Bytes.Unle;
    TwoNumbers(code, handle);
    assert r.res[..4] == r.res[..][..4] && r.res[4..] == r.res[..][4..];
  }

  lemma {:induction false} DeleteReports(r: DelNotifRequest, code: u32)
    requires r.res.Length == 4 && r.res[..] == Le(code, 4)
    ensures r.Ensure() == if code != 0 then Err(Ads(code)) else Ok(())
  {
    U32Field(code);
  }

  function AddRecords(rs: seq<AddNotifRequest>): (hs: seq<seq<byte>>)
    ensures |hs| == |rs|
    ensures forall i :: 0 <= i < |rs| ==> hs[i] == EncodeAdd(rs[i].group, rs[i].offset, rs[i].attributes)
  {
    seq(|rs|, i requires 0 <= i < |rs| => EncodeAdd(rs[i].group, rs[i].offset, rs[i].attributes))
  }

  function AddResults(rs: seq<AddNotifRequest>): (bs: seq<array<byte>>)
    ensures |bs| == |rs| && forall i :: 0 <= i < |rs| ==> bs[i] == rs[i].res
  {
    seq(|rs|, i requires 0 <= i < |rs| => rs[i].res)
  }

  function DelHandles(rs: seq<DelNotifRequest>): (handles: seq<u32>)
    ensures |handles| == |rs| && forall i :: 0 <= i < |rs| ==> handles[i] == rs[i].handle
  {
    seq(|rs|, i requires 0 <= i < |rs| => rs[i].handle)
  }

  function DelRecords(rs: seq<DelNotifRequest>): (hs: seq<seq<byte>>)
    ensures |hs| == |rs| && forall i :: 0 <= i < |rs| ==> hs[i] == Le(rs[i].handle, 4)
  {
    seq(|rs|, i requires 0 <= i < |rs| => Le(rs[i].handle, 4))
  }

  function DelResults(rs: seq<DelNotifRequest>): (bs: seq<array<byte>>)
    ensures |bs| == |rs| && forall i :: 0 <= i < |rs| ==> bs[i] == rs[i].res
  {
    seq(|rs|, i requires 0 <= i < |rs| => rs[i].res)
  }

  lemma {:induction false} UniformOffset(lens: seq<nat>, size: nat, i: nat)
    requires i <= |lens| && forall k :: 0 <= k < |lens| ==> lens[k] == size
    ensures Offset(lens, i) == size * i
  {
    if i > 0 {
      UniformOffset(lens, size, i - 1);
      assert size * i == size * (i - 1) + size;
    }
  }

  lemma {:induction false} SliceBehind(a: seq<byte>, b: seq<byte>, c: seq<byte>, at: nat, n: nat)
    requires at + n <= |b|
    ensures (a + (b + c))[|a| + at..][..n] == b[at..at + n]
  {
  }

  /** Sub-requests of one size lie where a server looks for them, behind the header of the sum-up. */
  lemma {:induction false} RecordAt(header: seq<byte>, hs: seq<seq<byte>>, size: nat, i: nat)
    requires i < |hs| && forall k :: 0 <= k < |hs| ==> |hs[k]| == size
    ensures var p := header + (Flatten(hs) + Flatten([]));
      |header| + size * i + size <= |p| && p[|header| + size * i..][..size] == hs[i]
  {
    hide Bytes.Flatten;
    FlattenSlice(hs, i);
    UniformOffset(Lens(hs), size, i);
    SliceBehind(header, Flatten(hs), Flatten([]), size * i, size);
  }

  /** The sizes that a sum-up of notification requests announces are those of its sub-requests. */
  lemma {:induction false} RecordsLength(hs: seq<seq<byte>>, size: nat)
    requires forall k :: 0 <= k < |hs| ==> |hs[k]| == size
    ensures |Flatten(hs) + Flatten([])| == size * |hs|
  {
    FlattenLength(hs);
    UniformOffset(Lens(hs), size, |hs|);
  }

  // ----- what results mean, in the bytes of the reply

  /** The reply gives sub-request `i` this handle. */
  predicate Gives(data: seq<byte>, i: nat, handle: u32) {
    |data| >= 8 * i + 8 && data[8 * i..8 * i + 8] == Le(0, 4) + Le(handle, 4)
  }

  /** How many of the first `k` results have code zero. */
  ghost function Successes(hs: seq<seq<byte>>, k: nat): nat
    requires k <= |hs| && forall i :: 0 <= i < |hs| ==> |hs[i]| >= 4
  {
    if k == 0 then 0 else Successes(hs, k - 1) + if hs[k - 1][..4] == Le(0, 4) then 1 else 0
  }

  lemma {:induction false} CodeZeroIff(h: seq<byte>)
    requires |h| >= 4
    ensures U32(h[..4]) == 0 <==> h[..4] == Le(0, 4)
  {
    LeUnle(h[..4]);
    U32Field(0);
  }

  /** One event per success, in order, and only events of the call's own kind and address. */
  lemma {:induction false} OneEventPerSuccess(c: Call, hs: seq<seq<byte>>, k: nat)
    requires c.Has(|hs|) && (forall i :: 0 <= i < |hs| ==> |hs[i]| == c.Size()) && k <= |hs|
    ensures |c.Concluded(hs, k)| == Successes(hs, k)
    ensures forall e :: e in c.Concluded(hs, k) ==> e.Added? == c.Adding? && e.addr == c.addr
  {
    hide Bytes.Le, Bytes.Unle;
    if k > 0 {
      OneEventPerSuccess(c, hs, k - 1);
      CodeZeroIff(hs[k - 1]);
    }
  }

  lemma {:induction false} ConcludedGrows(c: Call, hs: seq<seq<byte>>, i: nat, k: nat)
    requires c.Has(|hs|) && (forall i :: 0 <= i < |hs| ==> |hs[i]| == c.Size()) && i <= k <= |hs|
    ensures c.Concluded(hs, i) <= c.Concluded(hs, k)
    decreases k
  {
    hide Bytes.Unle;
    if i < k {
      ConcludedGrows(c, hs, i, k - 1);
    }
  }

  /** A result of code zero and a handle is concluded as the addition of exactly that handle, in its
      place among the successes. */
  lemma {:induction false} HandleConcluded(c: Call, hs: seq<seq<byte>>, i: nat, handle: u32)
    requires c.Adding? && (forall i :: 0 <= i < |hs| ==> |hs[i]| == 8) && i < |hs|
    requires hs[i] == Le(0, 4) + Le(handle, 4)
    ensures Successes(hs, i) < |c.Concluded(hs, |hs|)|
    ensures c.Concluded(hs, |hs|)[Successes(hs, i)] == Added(c.addr, handle)
  {
    hide Bytes.Le, Bytes.Unle;
    TakeBack(Le(0, 4), Le(handle, 4));
    U32Field(0); U32Field(handle);
    OneEventPerSuccess(c, hs, i);
    ConcludedGrows(c, hs, i + 1, |hs|);
    assert c.Concluded(hs, i + 1) == c.Concluded(hs, i) + [Added(c.addr, handle)];
  }

  /** A result of code zero is concluded as the deletion of the handle that was sent. */
  lemma {:induction false} DeletionConcluded(c: Call, hs: seq<seq<byte>>, i: nat)
    requires c.Deleting? && |c.handles| == |hs| && (forall i :: 0 <= i < |hs| ==> |hs[i]| == 4) && i < |hs|
    requires hs[i] == Le(0, 4)
    ensures Successes(hs, i) < |c.Concluded(hs, |hs|)|
    ensures c.Concluded(hs, |hs|)[Successes(hs, i)] == Deleted(c.addr, c.handles[i])
  {
    hide Bytes.Le, Bytes.Unle;
    U32Field(0);
    assert hs[i][..4] == hs[i];
    OneEventPerSuccess(c, hs, i);
    ConcludedGrows(c, hs, i + 1, |hs|);
    assert c.Concluded(hs, i + 1) == c.Concluded(hs, i) + [Deleted(c.addr, c.handles[i])];
  }

  /** A result with another code concludes nothing. */
  lemma {:induction false} ErrorConcludesNothing(c: Call, hs: seq<seq<byte>>, i: nat, code: u32)
    requires c.Has(|hs|) && (forall i :: 0 <= i < |hs| ==> |hs[i]| == c.Size()) && i < |hs|
    requires code != 0 && |hs[i]| >= 4 && hs[i][..4] == Le(code, 4)
    ensures c.Concluded(hs, i + 1) == c.Concluded(hs, i) && Successes(hs, i + 1) == Successes(hs, i)
  {
    hide Bytes.Le, Bytes.Unle;
    U32Field(code);
    CodeZeroIff(hs[i]);
  }

  /** What a call of one kind leaves open: an added handle is open, a deleted one is not. */
  lemma {:induction false} EffectOnOpen(log: seq<Event>, events: seq<Event>, adding: bool, k: nat)
    requires k < |events| && forall e :: e in events ==> e.Added? == adding
    ensures adding ==> (events[k].addr, events[k].handle) in Open(log + events)
    ensures !adding ==> (events[k].addr, events[k].handle) !in Open(log + events)
  {
    hide Open;
    var all, a, h := log + events, events[k].addr, events[k].handle;
    OpenIff(all, a, h);
    assert all[|log| + k] == events[k];
    forall j | |log| <= j < |all|
      ensures all[j].Added? == adding
    {
      assert all[j] == events[j - |log|];
    }
    if adding {
      assert all[|log| + k] == Added(a, h);
    } else {
      assert all[|log| + k] == Deleted(a, h);
    }
  }

  /** After an add call: one event per success, and every handle that the reply gives is what its request
      hands out, is in the record, and is in the log in its place among the successes. */
  ghost predicate AddedAsGiven(rs: seq<AddNotifRequest>, device: AmsAddr, data: seq<byte>, before: seq<Event>,
                               log: seq<Event>, handles: set<(AmsAddr, u32)>)
    reads AddResults(rs)
  {
    && (forall i :: 0 <= i < |rs| ==> rs[i].res.Length == 8)
    && var hs := Contents(AddResults(rs));
       && |log| == |before| + Successes(hs, |rs|)
       && forall i: nat, handle: u32 :: i < |rs| && Gives(data, i, handle) ==>
            && rs[i].Handle() == Ok(handle) && (device, handle) in handles
            && |before| + Successes(hs, i) < |log| && log[|before| + Successes(hs, i)] == Added(device, handle)
  }

  /** After a delete call likewise: handles whose deletion the reply confirms are out of the record. */
  ghost predicate DeletedAsConfirmed(rs: seq<DelNotifRequest>, device: AmsAddr, data: seq<byte>, before: seq<Event>,
                                     log: seq<Event>, handles: set<(AmsAddr, u32)>)
    reads DelResults(rs)
  {
    && (forall i :: 0 <= i < |rs| ==> rs[i].res.Length == 4)
    && var hs := Contents(DelResults(rs));
       && |log| == |before| + Successes(hs, |rs|)
       && forall i: nat :: i < |rs| && Confirmed(data, 4 * i) ==>
            && rs[i].Ensure() == Ok(()) && (device, rs[i].handle) !in handles
            && |before| + Successes(hs, i) < |log| && log[|before| + Successes(hs, i)] == Deleted(device, rs[i].handle)
  }

  // ----- the frames of single requests

  /** A delete request for this handle, from this client to this device. */
  ghost predicate IsDelete(frame: seq<byte>, source: AmsAddr, id: u32, device: AmsAddr, handle: u32) {
    && |frame| == 42 && frame[38..] == Le(handle, 4)
    && var h := DecodeHeader(frame[..38]);
       h.dest == device && h.src == source && h.command == 7 && h.stateFlags == 4 && h.invokeId == id
  }

  lemma {:induction false} DeleteFrame(source: AmsAddr, id: u32, device: AmsAddr, handle: u32)
    ensures var fs := Frames(Sender(source, id), CMD_DELETE_NOTIFICATION, device, Le(handle, 4));
      |fs| == 1 && IsDelete(fs[0], source, id, device, handle)
  {
    hide Bytes.Le, Ams.DecodeHeader, Ams.EncodeHeader;
    FrameLengthsAreTrue(source, device, CMD_DELETE_NOTIFICATION, id, Le(handle, 4));
  }

  /** An add request likewise. */
  lemma {:induction false} AddFrame(source: AmsAddr, id: u32, device: AmsAddr, group: u32, offset: u32, a: Attributes)
    ensures var fs := Frames(Sender(source, id), CMD_ADD_NOTIFICATION, device, EncodeAdd(group, offset, a));
      && |fs| == 1 && |fs[0]| == 78 && fs[0][38..] == EncodeAdd(group, offset, a)
      && var h := DecodeHeader(fs[0][..38]);
         h.dest == device && h.src == source && h.command == 6 && h.stateFlags == 4 && h.invokeId == id
  {
    hide Bytes.Le, Ams.DecodeHeader, Ams.EncodeHeader, EncodeAdd;
    FrameLengthsAreTrue(source, device, CMD_ADD_NOTIFICATION, id, EncodeAdd(group, offset, a));
  }

  // ----- the record

  class Client {
    const source: AmsAddr
    var handles: set<(AmsAddr, u32)>

    /** What the client took to be confirmed, what the replies stated, and whether every sum-up reply
        so far held a result for each of its sub-requests. */
    ghost var log: seq<Event>
    ghost var stated: seq<Event>
    ghost var complete: bool

    /** The record is exactly what the concluded events leave open, under device addresses; and these
        are exactly the events that the server stated, as long as no sum-up reply was cut short. */
    ghost predicate Valid()
      reads this
    {
      && handles == Open(log) && (forall p :: p in handles ==> DeviceAddr(source, p.0) == p.0)
      && (complete ==> log == stated)
    }

    constructor (source: AmsAddr)
      ensures Valid() && log == stated == [] && complete && this.source == source
    {
      this.source := source;
      handles, log, stated, complete := {}, [], [], true;
    }

    /** `Device::add_notification`; `id` is the invoke id the call draws. */
    method AddNotification(addr: AmsAddr, group: u32, offset: u32, a: Attributes, id: u32,
                           socket: Socket) returns (r: Result<u32>)
      requires Valid()
      modifies this, socket
      ensures Valid() && complete == old(complete)
      ensures var device := DeviceAddr(source, addr);
        var got := if a.length >= U32_LIMIT || a.maxDelay >= U32_LIMIT || a.cycleTime >= U32_LIMIT then Err(Overflow)
                   else Exchange.Received(Sender(source, id), CMD_ADD_NOTIFICATION, device,
                                          EncodeAdd(group, offset, a), Some(4), socket.answer);
        && (got.Err? ==> r == Err(got.error) && log == old(log) && stated == old(stated))
        && (got.Ok? ==> r == Ok(U32(got.value[..4])))
        && (got.Ok? ==> log == old(log) + [Added(device, r.value)] && stated == old(stated) + [Added(device, r.value)])
      ensures socket.sent == old(socket.sent) +
        if a.length >= U32_LIMIT || a.maxDelay >= U32_LIMIT || a.cycleTime >= U32_LIMIT then []
        else Frames(Sender(source, id), CMD_ADD_NOTIFICATION, DeviceAddr(source, addr), EncodeAdd(group, offset, a))
    {
      hide Exchange.Received, Open, Poured, EncodeAdd, Bytes.Unle, Frames;
      var device := DeviceAddr(source, addr);
      if a.length >= U32_LIMIT || a.maxDelay >= U32_LIMIT || a.cycleTime >= U32_LIMIT {
        return Err(Overflow);
      }
      var handle := new byte[4](_ => 0);
      var data := EncodeAdd(group, offset, a);
      OneBuffer(data, handle);
      var n := Communicate(Sender(source, id), CMD_ADD_NOTIFICATION, device, [data], [handle], socket);
      if n.Err? {
        return Err(n.error);
      }
      assert Contents([handle])[0] == handle[..];
      r := Ok(U32(handle[..]));
      handles := handles + {(device, r.value)};
      OpenSnoc(log, Added(device, r.value));
      log, stated := log + [Added(device, r.value)], stated + [Added(device, r.value)];
    }

    /** `Device::delete_notification`. */
    method DeleteNotification(addr: AmsAddr, handle: u32, id: u32, socket: Socket)
      returns (r: Result<()>)
      requires Valid()
      modifies this, socket
      ensures Valid() && complete == old(complete)
      ensures var device := DeviceAddr(source, addr);
        var got := Exchange.Received(Sender(source, id), CMD_DELETE_NOTIFICATION, device, Le(handle, 4), None, socket.answer);
        && (got.Err? ==> r == Err(got.error) && log == old(log) && stated == old(stated))
        && (got.Ok? ==> r == Ok(()))
        && (got.Ok? ==> log == old(log) + [Deleted(device, handle)] && stated == old(stated) + [Deleted(device, handle)])
      ensures |socket.sent| == |old(socket.sent)| + 1 && old(socket.sent) <= socket.sent
      ensures IsDelete(socket.sent[|old(socket.sent)|], source, id, DeviceAddr(source, addr), handle)
    {
      hide Exchange.Received, Open, Bytes.Le, IsDelete;
      var device := DeviceAddr(source, addr);
      r := SendDelete(device, handle, id, socket);
      if r.Err? {
        return;
      }
      handles := handles - {(device, handle)};
      OpenSnoc(log, Deleted(device, handle));
      log, stated := log + [Deleted(device, handle)], stated + [Deleted(device, handle)];
    }

    /** The request of `delete_notification`. */
    method SendDelete(device: AmsAddr, handle: u32, id: u32, socket: Socket) returns (r: Result<()>)
      modifies socket
      ensures |socket.sent| == |old(socket.sent)| + 1 && old(socket.sent) <= socket.sent
      ensures IsDelete(socket.sent[|old(socket.sent)|], source, id, device, handle)
      ensures var got := Exchange.Received(Sender(source, id), CMD_DELETE_NOTIFICATION, device, Le(handle, 4), None, socket.answer);
        r == if got.Ok? then Ok(()) else Err(got.error)
    {
      hide Exchange.Received, Bytes.Le, Frames, IsDelete;
      FlattenOne(Le(handle, 4));
      DeleteFrame(source, id, device, handle);
      var n := Communicate(Sender(source, id), CMD_DELETE_NOTIFICATION, device, [Le(handle, 4)], [], socket);
      if n.Err? {
        return Err(n.error);
      }
      r := Ok(());
    }

    /** The loop over the results of a sum-up call. */
    method Conclude(call: Call, results: seq<array<byte>>, ghost data: seq<byte>, ghost res: seq<seq<byte>>)
      requires Valid() && DeviceAddr(source, call.addr) == call.addr
      requires call.Received(res, data, Contents(results))
      modifies this
      ensures Valid()
      ensures log == old(log) + call.Concluded(Contents(results), |results|)
      ensures stated == old(stated) + call.Stated(data, |results|, |results|)
      ensures complete == (old(complete) && |data| >= call.At(|results|))
    {
      hide Open, Bytes.Unle, Overlay, Tail, Call.Concluded, Call.Stated;
      ghost var hs := Contents(results);
      NothingYet(call, hs);
      assert log + [] == log;
      for i := 0 to |results|
        invariant handles == Open(log) && forall p :: p in handles ==> DeviceAddr(source, p.0) == p.0
        invariant log == old(log) + call.Concluded(hs, i)
        invariant stated == old(stated) && complete == old(complete)
      {
        var h := results[i][..];
        OneMore(call, hs, i);
        assert h == hs[i];
        if U32(h[..4]) == 0 {
          ghost var event := call.EventOf(i, h)[0];
          OpenSnoc(log, event);
          if call.Adding? {
            handles := handles + {(call.addr, U32(h[4..]))};
          } else {
            handles := handles - {(call.addr, call.handles[i])};
          }
          log := log + [event];
        }
      }
      if |data| >= call.At(|results|) {
        ReachedAgree(call, res, data, hs, |results|);
      }
      complete := complete && |data| >= call.At(|results|);
      stated := stated + call.Stated(data, |results|, |results|);
    }

    /** `Device::add_notification_multi`.  A failed exchange changes nothing.  After a reply of any length
        each result holds what was sent of it, and the handles of all results with code zero are
        recorded. */
    method AddNotificationMulti(addr: AmsAddr, rs: seq<AddNotifRequest>, id: u32, socket: Socket)
      returns (r: Result<()>)
      requires Valid() && Apart(AddResults(rs)) && forall i :: 0 <= i < |rs| ==> rs[i].res.Length == 8
      modifies this, AddResults(rs), socket
      ensures Valid()
      ensures var device, n := DeviceAddr(source, addr), |rs|;
        var got := SumUpReply(SUMUP_ADDDEVNOTE, 8 * n, 40 * n, AddRecords(rs), [], Sender(source, id), device, socket.answer);
        && (got.Err? ==> r == Err(got.error) && Contents(AddResults(rs)) == old(Contents(AddResults(rs))))
        && (got.Err? ==> log == old(log) && stated == old(stated) && complete == old(complete))
        && (got.Ok? ==> r == Ok(()))
        && (got.Ok? ==> Adding(device).Received(old(Contents(AddResults(rs))), got.value, Contents(AddResults(rs))))
        && (got.Ok? ==> log == old(log) + Adding(device).Concluded(Contents(AddResults(rs)), n))
        && (got.Ok? ==> stated == old(stated) + Adding(device).Stated(got.value, n, n))
        && (got.Ok? ==> complete == (old(complete) && |got.value| >= 8 * n))
      ensures socket.sent == old(socket.sent)
        + SumUpFrames(SUMUP_ADDDEVNOTE, 8 * |rs|, 40 * |rs|, AddRecords(rs), [], Sender(source, id), DeviceAddr(source, addr))
      ensures r.Ok? ==>
        var device := DeviceAddr(source, addr);
        var got := SumUpReply(SUMUP_ADDDEVNOTE, 8 * |rs|, 40 * |rs|, AddRecords(rs), [], Sender(source, id), device, socket.answer);
        got.Ok? && AddedAsGiven(rs, device, got.value, old(log), log, handles)
    {
      hide SumUpFrames, AddedAsGiven, SumUpReply, Open, Poured, Overlay, Tail, Call.Concluded, Call.Stated;
      var device, n := DeviceAddr(source, addr), |rs|;
      DeviceAddrIdempotent(source, addr);
      ghost var res := Contents(AddResults(rs));
      r := SendSumUp(SUMUP_ADDDEVNOTE, 8 * n, 40 * n, AddRecords(rs), [], Sender(source, id), device, AddResults(rs), socket);
      if r.Err? {
        return;
      }
      ghost var data := SumUpReply(SUMUP_ADDDEVNOTE, 8 * n, 40 * n, AddRecords(rs), [], Sender(source, id), device, socket.answer).value;
      ReceivedResults(8, AddResults(rs), res, data);
      Conclude(Adding(device), AddResults(rs), data, res);
      GivenHandles(rs, device, res, data, old(log));
    }

    /** `Device::delete_notification_multi`, likewise. */
    method DeleteNotificationMulti(addr: AmsAddr, rs: seq<DelNotifRequest>, id: u32, socket: Socket)
      returns (r: Result<()>)
      requires Valid() && Apart(DelResults(rs)) && forall i :: 0 <= i < |rs| ==> rs[i].res.Length == 4
      modifies this, DelResults(rs), socket
      ensures Valid()
      ensures var n, call := |rs|, Deleting(DeviceAddr(source, addr), DelHandles(rs));
        var got := SumUpReply(SUMUP_DELDEVNOTE, 4 * n, 4 * n, DelRecords(rs), [], Sender(source, id), call.addr, socket.answer);
        && (got.Err? ==> r == Err(got.error) && Contents(DelResults(rs)) == old(Contents(DelResults(rs))))
        && (got.Err? ==> log == old(log) && stated == old(stated) && complete == old(complete))
        && (got.Ok? ==> r == Ok(()))
        && (got.Ok? ==> call.Received(old(Contents(DelResults(rs))), got.value, Contents(DelResults(rs))))
        && (got.Ok? ==> log == old(log) + call.Concluded(Contents(DelResults(rs)), n))
        && (got.Ok? ==> stated == old(stated) + call.Stated(got.value, n, n))
        && (got.Ok? ==> complete == (old(complete) && |got.value| >= 4 * n))
      ensures socket.sent == old(socket.sent)
        + SumUpFrames(SUMUP_DELDEVNOTE, 4 * |rs|, 4 * |rs|, DelRecords(rs), [], Sender(source, id), DeviceAddr(source, addr))
      ensures r.Ok? ==>
        var device := DeviceAddr(source, addr);
        var got := SumUpReply(SUMUP_DELDEVNOTE, 4 * |rs|, 4 * |rs|, DelRecords(rs), [], Sender(source, id), device, socket.answer);
        got.Ok? && DeletedAsConfirmed(rs, device, got.value, old(log), log, handles)
    {
      hide SumUpFrames, DeletedAsConfirmed, SumUpReply, Open, Poured, Overlay, Tail, Call.Concluded, Call.Stated;
      var device, n := DeviceAddr(source, addr), |rs|;
      DeviceAddrIdempotent(source, addr);
      ghost var res := Contents(DelResults(rs));
      r := SendSumUp(SUMUP_DELDEVNOTE, 4 * n, 4 * n, DelRecords(rs), [], Sender(source, id), device, DelResults(rs), socket);
      if r.Err? {
        return;
      }
      ghost var data := SumUpReply(SUMUP_DELDEVNOTE, 4 * n, 4 * n, DelRecords(rs), [], Sender(source, id), device, socket.answer).value;
      ReceivedResults(4, DelResults(rs), res, data);
      Conclude(Deleting(device, DelHandles(rs)), DelResults(rs), data, res);
      ConfirmedDeletions(rs, device, res, data, old(log));
    }

    /** `Drop for Client`: for every open handle exactly one delete request is written, to the address it was
        added under, whatever the server answers; the record is empty afterwards. */
    method Drop(ids: nat -> u32, socket: Socket) returns (sent: seq<(AmsAddr, u32)>)
      requires Valid()
      modifies this, socket
      ensures handles == {}
      ensures forall p :: p in sent <==> p in Open(old(log))
      ensures forall i, j :: 0 <= i < j < |sent| ==> sent[i] != sent[j]
      ensures |socket.sent| == |old(socket.sent)| + |sent| && old(socket.sent) <= socket.sent
      ensures forall k :: 0 <= k < |sent| ==>
        IsDelete(socket.sent[|old(socket.sent)| + k], source, ids(k), sent[k].0, sent[k].1)
    {
      hide Exchange.Received, Open, Bytes.Le, IsDelete;
      var taken := handles;
      handles := {};
      sent := [];
      ghost var all, before := taken, socket.sent;
      while taken != {}
        invariant taken <= all && handles == {}
        invariant |socket.sent| == |before| + |sent| && before <= socket.sent
        invariant forall k :: 0 <= k < |sent| ==>
          IsDelete(socket.sent[|before| + k], source, ids(k), sent[k].0, sent[k].1)
        invariant forall p :: p in sent <==> p in all && p !in taken
        invariant forall i, j :: 0 <= i < j < |sent| ==> sent[i] != sent[j]
        decreases |taken|
      {
        var p :| p in taken;
        taken := taken - {p};
        var device := DeviceAddr(source, p.0);
        ghost var was := socket.sent;
        var r := SendDelete(device, p.1, ids(|sent|), socket);
        sent := sent + [(device, p.1)];
        forall k | 0 <= k < |sent|
          ensures IsDelete(socket.sent[|before| + k], source, ids(k), sent[k].0, sent[k].1)
        {
          assert k < |sent| - 1 ==> socket.sent[|before| + k] == was[|before| + k];
        }
        if r.Ok? {
          handles := handles - {(device, p.1)};
        }
      }
    }
  }

  /** A handle that the reply gives is the one that the request hands out and the record holds. */
  lemma {:induction false} GivenHandle(rs: seq<AddNotifRequest>, device: AmsAddr, res: seq<seq<byte>>, data: seq<byte>,
                                       log: seq<Event>, i: nat, handle: u32)
    requires i < |rs| && Gives(data, i, handle) && forall k :: 0 <= k < |rs| ==> rs[k].res.Length == 8
    requires Adding(device).Received(res, data, Contents(AddResults(rs)))
    ensures var hs := Contents(AddResults(rs));
      var events, k := Adding(device).Concluded(hs, |rs|), Successes(hs, i);
      && rs[i].Handle() == Ok(handle) && (device, handle) in Open(log + events)
      && k < |events| && (log + events)[|log| + k] == Added(device, handle)
  {
    hide Bytes.Le, Bytes.Unle, Open, Overlay, Tail, Successes, Call.Concluded;
    var hs := Contents(AddResults(rs));
    HeaderReceived(Adding(device), res, data, hs, i);
    assert rs[i].res[..] == hs[i] == Le(0, 4) + Le(handle, 4);
    TakeBack(Le(0, 4), Le(handle, 4));
    U32Field(0); U32Field(handle);
    assert rs[i].res[..4] == rs[i].res[..][..4] && rs[i].res[4..] == rs[i].res[..][4..];
    HandleConcluded(Adding(device), hs, i, handle);
    OneEventPerSuccess(Adding(device), hs, |rs|);
    EffectOnOpen(log, Adding(device).Concluded(hs, |rs|), true, Successes(hs, i));
  }

  lemma {:induction false} GivenHandles(rs: seq<AddNotifRequest>, device: AmsAddr, res: seq<seq<byte>>, data: seq<byte>,
                                        log: seq<Event>)
    requires forall k :: 0 <= k < |rs| ==> rs[k].res.Length == 8
    requires Adding(device).Received(res, data, Contents(AddResults(rs)))
    ensures var now := log + Adding(device).Concluded(Contents(AddResults(rs)), |rs|);
      AddedAsGiven(rs, device, data, log, now, Open(now))
  {
    hide Bytes.Le, Bytes.Unle, Open, Overlay, Tail, Successes, Call.Concluded, Gives, Call.EventOf;
    var hs := Contents(AddResults(rs));
    var now := log + Adding(device).Concluded(hs, |rs|);
    OneEventPerSuccess(Adding(device), hs, |rs|);
    forall i: nat, handle: u32 | i < |rs| && Gives(data, i, handle)
      ensures && rs[i].Handle() == Ok(handle) && (device, handle) in Open(now)
              && |log| + Successes(hs, i) < |now| && now[|log| + Successes(hs, i)] == Added(device, handle)
    {
      GivenHandle(rs, device, res, data, log, i, handle);
    }
  }

  lemma {:induction false} ConfirmedDeletions(rs: seq<DelNotifRequest>, device: AmsAddr, res: seq<seq<byte>>,
                                              data: seq<byte>, log: seq<Event>)
    requires forall k :: 0 <= k < |rs| ==> rs[k].res.Length == 4
    requires Deleting(device, DelHandles(rs)).Received(res, data, Contents(DelResults(rs)))
    ensures var now := log + Deleting(device, DelHandles(rs)).Concluded(Contents(DelResults(rs)), |rs|);
      DeletedAsConfirmed(rs, device, data, log, now, Open(now))
  {
    hide Bytes.Le, Bytes.Unle, Open, Overlay, Tail, Successes, Call.Concluded, Confirmed, Call.EventOf;
    var hs, c := Contents(DelResults(rs)), Deleting(device, DelHandles(rs));
    var now := log + c.Concluded(hs, |rs|);
    OneEventPerSuccess(c, hs, |rs|);
    forall i: nat | i < |rs| && Confirmed(data, 4 * i)
      ensures && rs[i].Ensure() == Ok(()) && (device, rs[i].handle) !in Open(now)
              && |log| + Successes(hs, i) < |now| && now[|log| + Successes(hs, i)] == Deleted(device, rs[i].handle)
    {
      ConfirmedDeletion(rs, device, res, data, log, i);
    }
  }

  /** A handle that the reply confirms as deleted is not in the record any more. */
  lemma {:induction false} ConfirmedDeletion(rs: seq<DelNotifRequest>, device: AmsAddr, res: seq<seq<byte>>,
                                             data: seq<byte>, log: seq<Event>, i: nat)
    requires i < |rs| && Confirmed(data, 4 * i) && forall k :: 0 <= k < |rs| ==> rs[k].res.Length == 4
    requires Deleting(device, DelHandles(rs)).Received(res, data, Contents(DelResults(rs)))
    ensures var hs := Contents(DelResults(rs));
      var events, k := Deleting(device, DelHandles(rs)).Concluded(hs, |rs|), Successes(hs, i);
      && rs[i].Ensure() == Ok(()) && (device, rs[i].handle) !in Open(log + events)
      && k < |events| && (log + events)[|log| + k] == Deleted(device, rs[i].handle)
  {
    hide Bytes.Le, Bytes.Unle, Open, Overlay, Tail, Successes, Call.Concluded;
    var c, hs := Deleting(device, DelHandles(rs)), Contents(DelResults(rs));
    HeaderReceived(c, res, data, hs, i);
    assert rs[i].res[..] == hs[i] == data[4 * i..4 * i + 4];
    assert hs[i][..4] == hs[i];
    CodeZeroIff(hs[i]);
    DeletionConcluded(c, hs, i);
    OneEventPerSuccess(c, hs, |rs|);
    EffectOnOpen(log, c.Concluded(hs, |rs|), false, Successes(hs, i));
  }

  lemma {:induction false} FlattenOne(s: seq<byte>)
    ensures Flatten([s]) == s
  {
    FlattenCons([s]);
  }

  lemma {:induction false} OneBuffer(data: seq<byte>, buf: array<byte>)
    ensures Flatten([data]) == data && Contents([buf]) == [buf[..]]
    ensures forall d: seq<byte> :: |d| >= buf.Length ==> Poured([buf[..]], d) == [d[..buf.Length]]
  {
    FlattenOne(data);
    forall d: seq<byte> | |d| >= buf.Length
      ensures Poured([buf[..]], d) == [d[..buf.Length]]
    {
      assert [buf[..]][1..] == [];
      FilledIff(buf.Length, d);
      assert Poured([buf[..]], d) == [Overlay(buf[..], d)] + [];
    }
  }

  lemma {:induction false} NothingYet(c: Call, hs: seq<seq<byte>>)
    requires c.Has(|hs|) && forall i :: 0 <= i < |hs| ==> |hs[i]| == c.Size()
    ensures c.Concluded(hs, 0) == []
  {
  }

  lemma {:induction false} OneMore(c: Call, hs: seq<seq<byte>>, i: nat)
    requires c.Has(|hs|) && (forall k :: 0 <= k < |hs| ==> |hs[k]| == c.Size()) && i < |hs|
    ensures c.Concluded(hs, i + 1) == c.Concluded(hs, i) + c.EventOf(i, hs[i])
  {
  }
}
