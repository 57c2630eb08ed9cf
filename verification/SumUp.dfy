/**
 Sum-up requests: several reads, writes or write/reads packed into one ADS request
 (src/client.rs, `read_multi`, `write_multi`, `write_read_multi`), and the unpacking a server does
 (src/test/mod.rs, `do_read_write`).
 */
module SumUp {
  import opened Bytes
  import opened Ams

  const SUMUP_WRITE: u32 := 0xF081
  const SUMUP_READWRITE: u32 := 0xF082
  const SUMUP_READ_EX: u32 := 0xF083
  const SUMUP_ADDDEVNOTE: u32 := 0xF085
  const SUMUP_DELDEVNOTE: u32 := 0xF086

  /** The caller's view of one sub-request: address, size of the read buffer, data to write. */
  datatype Op = Op(group: u32, offset: u32, rlen: nat, wdata: seq<byte>)

  /** Which operation a batch holds; it fixes the layout of the sub-request headers. */
  datatype Kind = Reads | Writes | WriteReads {
    function Group(): u32 {
      match this case Reads => SUMUP_READ_EX case Writes => SUMUP_WRITE case WriteReads => SUMUP_READWRITE
    }

    /** Size of `IndexLength` or `IndexLengthRW`. */
    function HeaderSize(): nat {
      if WriteReads? then 16 else 12
    }

    /** Bytes of reply header per sub-request: a result code, and a length if it reads. */
    function ResultSize(): nat {
      if Writes? then 4 else 8
    }

    /** Bytes of reply data a sub-request has room for. */
    function ReadRoom(op: Op): nat {
      if Writes? then 0 else op.rlen
    }

    /** Where sub-request header `i` starts in a batch; the data area starts at `HeaderAt(n)`. */
    function HeaderAt(i: nat): nat {
      16 + if WriteReads? then 16 * i else 12 * i
    }
  }

  /** A sub-request header as the request constructors fill it in: four-byte fields keep the low
      32 bits of the buffer lengths (`as u32`). */
  function Header(kind: Kind, op: Op): (s: seq<byte>)
    ensures |s| == kind.HeaderSize()
  {
    Le(op.group, 4) + Le(op.offset, 4) +
    match kind
    case Reads => Le(op.rlen, 4)
    case Writes => Le(|op.wdata|, 4)
    case WriteReads => Le(op.rlen, 4) + Le(|op.wdata|, 4)
  }

  /** The data a sub-request sends. */
  function Body(kind: Kind, op: Op): seq<byte> {
    if kind.Reads? then [] else op.wdata
  }

  /** What the same operation sends when issued on its own (`read`, `write`, `write_read`). */
  function Single(kind: Kind, op: Op): seq<byte> {
    Header(kind, op) + Body(kind, op)
  }

  function Headers(kind: Kind, ops: seq<Op>): (hs: seq<seq<byte>>)
    ensures |hs| == |ops| && forall i :: 0 <= i < |ops| ==> hs[i] == Header(kind, ops[i])
  {
    seq(|ops|, i requires 0 <= i < |ops| => Header(kind, ops[i]))
  }

  function Bodies(kind: Kind, ops: seq<Op>): (bs: seq<seq<byte>>)
    ensures |bs| == |ops| && forall i :: 0 <= i < |ops| ==> bs[i] == Body(kind, ops[i])
  {
    seq(|ops|, i requires 0 <= i < |ops| => Body(kind, ops[i]))
  }

  function Singles(kind: Kind, ops: seq<Op>): (ss: seq<seq<byte>>)
    ensures |ss| == |ops| && forall i :: 0 <= i < |ops| ==> ss[i] == Single(kind, ops[i])
  {
    seq(|ops|, i requires 0 <= i < |ops| => Single(kind, ops[i]))
  }

  /** Total size of the reply and of the data sent, as the client sums them up. */
  function ReadLength(kind: Kind, ops: seq<Op>): nat {
    if ops == [] then 0
    else ReadLength(kind, ops[..|ops| - 1]) + kind.ResultSize() + kind.ReadRoom(ops[|ops| - 1])
  }

  function WriteLength(kind: Kind, ops: seq<Op>): nat {
    if ops == [] then 0
    else WriteLength(kind, ops[..|ops| - 1]) + kind.HeaderSize() + |Body(kind, ops[|ops| - 1])|
  }

  /** The two sums are converted to 32 bits with a check. */
  predicate Fits(kind: Kind, ops: seq<Op>) {
    ReadLength(kind, ops) < U32_LIMIT && WriteLength(kind, ops) < U32_LIMIT
  }

  /** The header of every sum-up request: function code, number of sub-requests, reply and data size. */
  function SumUpHeader(group: u32, count: nat, rlen: nat, wlen: nat): (s: seq<byte>)
    ensures |s| == 16
  {
    Le(group, 4) + Le(count, 4) + Le(rlen, 4) + Le(wlen, 4)
  }

  function BatchHeader(kind: Kind, ops: seq<Op>): (s: seq<byte>)
    ensures |s| == 16
  {
    SumUpHeader(kind.Group(), |ops|, ReadLength(kind, ops), WriteLength(kind, ops))
  }

  /** The payload of the batch: one header, then all sub-request headers, then all data. */
  function Batch(kind: Kind, ops: seq<Op>): seq<byte> {
    BatchHeader(kind, ops) + (Flatten(Headers(kind, ops)) + Flatten(Bodies(kind, ops)))
  }

  // ----- what a server takes out of a batch

  /** Where the header of a sub-request announces the length of its data. */
  function DataLength(kind: Kind, header: seq<byte>): nat
    requires |header| == kind.HeaderSize()
  {
    match kind
    case Reads => 0
    case Writes => U32(header[8..12])
    case WriteReads => U32(header[12..16])
  }

  /** The server's loop: each sub-request is the next header plus the next stretch of data. */
  function Unpack(kind: Kind, n: nat, headers: seq<byte>, data: seq<byte>): Option<seq<seq<byte>>> {
    var h := kind.HeaderSize();
    if n == 0 then Some([])
    else if |headers| < h then None
    else
      var wlen := DataLength(kind, headers[..h]);
      if |data| < wlen then None
      else
        match Unpack(kind, n - 1, headers[h..], data[wlen..])
        case None => None
        case Some(rest) => Some([headers[..h] + data[..wlen]] + rest)
  }

  /** A server reads the number of sub-requests off the batch header; the data area starts after
      that many sub-request headers. */
  function UnpackBatch(kind: Kind, batch: seq<byte>): Option<seq<seq<byte>>>
    requires |batch| >= 16
  {
    var n := U32(batch[4..8]);
    var woff := kind.HeaderAt(n);
    if woff > |batch| then None else Unpack(kind, n, batch[16..woff], batch[woff..])
  }

  // ----- no length is truncated

  lemma {:induction false} LengthsFit(kind: Kind, ops: seq<Op>, i: nat)
    requires i < |ops|
    ensures |ops| <= WriteLength(kind, ops)
    ensures |Body(kind, ops[i])| <= WriteLength(kind, ops)
    ensures kind.ReadRoom(ops[i]) <= ReadLength(kind, ops)
    decreases |ops|
  {
    var init := ops[..|ops| - 1];
    if i < |init| {
      LengthsFit(kind, init, i);
    } else if |init| > 0 {
      LengthsFit(kind, init, 0);
    }
  }

  lemma {:induction false} BatchCount(kind: Kind, ops: seq<Op>)
    requires |ops| < U32_LIMIT
    ensures U32(BatchHeader(kind, ops)[4..8]) == |ops|
  {
    hide Bytes.Le, Bytes.Unle;
    U32Field(|ops|);
    assert BatchHeader(kind, ops)[4..8] == Le(|ops|, 4);
  }

  lemma {:induction false} ThirdField(a: seq<byte>, b: seq<byte>, c: seq<byte>)
    requires |a| == 4 && |b| == 4 && |c| >= 4
    ensures (a + b + c)[8..12] == c[..4]
  {
  }

  lemma {:induction false} HeaderReadLength(kind: Kind, op: Op)
    requires !kind.Writes? && op.rlen < U32_LIMIT
    ensures U32(Header(kind, op)[8..12]) == op.rlen
  {
    hide Bytes.Le, Bytes.Unle;
    U32Field(op.rlen);
    assert Le(op.rlen, 4)[..4] == Le(op.rlen, 4);
    var g, o, l := Le(op.group, 4), Le(op.offset, 4), Le(op.rlen, 4);
    if kind.Reads? {
      ThirdField(g, o, l);
    } else {
      ThirdField(g, o, l + Le(|op.wdata|, 4));
    }
  }

  lemma {:induction false} HeaderWriteLength(kind: Kind, op: Op)
    requires |Body(kind, op)| < U32_LIMIT
    ensures DataLength(kind, Header(kind, op)) == |Body(kind, op)|
  {
    hide Bytes.Le, Bytes.Unle;
    var g, o, l := Le(op.group, 4), Le(op.offset, 4), Le(|op.wdata|, 4);
    match kind
    case Reads =>
    case Writes =>
      U32Field(|op.wdata|);
      ThirdField(g, o, l);
      assert l[..4] == l;
    case WriteReads =>
      U32Field(|op.wdata|);
      assert (g + o + (Le(op.rlen, 4) + l))[12..16] == l;
  }

  /** Once the checked sums pass, every four-byte length field on the wire is the true length. */
  lemma {:induction false} NoTruncatedLength(kind: Kind, ops: seq<Op>, i: nat)
    requires Fits(kind, ops) && i < |ops|
    ensures U32(BatchHeader(kind, ops)[4..8]) == |ops|
    ensures DataLength(kind, Header(kind, ops[i])) == |Body(kind, ops[i])|
    ensures !kind.Writes? ==> U32(Header(kind, ops[i])[8..12]) == ops[i].rlen
  {
    LengthsFit(kind, ops, i);
    BatchCount(kind, ops);
    HeaderWriteLength(kind, ops[i]);
    if !kind.Writes? {
      HeaderReadLength(kind, ops[i]);
    }
  }

  /** What a server reads out of a request of that kind (`IndexLength` or `IndexLengthRW`, then data). */
  function Decode(kind: Kind, request: seq<byte>): Op
    requires |request| >= kind.HeaderSize()
  {
    Op(U32(request[..4]), U32(request[4..8]), if kind.Writes? then 0 else U32(request[8..12]),
       request[kind.HeaderSize()..])
  }

  lemma {:induction false} AddressFields(g: u32, o: u32, rest: seq<byte>)
    ensures var s := Le(g, 4) + Le(o, 4) + rest;
      U32(s[..4]) == g && U32(s[4..8]) == o
  {
    U32Field(g); U32Field(o);
    hide Bytes.Le, Bytes.Unle;
    var s := Le(g, 4) + Le(o, 4) + rest;
    assert s[..4] == Le(g, 4) && s[4..8] == Le(o, 4);
  }

  /** A request means to the server the address, read size and data of the operation. */
  lemma {:induction false} SingleDecodes(kind: Kind, op: Op)
    requires kind.ReadRoom(op) < U32_LIMIT
    ensures Decode(kind, Single(kind, op)) == Op(op.group, op.offset, kind.ReadRoom(op), Body(kind, op))
  {
    var h, b := Header(kind, op), Body(kind, op);
    TakeBack(h, b);
    assert (h + b)[..4] == h[..4] && (h + b)[4..8] == h[4..8] && (h + b)[8..12] == h[8..12];
    var len := if kind.Reads? then Le(op.rlen, 4) else if kind.Writes? then Le(|op.wdata|, 4)
               else Le(op.rlen, 4) + Le(|op.wdata|, 4);
    AddressFields(op.group, op.offset, len);
    if !kind.Writes? {
      HeaderReadLength(kind, op);
    }
  }

  /** The same in the bytes of the request: where each number lies, and the data behind them. */
  lemma {:induction false} SingleFields(kind: Kind, op: Op)
    requires op.rlen < U32_LIMIT && |op.wdata| < U32_LIMIT
    ensures var s := Single(kind, op);
      && |s| >= 12 && U32(s[..4]) == op.group && U32(s[4..8]) == op.offset
      && match kind
         case Reads => |s| == 12 && U32(s[8..12]) == op.rlen
         case Writes => U32(s[8..12]) == |op.wdata| && s[12..] == op.wdata
         case WriteReads => |s| >= 16 && U32(s[8..12]) == op.rlen && U32(s[12..16]) == |op.wdata| && s[16..] == op.wdata
  {
    var h, b := Header(kind, op), Body(kind, op);
    SingleDecodes(kind, op);
    HeaderWriteLength(kind, op);
    hide Header, Bytes.Unle;
    TakeBack(h, b);
    assert (h + b)[8..12] == h[8..12];
    if kind.WriteReads? {
      assert (h + b)[12..16] == h[12..16];
    }
  }

  /** The codes of the notification sum-ups. */
  lemma {:induction false} NotificationHeaders(count: u32, rlen: u32, wlen: u32)
    ensures var a, d := SumUpHeader(SUMUP_ADDDEVNOTE, count, rlen, wlen), SumUpHeader(SUMUP_DELDEVNOTE, count, rlen, wlen);
      && U32(a[..4]) == 0xF085 && U32(d[..4]) == 0xF086 && a[4..] == d[4..]
      && U32(a[4..8]) == count && U32(a[8..12]) == rlen && U32(a[12..]) == wlen
  {
    hide Bytes.Le, Bytes.Unle;
    FourFields(0xF085, count, rlen, wlen);
    FourFields(0xF086, count, rlen, wlen);
  }

  lemma {:induction false} FourFields(a: u32, b: u32, c: u32, d: u32)
    ensures var h := Le(a, 4) + Le(b, 4) + Le(c, 4) + Le(d, 4);
      U32(h[..4]) == a && U32(h[4..8]) == b && U32(h[8..12]) == c && U32(h[12..]) == d
  {
    hide Bytes.Le, Bytes.Unle;
    U32Field(a); U32Field(b); U32Field(c); U32Field(d);
    var h := Le(a, 4) + Le(b, 4) + Le(c, 4) + Le(d, 4);
    assert h[..4] == Le(a, 4) && h[4..8] == Le(b, 4) && h[8..12] == Le(c, 4) && h[12..] == Le(d, 4);
  }

  /** The header of the batch: the function code, the number of sub-requests, and both total sizes. */
  lemma {:induction false} BatchHeaderDecodes(kind: Kind, ops: seq<Op>)
    requires Fits(kind, ops)
    ensures var h := BatchHeader(kind, ops);
      && U32(h[..4]) == (match kind case Reads => 0xF083 case Writes => 0xF081 case WriteReads => 0xF082)
      && U32(h[4..8]) == |ops|
      && U32(h[8..12]) == ReadLength(kind, ops) && U32(h[12..]) == WriteLength(kind, ops)
      && WriteLength(kind, ops) == |Batch(kind, ops)| - 16
  {
    hide Bytes.Le, Bytes.Unle, ReadLength, WriteLength, Headers, Bodies, Bytes.Flatten;
    CountFits(kind, ops);
    BodyArea(kind, ops);
    FourFields(kind.Group(), |ops|, ReadLength(kind, ops), WriteLength(kind, ops));
  }

  /** The announced write length is the size of everything behind the batch header. */
  lemma {:induction false} BodyArea(kind: Kind, ops: seq<Op>)
    ensures WriteLength(kind, ops) == |Flatten(Headers(kind, ops))| + |Flatten(Bodies(kind, ops))|
  {
    hide Header, Body;
    if ops != [] {
      var n := |ops| - 1;
      BodyArea(kind, ops[..n]);
      var hs, bs := Headers(kind, ops), Bodies(kind, ops);
      assert hs[..n] == Headers(kind, ops[..n]) && bs[..n] == Bodies(kind, ops[..n]);
      FlattenSnoc(hs, n);
      FlattenSnoc(bs, n);
      assert hs[..n + 1] == hs && bs[..n + 1] == bs;
    }
  }

  // ----- packing and unpacking

  lemma {:induction false} UnpackOne(kind: Kind, n: nat, h: seq<byte>, hs: seq<byte>, b: seq<byte>, bs: seq<byte>)
    requires n > 0 && |h| == kind.HeaderSize() && DataLength(kind, h) == |b|
    requires Unpack(kind, n - 1, hs, bs).Some?
    ensures Unpack(kind, n, h + hs, b + bs) == Some([h + b] + Unpack(kind, n - 1, hs, bs).value)
  {
    TakeBack(h, hs);
    TakeBack(b, bs);
  }

  function Joined(hs: seq<seq<byte>>, bs: seq<seq<byte>>): (ss: seq<seq<byte>>)
    requires |hs| == |bs|
    ensures |ss| == |hs| && forall i :: 0 <= i < |hs| ==> ss[i] == hs[i] + bs[i]
  {
    seq(|hs|, i requires 0 <= i < |hs| => hs[i] + bs[i])
  }

  lemma {:induction false} UnpackParts(kind: Kind, hs: seq<seq<byte>>, bs: seq<seq<byte>>)
    requires |hs| == |bs|
    requires forall k :: 0 <= k < |hs| ==> |hs[k]| == kind.HeaderSize() && DataLength(kind, hs[k]) == |bs[k]|
    ensures Unpack(kind, |hs|, Flatten(hs), Flatten(bs)) == Some(Joined(hs, bs))
  {
    if hs != [] {
      UnpackParts(kind, hs[1..], bs[1..]);
      UnpackOne(kind, |hs|, hs[0], Flatten(hs[1..]), bs[0], Flatten(bs[1..]));
      assert Joined(hs, bs) == [hs[0] + bs[0]] + Joined(hs[1..], bs[1..]);
    }
  }

  lemma {:induction false} HeadersLength(kind: Kind, ops: seq<Op>)
    ensures 16 + |Flatten(Headers(kind, ops))| == kind.HeaderAt(|ops|)
  {
    if ops != [] {
      HeadersLength(kind, ops[1..]);
      assert Headers(kind, ops)[1..] == Headers(kind, ops[1..]);
    }
  }

  lemma {:induction false} CountFits(kind: Kind, ops: seq<Op>)
    requires Fits(kind, ops)
    ensures |ops| < U32_LIMIT
    ensures U32(Batch(kind, ops)[4..8]) == |ops|
  {
    hide Bytes.Le, Bytes.Unle;
    if |ops| > 0 {
      LengthsFit(kind, ops, 0);
    }
    BatchCount(kind, ops);
    assert Batch(kind, ops)[4..8] == BatchHeader(kind, ops)[4..8];
  }

  lemma {:induction false} Areas(a: seq<byte>, h: seq<byte>, b: seq<byte>, n: nat)
    requires n == |a| + |h|
    ensures (a + (h + b))[|a|..n] == h && (a + (h + b))[n..] == b
  {
  }

  /** A server recovers from the batch exactly the payloads the operations would have sent singly,
      in order. */
  lemma {:induction false} BatchUnpacks(kind: Kind, ops: seq<Op>)
    requires Fits(kind, ops)
    ensures UnpackBatch(kind, Batch(kind, ops)) == Some(Singles(kind, ops))
  {
    var hs, bs := Headers(kind, ops), Bodies(kind, ops);
    forall k | 0 <= k < |ops|
      ensures DataLength(kind, hs[k]) == |bs[k]|
    {
      NoTruncatedLength(kind, ops, k);
    }
    UnpackParts(kind, hs, bs);
    assert Joined(hs, bs) == Singles(kind, ops);
    CountFits(kind, ops);
    HeadersLength(kind, ops);
    Areas(BatchHeader(kind, ops), Flatten(hs), Flatten(bs), kind.HeaderAt(|ops|));
  }
}
