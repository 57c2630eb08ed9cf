/**
 AMS addresses, the 38-byte AMS/TCP + AMS header, the frame of an outgoing request and the
 validation of an incoming reply (src/client.rs, `AdsHeader` and `communicate`).
 */
module Ams {
  import opened Bytes

  type NetId = s: seq<byte> | |s| == 6 witness [0, 0, 0, 0, 0, 0]

  datatype AmsAddr = AmsAddr(netid: NetId, port: u16)

  const LOCAL_NETID: NetId := [127, 0, 0, 1, 1, 1]

  const AMS_HEADER_SIZE := 32
  const ADS_HEADER_SIZE := 38
  const U32_LIMIT := 0x1_0000_0000

  const CMD_READ: u16 := 2
  const CMD_WRITE: u16 := 3
  const CMD_ADD_NOTIFICATION: u16 := 6
  const CMD_DELETE_NOTIFICATION: u16 := 7
  const CMD_NOTIFICATION: u16 := 8
  const CMD_READ_WRITE: u16 := 9

  datatype AdsHeader = AdsHeader(
    amsCmd: u16, length: u32, dest: AmsAddr, src: AmsAddr, command: u16, stateFlags: u16,
    dataLength: u32, errorCode: u32, invokeId: u32)

  function EncodeAddr(a: AmsAddr): (s: seq<byte>)
    ensures |s| == 8
  {
    a.netid + Le(a.port, 2)
  }

  function DecodeAddr(s: seq<byte>): AmsAddr
    requires |s| == 8
  {
    AmsAddr(s[..6], U16(s[6..]))
  }

  function EncodeRouting(h: AdsHeader): (s: seq<byte>)
    ensures |s| == 22
  {
    Le(h.amsCmd, 2) + Le(h.length, 4) + EncodeAddr(h.dest) + EncodeAddr(h.src)
  }

  function EncodeCommand(h: AdsHeader): (s: seq<byte>)
    ensures |s| == 16
  {
    Le(h.command, 2) + Le(h.stateFlags, 2) + Le(h.dataLength, 4) + Le(h.errorCode, 4) + Le(h.invokeId, 4)
  }

  function EncodeHeader(h: AdsHeader): (s: seq<byte>)
    ensures |s| == ADS_HEADER_SIZE
  {
    EncodeRouting(h) + EncodeCommand(h)
  }

  function DecodeHeader(s: seq<byte>): AdsHeader
    requires |s| == ADS_HEADER_SIZE
  {
    AdsHeader(U16(s[..2]), U32(s[2..6]), DecodeAddr(s[6..14]), DecodeAddr(s[14..22]), U16(s[22..24]),
              U16(s[24..26]), U32(s[26..30]), U32(s[30..34]), U32(s[34..38]))
  }

  lemma {:induction false} AddrRoundTrip(a: AmsAddr)
    ensures DecodeAddr(EncodeAddr(a)) == a
  {
    U16Back(a.port, []);
    assert EncodeAddr(a)[6..] == Le(a.port, 2) + [];
    assert (Le(a.port, 2) + [])[..2] == EncodeAddr(a)[6..];
  }

  lemma {:induction false} AddrRoundTripBytes(s: seq<byte>)
    requires |s| == 8
    ensures EncodeAddr(DecodeAddr(s)) == s
  {
    LeUnle(s[6..]);
  }

  lemma {:induction false} U16Field(v: u16)
    ensures U16(Le(v, 2)) == v
  {
    UnleLe(v, 2); Pow256Values();
  }

  lemma {:induction false} U32Field(v: u32)
    ensures U32(Le(v, 4)) == v
  {
    UnleLe(v, 4); Pow256Values();
  }

  lemma {:induction false} RoutingFields(h: AdsHeader)
    ensures var s := EncodeRouting(h);
      && s[..2] == Le(h.amsCmd, 2) && s[2..6] == Le(h.length, 4)
      && s[6..14] == EncodeAddr(h.dest) && s[14..22] == EncodeAddr(h.src)
  {
  }

  lemma {:induction false} CommandFields(h: AdsHeader)
    ensures var s := EncodeCommand(h);
      && s[..2] == Le(h.command, 2) && s[2..4] == Le(h.stateFlags, 2) && s[4..8] == Le(h.dataLength, 4)
      && s[8..12] == Le(h.errorCode, 4) && s[12..] == Le(h.invokeId, 4)
  {
    hide Bytes.Le;
  }

  lemma {:induction false} HeaderRoundTrip(h: AdsHeader)
    ensures DecodeHeader(EncodeHeader(h)) == h
  {
    var s, r, c := EncodeHeader(h), EncodeRouting(h), EncodeCommand(h);
    assert s[..2] == r[..2] && s[2..6] == r[2..6] && s[6..14] == r[6..14] && s[14..22] == r[14..22];
    assert s[22..24] == c[..2] && s[24..26] == c[2..4] && s[26..30] == c[4..8];
    assert s[30..34] == c[8..12] && s[34..38] == c[12..];
    RoutingFields(h); CommandFields(h);
    AddrRoundTrip(h.dest); AddrRoundTrip(h.src);
    U16Field(h.amsCmd); U32Field(h.length); U16Field(h.command); U16Field(h.stateFlags);
    U32Field(h.dataLength); U32Field(h.errorCode); U32Field(h.invokeId);
  }

  /** The place of every field in the 38 bytes. */
  lemma {:induction false} HeaderLayout(h: AdsHeader)
    ensures var s := EncodeHeader(h);
      && s[0..2] == Le(h.amsCmd, 2) && s[2..6] == Le(h.length, 4)
      && s[6..12] == h.dest.netid && s[12..14] == Le(h.dest.port, 2)
      && s[14..20] == h.src.netid && s[20..22] == Le(h.src.port, 2)
      && s[22..24] == Le(h.command, 2) && s[24..26] == Le(h.stateFlags, 2)
      && s[26..30] == Le(h.dataLength, 4) && s[30..34] == Le(h.errorCode, 4) && s[34..38] == Le(h.invokeId, 4)
  {
    hide Bytes.Le;
    var s, r, c := EncodeHeader(h), EncodeRouting(h), EncodeCommand(h);
    RoutingFields(h); CommandFields(h);
    assert s[0..2] == r[..2] && s[2..6] == r[2..6] && s[6..12] == r[6..14][..6] && s[12..14] == r[6..14][6..];
    assert s[14..20] == r[14..22][..6] && s[20..22] == r[14..22][6..];
    assert s[22..24] == c[..2] && s[24..26] == c[2..4] && s[26..30] == c[4..8];
    assert s[30..34] == c[8..12] && s[34..38] == c[12..];
  }

  /** The header of a request with this payload size. */
  function RequestHeader(source: AmsAddr, target: AmsAddr, cmd: u16, id: u32, payloadLen: nat): AdsHeader
    requires AMS_HEADER_SIZE + payloadLen < U32_LIMIT
  {
    AdsHeader(0, AMS_HEADER_SIZE + payloadLen, target, source, cmd, 4, payloadLen, 0, id)
  }

  /** The bytes a request puts on the socket, or the overflow error of the checked header length. */
  function RequestFrame(source: AmsAddr, target: AmsAddr, cmd: u16, id: u32, payload: seq<byte>): Result<seq<byte>> {
    if AMS_HEADER_SIZE + |payload| >= U32_LIMIT then Err(Overflow)
    else Ok(EncodeHeader(RequestHeader(source, target, cmd, id, |payload|)) + payload)
  }

  lemma {:induction false} EmptyFlatten(bufs: seq<seq<byte>>)
    ensures Flatten(bufs[..0]) == [] && bufs[..|bufs|] == bufs
  {
  }

  /** Assembling the outgoing frame out of the caller's input buffers. */
  method BuildRequest(source: AmsAddr, target: AmsAddr, cmd: u16, id: u32, payloadBufs: seq<seq<byte>>)
    returns (r: Result<seq<byte>>)
    ensures r == RequestFrame(source, target, cmd, id, Flatten(payloadBufs))
  {
    hide Bytes.Le, Bytes.Flatten, EncodeHeader;
    var payloadLen: nat := 0;
    EmptyFlatten(payloadBufs);
    forall i | 0 <= i < |payloadBufs|
      ensures Flatten(payloadBufs[..i + 1]) == Flatten(payloadBufs[..i]) + payloadBufs[i]
    {
      FlattenSnoc(payloadBufs, i);
    }
    for i := 0 to |payloadBufs|
      invariant payloadLen == |Flatten(payloadBufs[..i])|
    {
      payloadLen := payloadLen + |payloadBufs[i]|;
    }
    assert payloadBufs[..|payloadBufs|] == payloadBufs;
    if AMS_HEADER_SIZE + payloadLen >= U32_LIMIT {
      return Err(Overflow);
    }
    var header := EncodeHeader(RequestHeader(source, target, cmd, id, payloadLen));
    var request := header;
    for i := 0 to |payloadBufs|
      invariant request == header + Flatten(payloadBufs[..i])
    {
      request := request + payloadBufs[i];
    }
    return Ok(request);
  }

  /** A frame that reaches the socket announces its true size, twice, and carries the payload. */
  lemma {:induction false} FrameLengthsAreTrue(source: AmsAddr, target: AmsAddr, cmd: u16, id: u32, payload: seq<byte>)
    ensures RequestFrame(source, target, cmd, id, payload).Ok? <==> |payload| + 32 < 0x1_0000_0000
    ensures RequestFrame(source, target, cmd, id, payload).Ok? ==>
      var f := RequestFrame(source, target, cmd, id, payload).value;
      && |f| == 38 + |payload| && f[38..] == payload
      && U32(f[2..6]) == |f| - 6
      && U32(f[26..30]) == |payload|
      && DecodeHeader(f[..38]) == AdsHeader(0, 32 + |payload|, target, source, cmd, 4, |payload|, 0, id)
  {
    if RequestFrame(source, target, cmd, id, payload).Ok? {
      var h := RequestHeader(source, target, cmd, id, |payload|);
      var f := EncodeHeader(h) + payload;
      TakeBack(EncodeHeader(h), payload);
      HeaderRoundTrip(h);
      assert f[2..6] == f[..38][2..6] && f[26..30] == f[..38][26..30];
      assert DecodeHeader(f[..38]).length == U32(f[2..6]);
      assert DecodeHeader(f[..38]).dataLength == U32(f[26..30]);
    }
  }

  /** The checks of `communicate` on a reply, in order; a payload too short for a result panics. */
  function CheckReply(target: AmsAddr, cmd: u16, id: u32, h: AdsHeader, payload: seq<byte>): Result<()> {
    if h.src != target then Err(Reply(WrongSource, 0))
    else if h.command != cmd then Err(Reply(WrongCommand, h.command))
    else if h.stateFlags != 5 then Err(Reply(WrongStateFlags, h.stateFlags))
    else if h.invokeId != id then Err(Reply(WrongInvokeId, h.invokeId))
    else if h.errorCode != 0 then Err(Ads(h.errorCode))
    else if |payload| < 4 then Err(Panic)
    else if U32(payload[..4]) != 0 then Err(Ads(U32(payload[..4])))
    else Ok(())
  }

  /** What is reported of a reply that does not belong to the request: the first field that differs. */
  lemma {:induction false} ReplyRefusedIff(target: AmsAddr, cmd: u16, id: u32, h: AdsHeader, payload: seq<byte>)
    ensures var r := CheckReply(target, cmd, id, h, payload);
      && (r == Err(Reply(WrongSource, 0)) <==> h.src != target)
      && (r == Err(Reply(WrongCommand, h.command)) <==> h.src == target && h.command != cmd)
      && (r == Err(Reply(WrongStateFlags, h.stateFlags)) <==> h.src == target && h.command == cmd && h.stateFlags != 5)
      && (r == Err(Reply(WrongInvokeId, h.invokeId)) <==>
            h.src == target && h.command == cmd && h.stateFlags == 5 && h.invokeId != id)
  {
    hide Bytes.Unle;
  }

  /** A reply that does belong to it is reported as an ADS error exactly with the code of its header, or,
      if that is zero, the code at the start of its payload. */
  lemma {:induction false} ReplyErrorIff(target: AmsAddr, cmd: u16, id: u32, h: AdsHeader, payload: seq<byte>, code: u32)
    ensures CheckReply(target, cmd, id, h, payload) == Err(Ads(code)) <==>
      && h.src == target && h.command == cmd && h.stateFlags == 5 && h.invokeId == id
      && code != 0 && (h.errorCode == code || (h.errorCode == 0 && Le(code, 4) <= payload))
  {
    U32Field(code);
    if |payload| >= 4 {
      LeUnle(payload[..4]);
      hide Bytes.Le, Bytes.Unle;
      assert Le(code, 4) <= payload <==> payload[..4] == Le(code, 4);
    }
  }

  /** The caller panics exactly on an answer without error that is too short for its result field. */
  lemma {:induction false} ReplyPanicsIff(target: AmsAddr, cmd: u16, id: u32, h: AdsHeader, payload: seq<byte>)
    ensures CheckReply(target, cmd, id, h, payload) == Err(Panic) <==>
      && h.src == target && h.command == cmd && h.stateFlags == 5 && h.invokeId == id
      && h.errorCode == 0 && |payload| < 4
  {
    hide Bytes.Unle;
  }

  /** A reply is accepted exactly when it answers the request from its target and reports no error. */
  lemma {:induction false} AcceptedReply(target: AmsAddr, cmd: u16, id: u32, h: AdsHeader, payload: seq<byte>)
    ensures CheckReply(target, cmd, id, h, payload).Ok? <==>
      && h.src == target && h.command == cmd && h.stateFlags == 5 && h.invokeId == id
      && h.errorCode == 0 && Le(0, 4) <= payload
  {
    U32Field(0);
    if |payload| >= 4 {
      LeUnle(payload[..4]);
      assert Le(0, 4) <= payload <==> payload[..4] == Le(0, 4);
    }
  }
}
