/**
 The UDP message protocol (src/udp.rs): a builder that appends tagged items, and the parser that
 finds them again.
 */
module Udp {
  import opened Bytes
  import opened Ams

  const MAGIC: u32 := 0x71146603
  const HEADER_SIZE := 24

  /** A tag and its data, as a caller adds them. */
  datatype Tagged = Tagged(tag: u16, payload: seq<byte>)

  /** A tag and where the message says its data lies. */
  datatype Item = Item(tag: u16, start: nat, end: nat)

  /** The content of a `Message`. */
  datatype Packet = Packet(items: seq<Item>, data: seq<byte>)

  // ----- the format

  function EncodeUdpHeader(service: u32, source: AmsAddr, count: nat): (s: seq<byte>)
    ensures |s| == HEADER_SIZE
  {
    Le(MAGIC, 4) + (Le(0, 4) + (Le(service, 4) + (EncodeAddr(source) + Le(count, 4))))
  }

  /** The length field keeps the low 16 bits of the length (`as u16`). */
  function EncodeTag(t: Tagged): seq<byte> {
    Le(t.tag, 2) + (Le(|t.payload|, 2) + t.payload)
  }

  function EncodeTags(ts: seq<Tagged>): seq<byte> {
    if ts == [] then [] else EncodeTags(ts[..|ts| - 1]) + EncodeTag(ts[|ts| - 1])
  }

  function Encode(service: u32, source: AmsAddr, ts: seq<Tagged>): (s: seq<byte>)
    ensures |s| >= HEADER_SIZE
  {
    EncodeUdpHeader(service, source, |ts|) + EncodeTags(ts)
  }

  // ----- the getters

  /** The item list entry of the first item with that tag. */
  function FirstItem(items: seq<Item>, tag: u16): Option<Item> {
    if items == [] then None
    else if items[0].tag == tag then Some(items[0])
    else FirstItem(items[1..], tag)
  }

  /** `map_tag` with the identity, that is `get_bytes`; an item range outside the data panics. */
  function GetBytes(p: Packet, tag: u16): Result<Option<seq<byte>>> {
    match FirstItem(p.items, tag)
    case None => Ok(None)
    case Some(Item(_, i, j)) => if i <= j <= |p.data| then Ok(Some(p.data[i..j])) else Err(Panic)
  }

  /** `get_u32`: the first four bytes, if there are that many. */
  function GetU32(p: Packet, tag: u16): Result<Option<u32>> {
    var b :- GetBytes(p, tag);
    Ok(if b.Some? && |b.value| >= 4 then Some(U32(b.value[..4])) else None)
  }

  /** `get_str` up to UTF-8 validation: all but the last byte; empty data panics. */
  function GetStr(p: Packet, tag: u16): Result<Option<seq<byte>>> {
    var b :- GetBytes(p, tag);
    if b.Some? && b.value == [] then Err(Panic)
    else Ok(if b.Some? then Some(b.value[..|b.value| - 1]) else None)
  }

  function GetSource(p: Packet): AmsAddr
    requires |p.data| >= HEADER_SIZE
  {
    DecodeAddr(p.data[12..20])
  }

  // ----- the builder

  /** The builder's item list: its ranges start at the length field, two bytes before the data. */
  function BuilderItems(ts: seq<Tagged>): seq<Item> {
    if ts == [] then []
    else
      var init, t := ts[..|ts| - 1], ts[|ts| - 1];
      var start := HEADER_SIZE + |EncodeTags(init)| + 2;
      BuilderItems(init) + [Item(t.tag, start, start + 2 + |t.payload|)]
  }

  class Message {
    var items: seq<Item>
    var data: seq<byte>
    ghost const service: u32
    ghost const source: AmsAddr
    ghost var tags: seq<Tagged>

    ghost predicate Valid()
      reads this
    {
      data == Encode(service, source, tags) && items == BuilderItems(tags) && |items| == |tags|
    }

    constructor (service: u32, source: AmsAddr)
      ensures Valid() && tags == [] && this.service == service && this.source == source
    {
      this.service, this.source := service, source;
      items, tags := [], [];
      data := EncodeUdpHeader(service, source, 0) + [];
    }

    method AddBytes(tag: u16, payload: seq<byte>)
      requires Valid()
      modifies this
      ensures Valid() && tags == old(tags) + [Tagged(tag, payload)]
    {
      hide Bytes.Le, Encode, BuilderItems;
      data := data + Le(tag, 2);
      var start := |data|;
      data := data + Le(|payload|, 2);
      data := data + payload;
      items := items + [Item(tag, start, |data|)];
      data := data[..20] + Le(|items|, 4) + data[24..];
      Appended(service, source, tags, Tagged(tag, payload), data);
      tags := tags + [Tagged(tag, payload)];
    }

    /** Adds the text and its terminating null.  The length is computed in 16 bits and panics when
        that overflows. */
    method AddStr(tag: u16, text: seq<byte>) returns (ok: bool)
      requires Valid()
      modifies this
      ensures ok <==> |text| % 0x1_0000 != 0xFFFF
      ensures ok ==> Valid() && tags == old(tags) + [Tagged(tag, text + [0])]
    {
      hide Bytes.Le, Encode, BuilderItems;
      data := data + Le(tag, 2);
      var start := |data|;
      if |text| % 0x1_0000 == 0xFFFF {
        return false;
      }
      data := data + Le(|text| % 0x1_0000 + 1, 2);
      data := data + text;
      data := data + [0];
      items := items + [Item(tag, start, |data|)];
      data := data[..20] + Le(|items|, 4) + data[24..];
      ghost var t := Tagged(tag, text + [0]);
      LowBytes(|text|);
      ghost var d := Encode(service, source, tags) + Le(tag, 2) + Le(|t.payload|, 2);
      assert d + text + [0] == d + (text + [0]);
      Appended(service, source, tags, t, data);
      tags := tags + [t];
      ok := true;
    }

    method AddU32(tag: u16, value: u32)
      requires Valid()
      modifies this
      ensures Valid() && tags == old(tags) + [Tagged(tag, Le(value, 4))]
    {
      hide Bytes.Le, Encode, BuilderItems;
      data := data + Le(tag, 2);
      var start := |data|;
      data := data + Le(4, 2);
      data := data + Le(value, 4);
      assert |Le(value, 4)| == 4;
      items := items + [Item(tag, start, |data|)];
      data := data[..20] + Le(|items|, 4) + data[24..];
      Appended(service, source, tags, Tagged(tag, Le(value, 4)), data);
      tags := tags + [Tagged(tag, Le(value, 4))];
    }
  }

  /** The 16-bit length of a string with its null is the low half of the true length. */
  lemma {:induction false} LowBytes(n: nat)
    requires n % 0x1_0000 != 0xFFFF
    ensures Le(n % 0x1_0000 + 1, 2) == Le(n + 1, 2)
  {
    var a, q := n % 0x1_0000 + 1, n / 0x1_0000;
    assert n + 1 == a + 256 * (256 * q);
    DropHigh(a, 256 * q);
    DropHigh(a / 256, q);
    assert Le(a, 2)[1..] == Le(a / 256, 1) && Le(n + 1, 2)[1..] == Le((n + 1) / 256, 1);
  }

  lemma {:induction false} DropHigh(a: nat, k: nat)
    ensures (a + 256 * k) % 256 == a % 256 && (a + 256 * k) / 256 == a / 256 + k
  {
  }

  lemma {:induction false} PatchCount(service: u32, source: AmsAddr, n: nat, m: nat, tail: seq<byte>)
    ensures var old_ := EncodeUdpHeader(service, source, n) + tail;
      old_[..20] + Le(m, 4) + old_[24..] == EncodeUdpHeader(service, source, m) + tail
  {
    hide Bytes.Le, Ams.EncodeAddr;
  }

  /** Appending an item and patching the count gives the encoding of the longer list. */
  lemma {:induction false} AppendedData(service: u32, source: AmsAddr, ts: seq<Tagged>, t: Tagged)
    ensures var d := Encode(service, source, ts) + Le(t.tag, 2) + Le(|t.payload|, 2) + t.payload;
      d[..20] + Le(|ts| + 1, 4) + d[24..] == Encode(service, source, ts + [t])
  {
    hide Bytes.Le, EncodeUdpHeader;
    assert (ts + [t])[..|ts|] == ts;
    var h, e, l, m := EncodeUdpHeader(service, source, |ts|), EncodeTags(ts), Le(t.tag, 2), Le(|t.payload|, 2);
    assert h + e + l + m + t.payload == h + (e + (l + (m + t.payload)));
    PatchCount(service, source, |ts|, |ts| + 1, e + EncodeTag(t));
  }

  lemma {:induction false} Appended(service: u32, source: AmsAddr, ts: seq<Tagged>, t: Tagged, data: seq<byte>)
    requires var d := Encode(service, source, ts) + Le(t.tag, 2) + Le(|t.payload|, 2) + t.payload;
      data == d[..20] + Le(|ts| + 1, 4) + d[24..]
    ensures data == Encode(service, source, ts + [t])
    ensures BuilderItems(ts + [t])
         == BuilderItems(ts) + [Item(t.tag, |Encode(service, source, ts)| + 2, |Encode(service, source, ts)| + 4 + |t.payload|)]
  {
    hide Bytes.Le, EncodeUdpHeader, EncodeTag;
    AppendedData(service, source, ts, t);
    assert (ts + [t])[..|ts|] == ts;
  }

  // ----- the parser

  /** The item loop: it ends when less than a tag is left; a length past the end panics. */
  function ParseItems(p: seq<byte>, pos: nat): Result<seq<Item>>
    decreases |p|
  {
    if |p| < 2 then Ok([])
    else
      var (tag, p1) :- ReadU16(p);
      var (len, p2) :- ReadU16(p1);
      if len > |p2| then Err(Panic)
      else
        var rest :- ParseItems(p2[len..], pos + len + 4);
        Ok([Item(tag, pos, pos + len)] + rest)
  }

  function Parse(data: seq<byte>, service: u32): Result<Packet> {
    var (magic, p) :- ReadU32(data);
    var (invokeId, p) :- ReadU32(p);
    var (got, p) :- ReadU32(p);
    if magic != MAGIC then Err(Reply(BadMagic, magic))
    else if invokeId != 0 then Err(Reply(WrongInvokeId, invokeId))
    else if got != service then Err(Reply(BadService, got))
    else
      var (_, p) :- Take(p, 8);
      var (_, p) :- ReadU32(p);
      var items :- ParseItems(p, 28);
      Ok(Packet(items, data))
  }

  /** `parse_internal`. */
  method ParseInternal(data: seq<byte>, service: u32) returns (r: Result<Packet>)
    ensures r == Parse(data, service)
  {
    hide Bytes.Unle;
    var magic :- ReadU32(data);
    var invokeId :- ReadU32(magic.1);
    var got :- ReadU32(invokeId.1);
    if magic.0 != MAGIC {
      return Err(Reply(BadMagic, magic.0));
    }
    if invokeId.0 != 0 {
      return Err(Reply(WrongInvokeId, invokeId.0));
    }
    if got.0 != service {
      return Err(Reply(BadService, got.0));
    }
    var src :- Take(got.1, 8);
    var nitems :- ReadU32(src.1);
    var items := ItemLoop(nitems.1);
    if items.Err? {
      return Err(items.error);
    }
    r := Ok(Packet(items.value, data));
  }

  method ItemLoop(p: seq<byte>) returns (r: Result<seq<Item>>)
    ensures r == ParseItems(p, 28)
  {
    hide Bytes.Unle;
    var items: seq<Item> := [];
    var pos, ptr := 28, p;
    assert ParseItems(p, 28).Ok? ==> [] + ParseItems(p, 28).value == ParseItems(p, 28).value;
    while |ptr| >= 2
      invariant pos >= 0
      invariant ParseItems(p, 28) ==
        match ParseItems(ptr, pos) case Err(e) => Err(e) case Ok(rest) => Ok(items + rest)
      decreases |ptr|
    {
      var tag := U16(ptr[..2]);
      var len :- ReadU16(ptr[2..]);
      if len.0 > |len.1| {
        return Err(Panic);
      }
      ghost var rest := ParseItems(len.1[len.0..], pos + len.0 + 4);
      if rest.Ok? {
        assert items + ([Item(tag, pos, pos + len.0)] + rest.value) == items + [Item(tag, pos, pos + len.0)] + rest.value;
      }
      items := items + [Item(tag, pos, pos + len.0)];
      pos := pos + len.0 + 4;
      ptr := len.1[len.0..];
    }
    assert items + [] == items;
    r := Ok(items);
  }

  // ----- the round trip

  /** Every payload fits its 16-bit length field. */
  predicate Fits(ts: seq<Tagged>) {
    forall t :: t in ts ==> |t.payload| < 0x1_0000
  }

  /** What a parsed message holds: its tags, each with the bytes its range selects. */
  function Selected(p: Packet): seq<Tagged>
    requires forall i :: i in p.items ==> i.start <= i.end <= |p.data|
  {
    seq(|p.items|, k requires 0 <= k < |p.items| =>
      Tagged(p.items[k].tag, p.data[p.items[k].start..p.items[k].end]))
  }

  lemma {:induction false} EncodeTagsCons(ts: seq<Tagged>)
    requires ts != []
    ensures EncodeTags(ts) == EncodeTag(ts[0]) + EncodeTags(ts[1..])
  {
    hide EncodeTag, Bytes.Le;
    if |ts| == 1 {
      assert ts[..0] == [] && ts[1..] == [];
    } else {
      var init, t := ts[..|ts| - 1], ts[|ts| - 1];
      EncodeTagsSnoc(ts);
      EncodeTagsSnoc(ts[1..]);
      hide EncodeTags;
      assert init[1..] == ts[1..][..|ts| - 2];
      EncodeTagsCons(init);
      Assoc(EncodeTag(ts[0]), EncodeTags(init[1..]), EncodeTag(t));
    }
  }

  lemma {:induction false} EncodeTagsSnoc(ts: seq<Tagged>)
    requires ts != []
    ensures EncodeTags(ts) == EncodeTags(ts[..|ts| - 1]) + EncodeTag(ts[|ts| - 1])
  {
    hide EncodeTag;
  }

  /** The item list of a parsed message: ranges start after the length field. */
  function ParsedItems(ts: seq<Tagged>, pos: nat): seq<Item> {
    if ts == [] then []
    else [Item(ts[0].tag, pos, pos + |ts[0].payload|)] + ParsedItems(ts[1..], pos + |ts[0].payload| + 4)
  }

  lemma {:induction false} ParsedItemsCons(ts: seq<Tagged>, pos: nat)
    requires ts != []
    ensures var rest := ParsedItems(ts[1..], pos + |ts[0].payload| + 4);
      ParsedItems(ts, pos) == [Item(ts[0].tag, pos, pos + |ts[0].payload|)] + rest && |ParsedItems(ts, pos)| == |ts|
  {
    ItemCount(ts, pos);
  }

  lemma {:induction false} TagBack(t: Tagged, rest: seq<byte>)
    requires |t.payload| < 0x1_0000
    ensures var p := EncodeTag(t) + rest;
      && ReadU16(p) == Ok((t.tag, Le(|t.payload|, 2) + (t.payload + rest)))
      && ReadU16(Le(|t.payload|, 2) + (t.payload + rest)) == Ok((|t.payload|, t.payload + rest))
      && (t.payload + rest)[|t.payload|..] == rest && |p| >= 4
  {
    hide Bytes.Le, Bytes.Unle;
    assert EncodeTag(t) + rest == Le(t.tag, 2) + (Le(|t.payload|, 2) + (t.payload + rest));
    U16Back(t.tag, Le(|t.payload|, 2) + (t.payload + rest));
    U16Back(|t.payload|, t.payload + rest);
  }

  lemma {:induction false} ItemsBack(ts: seq<Tagged>, pos: nat)
    requires Fits(ts)
    ensures ParseItems(EncodeTags(ts), pos) == Ok(ParsedItems(ts, pos))
    decreases |ts|
  {
    hide Bytes.Le, EncodeTag, Bytes.ReadU16;
    if ts != [] {
      EncodeTagsCons(ts);
      TagBack(ts[0], EncodeTags(ts[1..]));
      ItemsBack(ts[1..], pos + |ts[0].payload| + 4);
    }
  }

  /** The ranges of the parsed items select the payloads. */
  lemma {:induction false} RangesSelect(front: seq<byte>, ts: seq<Tagged>, pos: nat, k: nat)
    requires |front| + 4 == pos && k < |ts|
    ensures |ParsedItems(ts, pos)| == |ts|
    ensures var data, item := front + EncodeTags(ts), ParsedItems(ts, pos)[k];
      && item.tag == ts[k].tag
      && item.start <= item.end <= |data| && data[item.start..item.end] == ts[k].payload
    decreases |ts|
  {
    hide Bytes.Le, ParsedItems, EncodeTags;
    ParsedItemsCons(ts, pos);
    EncodeTagsCons(ts);
    var front' := front + EncodeTag(ts[0]);
    assert front + EncodeTags(ts) == front' + EncodeTags(ts[1..]);
    if k == 0 {
      var l, m, rest := Le(ts[0].tag, 2), Le(|ts[0].payload|, 2), EncodeTags(ts[1..]);
      assert front + EncodeTags(ts) == (front + l + m) + (ts[0].payload + rest);
      MiddleSlice(front + l + m, ts[0].payload, rest);
    } else {
      RangesSelect(front', ts[1..], pos + |ts[0].payload| + 4, k - 1);
    }
  }

  lemma {:induction false} MiddleSlice(a: seq<byte>, b: seq<byte>, c: seq<byte>)
    ensures (a + (b + c))[|a|..|a| + |b|] == b
  {
  }

  lemma {:induction false} HeaderBack(service: u32, source: AmsAddr, count: nat, rest: seq<byte>)
    ensures var p := EncodeUdpHeader(service, source, count) + rest;
      && ReadU32(p) == Ok((MAGIC, p[4..])) && ReadU32(p[4..]) == Ok((0, p[8..])) && ReadU32(p[8..]) == Ok((service, p[12..]))
      && Take(p[12..], 8) == Ok((EncodeAddr(source), p[20..]))
      && ReadU32(p[20..]).Ok? && ReadU32(p[20..]).value.1 == rest
      && (count < U32_LIMIT ==> ReadU32(p[20..]).value.0 == count)
      && p[12..20] == EncodeAddr(source) && p[24..] == rest
  {
    hide Bytes.Le, Bytes.Unle, Ams.EncodeAddr;
    var p := EncodeUdpHeader(service, source, count) + rest;
    var t4 := Le(count, 4) + rest;
    var t3 := EncodeAddr(source) + t4;
    var t2 := Le(service, 4) + t3;
    var t1 := Le(0, 4) + t2;
    assert p == Le(MAGIC, 4) + t1;
    U32Back(MAGIC, t1); U32Back(0, t2); U32Back(service, t3);
    TakeBack(EncodeAddr(source), t4);
    TakeBack(Le(count, 4), rest);
    assert p[4..] == t1 && p[8..] == t1[4..] == t2 && p[12..] == t2[4..] == t3 && p[20..] == t3[8..] == t4;
    assert p[12..20] == t3[..8];
    if count < U32_LIMIT {
      U32Back(count, rest);
    }
  }

  /** Parsing a built message for the same service: the same tags in the same order, ranges that
      select exactly the payloads, the sender's address, and a true item count. */
  lemma {:induction false} BuiltParsesBack(service: u32, source: AmsAddr, ts: seq<Tagged>)
    requires Fits(ts)
    ensures var r := Parse(Encode(service, source, ts), service);
      && r.Ok? && r.value.data == Encode(service, source, ts)
      && (forall i :: i in r.value.items ==> i.start <= i.end <= |r.value.data|)
      && Selected(r.value) == ts
      && GetSource(r.value) == source
      && (|ts| < U32_LIMIT ==> U32(r.value.data[20..24]) == |ts|)
  {
    hide Bytes.Le, EncodeUdpHeader, EncodeTags, Bytes.ReadU32, Bytes.Unle, ParsedItems, ParseItems;
    var data := Encode(service, source, ts);
    var front := EncodeUdpHeader(service, source, |ts|);
    HeaderBack(service, source, |ts|, EncodeTags(ts));
    ItemsBack(ts, 28);
    AddrRoundTrip(source);
    var items := ParsedItems(ts, 28);
    assert |items| == |ts| by { ItemCount(ts, 28); }
    forall k | 0 <= k < |ts|
      ensures items[k].tag == ts[k].tag && items[k].start <= items[k].end <= |data|
      ensures data[items[k].start..items[k].end] == ts[k].payload
    {
      RangesSelect(front, ts, 28, k);
    }
    CountField(data);
  }

  lemma {:induction false} ItemCount(ts: seq<Tagged>, pos: nat)
    ensures |ParsedItems(ts, pos)| == |ts|
    decreases |ts|
  {
    if ts != [] {
      ItemCount(ts[1..], pos + |ts[0].payload| + 4);
    }
  }

  lemma {:induction false} CountField(data: seq<byte>)
    requires |data| >= 24
    ensures ReadU32(data[20..]).Ok? && ReadU32(data[20..]).value.0 == U32(data[20..24])
  {
    assert data[20..][..4] == data[20..24];
  }

  /** Parsed payloads always fit 16 bits, so a message comes back iff all its payloads do. */
  lemma {:induction false} ComesBackIffItFits(service: u32, source: AmsAddr, ts: seq<Tagged>)
    ensures var r := Parse(Encode(service, source, ts), service);
      Fits(ts) <==> r.Ok? && (forall i :: i in r.value.items ==> i.start <= i.end <= |r.value.data|) && Selected(r.value) == ts
  {
    hide Encode, Parse, Bytes.Le, Bytes.Unle;
    var r := Parse(Encode(service, source, ts), service);
    if Fits(ts) {
      BuiltParsesBack(service, source, ts);
    } else if r.Ok? && (forall i :: i in r.value.items ==> i.start <= i.end <= |r.value.data|) && Selected(r.value) == ts {
      var k :| 0 <= k < |ts| && |ts[k].payload| >= 0x1_0000;
      assert |ts| == |r.value.items| && ts[k] == Selected(r.value)[k];
      ParsedLength(Encode(service, source, ts), service, k);
      assert false;
    }
  }

  lemma {:induction false} ParsedLength(data: seq<byte>, service: u32, k: nat)
    requires Parse(data, service).Ok? && k < |Parse(data, service).value.items|
    ensures var i := Parse(data, service).value.items[k]; i.end - i.start < 0x1_0000
  {
    hide Bytes.Unle, ParseItems;
    ItemLength(data[4..][4..][4..][8..][4..], 28, k);
  }

  lemma {:induction false} ItemLength(p: seq<byte>, pos: nat, k: nat)
    requires ParseItems(p, pos).Ok? && k < |ParseItems(p, pos).value|
    ensures var i := ParseItems(p, pos).value[k]; i.end - i.start < 0x1_0000
    decreases |p|
  {
    hide Bytes.Unle;
    if k > 0 {
      var len := ReadU16(ReadU16(p).value.1).value;
      ItemLength(len.1[len.0..], pos + len.0 + 4, k - 1);
    }
  }

  // ----- what is refused

  /** A message is accepted only for the service it names, behind the magic number and an invoke id of zero. */
  lemma {:induction false} AcceptedHeader(data: seq<byte>, service: u32)
    requires Parse(data, service).Ok?
    ensures |data| >= 24 && data[..4] == Le(0x71146603, 4) && data[4..8] == Le(0, 4) && data[8..12] == Le(service, 4)
    ensures Parse(data, service).value.data == data
  {
    hide Bytes.Le, Bytes.Unle, ParseItems;
    LeUnle(data[..4]); LeUnle(data[4..8]); LeUnle(data[8..12]);
    assert data[4..][..4] == data[4..8] && data[4..][4..] == data[8..] && data[8..][..4] == data[8..12];
  }

  /** Any other header is refused by its first wrong number. */
  lemma {:induction false} RefusedHeader(magic: u32, id: u32, got: u32, service: u32, rest: seq<byte>)
    ensures var r := Parse(Le(magic, 4) + (Le(id, 4) + (Le(got, 4) + rest)), service);
      && (magic != 0x71146603 ==> r == Err(Reply(BadMagic, magic)))
      && (magic == 0x71146603 && id != 0 ==> r == Err(Reply(WrongInvokeId, id)))
      && (magic == 0x71146603 && id == 0 && got != service ==> r == Err(Reply(BadService, got)))
  {
    hide Bytes.Le, Bytes.Unle, ParseItems, Bytes.ReadU32;
    U32Back(magic, Le(id, 4) + (Le(got, 4) + rest));
    U32Back(id, Le(got, 4) + rest);
    U32Back(got, rest);
  }

  /** So a message for one service is refused by the parser of every other. */
  lemma {:induction false} OtherServiceRefused(a: u32, b: u32, source: AmsAddr, ts: seq<Tagged>)
    requires a != b
    ensures Parse(Encode(a, source, ts), b) == Err(Reply(BadService, a))
  {
    hide Bytes.Le, EncodeTags, Parse;
    var rest := EncodeAddr(source) + Le(|ts|, 4) + EncodeTags(ts);
    assert Encode(a, source, ts) == Le(MAGIC, 4) + (Le(0, 4) + (Le(a, 4) + rest));
    RefusedHeader(MAGIC, 0, a, b, rest);
  }

  /** What bytes behind the items do: one is ignored, two or three end the data, and an item that claims
      more than there is panics. */
  lemma {:induction false} TailOfItems(ts: seq<Tagged>, pos: nat, tail: seq<byte>)
    requires Fits(ts)
    ensures var r := ParseItems(EncodeTags(ts) + tail, pos);
      && (|tail| < 2 ==> r == Ok(ParsedItems(ts, pos)))
      && (2 <= |tail| < 4 ==> r == Err(UnexpectedEof))
      && (|tail| >= 4 && U16(tail[2..4]) > |tail| - 4 ==> r == Err(Panic))
    decreases |ts|
  {
    hide Bytes.Le, Bytes.Unle, EncodeTag, EncodeTags, ParseItems, ParsedItems;
    if ts == [] {
      NoItems(ts, pos, tail);
    } else {
      var rest, next := EncodeTags(ts[1..]) + tail, pos + |ts[0].payload| + 4;
      EncodeTagsCons(ts);
      Assoc(EncodeTag(ts[0]), EncodeTags(ts[1..]), tail);
      OneItem(ts[0], rest, pos);
      TailOfItems(ts[1..], next, tail);
      ParsedItemsCons(ts, pos);
    }
  }

  lemma {:induction false} NoItems(ts: seq<Tagged>, pos: nat, tail: seq<byte>)
    requires ts == []
    ensures var r := ParseItems(EncodeTags(ts) + tail, pos);
      && (|tail| < 2 ==> r == Ok(ParsedItems(ts, pos)))
      && (2 <= |tail| < 4 ==> r == Err(UnexpectedEof))
      && (|tail| >= 4 && U16(tail[2..4]) > |tail| - 4 ==> r == Err(Panic))
  {
    hide Bytes.Unle;
    assert EncodeTags(ts) + tail == tail;
    if |tail| >= 4 {
      assert tail[2..][..2] == tail[2..4];
    }
  }

  lemma {:induction false} OneItem(t: Tagged, rest: seq<byte>, pos: nat)
    requires |t.payload| < 0x1_0000
    ensures var next := ParseItems(rest, pos + |t.payload| + 4);
      ParseItems(EncodeTag(t) + rest, pos)
        == match next case Err(e) => Err(e) case Ok(items) => Ok([Item(t.tag, pos, pos + |t.payload|)] + items)
  {
    hide Bytes.Le, Bytes.Unle, EncodeTag, Bytes.ReadU16;
    TagBack(t, rest);
  }

  /** The place of every number of a message. */
  lemma {:induction false} MessageLayout(service: u32, source: AmsAddr, t: Tagged)
    ensures var s := Encode(service, source, [t]);
      && |s| == 28 + |t.payload|
      && s[..4] == Le(0x71146603, 4) && s[4..8] == Le(0, 4) && s[8..12] == Le(service, 4)
      && s[12..18] == source.netid && s[18..20] == Le(source.port, 2) && s[20..24] == Le(1, 4)
      && s[24..26] == Le(t.tag, 2) && s[26..28] == Le(|t.payload|, 2) && s[28..] == t.payload
  {
    hide Bytes.Le, EncodeUdpHeader, EncodeTag, EncodeTags;
    var h, e := EncodeUdpHeader(service, source, 1), EncodeTag(t);
    OneTag(t);
    HeaderLayoutOf(service, source, 1);
    assert Encode(service, source, [t]) == h + e;
    assert (h + e)[..4] == h[..4] && (h + e)[4..8] == h[4..8] && (h + e)[8..12] == h[8..12];
    assert (h + e)[12..18] == h[12..18] && (h + e)[18..20] == h[18..20] && (h + e)[20..24] == h[20..24];
    assert (h + e)[24..26] == e[..2] && (h + e)[26..28] == e[2..4] && (h + e)[28..] == e[4..];
  }

  lemma {:induction false} OneTag(t: Tagged)
    ensures EncodeTags([t]) == EncodeTag(t)
    ensures var e := EncodeTag(t);
      |e| == 4 + |t.payload| && e[..2] == Le(t.tag, 2) && e[2..4] == Le(|t.payload|, 2) && e[4..] == t.payload
  {
    hide Bytes.Le;
    assert [t][..0] == [] && EncodeTags([]) == [];
  }

  lemma {:induction false} HeaderLayoutOf(service: u32, source: AmsAddr, count: nat)
    ensures var h := EncodeUdpHeader(service, source, count);
      && h[..4] == Le(0x71146603, 4) && h[4..8] == Le(0, 4) && h[8..12] == Le(service, 4)
      && h[12..18] == source.netid && h[18..20] == Le(source.port, 2) && h[20..24] == Le(count, 4)
  {
    hide Bytes.Le;
  }

  // ----- getters on parsed and on built messages

  /** The payload of the first item with that tag. */
  function FirstPayload(ts: seq<Tagged>, tag: u16): Option<seq<byte>> {
    if ts == [] then None
    else if ts[0].tag == tag then Some(ts[0].payload)
    else FirstPayload(ts[1..], tag)
  }

  /** It belongs to the first item with that tag, and there is none iff no item has it. */
  lemma {:induction false} FirstPayloadIs(ts: seq<Tagged>, tag: u16) returns (k: nat)
    ensures k <= |ts| && forall j :: 0 <= j < k ==> ts[j].tag != tag
    ensures if k < |ts| then ts[k].tag == tag && FirstPayload(ts, tag) == Some(ts[k].payload)
            else FirstPayload(ts, tag) == None
  {
    if ts == [] || ts[0].tag == tag {
      k := 0;
    } else {
      k := FirstPayloadIs(ts[1..], tag);
      forall j | 0 <= j < k + 1
        ensures ts[j].tag != tag
      {
        assert j > 0 ==> ts[j] == ts[1..][j - 1];
      }
      k := k + 1;
    }
  }

  lemma {:induction false} FirstSelected(items: seq<Item>, data: seq<byte>, tag: u16)
    requires forall i :: i in items ==> i.start <= i.end <= |data|
    ensures GetBytes(Packet(items, data), tag) == Ok(FirstPayload(Selected(Packet(items, data)), tag))
    decreases |items|
  {
    if items != [] {
      FirstSelected(items[1..], data, tag);
      assert Selected(Packet(items, data))[1..] == Selected(Packet(items[1..], data));
    }
  }

  /** On a parsed message, `get_bytes` returns what was added first under the tag. */
  lemma {:induction false} ParsedGetBytes(service: u32, source: AmsAddr, ts: seq<Tagged>, tag: u16)
    requires Fits(ts)
    ensures Parse(Encode(service, source, ts), service).Ok?
    ensures GetBytes(Parse(Encode(service, source, ts), service).value, tag) == Ok(FirstPayload(ts, tag))
  {
    hide Encode, Parse, FirstPayload, GetBytes;
    BuiltParsesBack(service, source, ts);
    var p := Parse(Encode(service, source, ts), service).value;
    FirstSelected(p.items, p.data, tag);
    assert p == Packet(p.items, p.data);
  }

  /** On a message under construction the ranges start at the length field, so `get_bytes` returns
      the data with two extra bytes in front. */
  lemma {:induction false} BuilderRanges(service: u32, source: AmsAddr, ts: seq<Tagged>, k: nat)
    requires k < |ts|
    ensures |BuilderItems(ts)| == |ts|
    ensures var data, item := Encode(service, source, ts), BuilderItems(ts)[k];
      && item.tag == ts[k].tag && item.start <= item.end <= |data|
      && data[item.start..item.end] == Le(|ts[k].payload|, 2) + ts[k].payload
    decreases |ts|
  {
    hide Bytes.Le, EncodeUdpHeader;
    BuilderRangesIn(EncodeUdpHeader(service, source, |ts|), ts, k);
  }

  lemma {:induction false} BuilderRangesIn(front: seq<byte>, ts: seq<Tagged>, k: nat)
    requires |front| == HEADER_SIZE && k < |ts|
    ensures |BuilderItems(ts)| == |ts|
    ensures var data, item := front + EncodeTags(ts), BuilderItems(ts)[k];
      && item.tag == ts[k].tag && item.start <= item.end <= |data|
      && data[item.start..item.end] == Le(|ts[k].payload|, 2) + ts[k].payload
    decreases |ts|
  {
    hide Bytes.Le;
    var init, t := ts[..|ts| - 1], ts[|ts| - 1];
    if |init| > 0 {
      BuilderRangesIn(front, init, if k < |init| then k else 0);
    }
    var a, b := front + EncodeTags(init), EncodeTag(t);
    assert front + EncodeTags(ts) == a + b;
    if k < |init| {
      var item := BuilderItems(init)[k];
      assert (a + b)[item.start..item.end] == a[item.start..item.end];
    } else {
      assert a + b == (a + Le(t.tag, 2)) + (Le(|t.payload|, 2) + t.payload);
      MiddleSlice(a + Le(t.tag, 2), Le(|t.payload|, 2) + t.payload, []);
      assert Le(|t.payload|, 2) + t.payload + [] == Le(|t.payload|, 2) + t.payload;
    }
  }

  /** So a getter on a message under construction never returns what was added. */
  lemma {:induction false} BuilderGetBytes(service: u32, source: AmsAddr, ts: seq<Tagged>, tag: u16)
    requires FirstPayload(ts, tag).Some?
    ensures GetBytes(Packet(BuilderItems(ts), Encode(service, source, ts)), tag)
         == Ok(Some(Le(|FirstPayload(ts, tag).value|, 2) + FirstPayload(ts, tag).value))
  {
    hide Bytes.Le, Encode, BuilderItems;
    var items, data := BuilderItems(ts), Encode(service, source, ts);
    BuilderRanges(service, source, ts, 0);
    forall k | 0 <= k < |ts|
      ensures items[k].tag == ts[k].tag && items[k].start <= items[k].end <= |data|
      ensures data[items[k].start..items[k].end] == Le(|ts[k].payload|, 2) + ts[k].payload
    {
      BuilderRanges(service, source, ts, k);
    }
    FirstBuilt(items, data, ts, tag);
  }

  lemma {:induction false} FirstBuilt(items: seq<Item>, data: seq<byte>, ts: seq<Tagged>, tag: u16)
    requires |items| == |ts| && FirstPayload(ts, tag).Some?
    requires forall k :: 0 <= k < |ts| ==> items[k].tag == ts[k].tag && items[k].start <= items[k].end <= |data|
    requires forall k :: 0 <= k < |ts| ==> data[items[k].start..items[k].end] == Le(|ts[k].payload|, 2) + ts[k].payload
    ensures GetBytes(Packet(items, data), tag) == Ok(Some(Le(|FirstPayload(ts, tag).value|, 2) + FirstPayload(ts, tag).value))
    decreases |ts|
  {
    hide Bytes.Le;
    if ts[0].tag != tag {
      FirstBuilt(items[1..], data, ts[1..], tag);
    }
  }

  /** What `add_u32` and `add_str` put in, `get_u32` and `get_str` of the parsed message return. */
  lemma {:induction false} ParsedGetters(service: u32, source: AmsAddr, ts: seq<Tagged>, tag: u16, value: u32,
                                  text: seq<byte>)
    requires Fits(ts)
    ensures Parse(Encode(service, source, ts), service).Ok?
    ensures var p := Parse(Encode(service, source, ts), service).value;
      && (FirstPayload(ts, tag) == Some(Le(value, 4)) ==> GetU32(p, tag) == Ok(Some(value)))
      && (FirstPayload(ts, tag) == Some(text + [0]) ==> GetStr(p, tag) == Ok(Some(text)))
      && (FirstPayload(ts, tag) == None ==> GetU32(p, tag) == Ok(None) && GetStr(p, tag) == Ok(None))
      && (FirstPayload(ts, tag) == Some(text) && |text| < 4 ==> GetU32(p, tag) == Ok(None))
      && (FirstPayload(ts, tag) == Some([]) ==> GetStr(p, tag) == Err(Panic))
  {
    hide Encode, Parse, FirstPayload, GetBytes, Bytes.Le, Bytes.Unle;
    ParsedGetBytes(service, source, ts, tag);
    U32Field(value);
    assert Le(value, 4)[..4] == Le(value, 4);
    assert (text + [0])[..|text|] == text;
  }
}
