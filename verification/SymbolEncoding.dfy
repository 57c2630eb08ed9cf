/**
 The wire form of symbol and type tables, as a PLC writes them (src/test/test_symbol.rs builds the
 simplest case), and the proof that decoding it recovers every part the client keeps.
 */
module SymbolEncoding {
  import opened Bytes
  import opened SymbolFormat

  // ----- what is on the wire, kept or not

  datatype WireParameter = WireParameter(
    size: u32, alignSize: u32, dataType: u32, flags: u32, reserved: u32, guid: seq<byte>, lengthIs: u16,
    name: seq<byte>, typ: seq<byte>, comment: seq<byte>, attributes: seq<Attribute>, trailing: seq<byte>)

  datatype WireMethod = WireMethod(
    version: u32, vTableIndex: u32, returnSize: u32, returnAlign: u32, reserved: u32, guid: seq<byte>,
    dataType: u32, flags: u32, name: seq<byte>, returnType: seq<byte>, comment: seq<byte>,
    parameters: seq<WireParameter>, attributes: seq<Attribute>, trailing: seq<byte>)

  /** Everything a type or field record starts with; `bounds` are lower bounds and element counts. */
  datatype WireRecord = WireRecord(
    header: seq<byte>, size: u32, offset: u32, baseType: u32, flags: u32,
    name: seq<byte>, typeName: seq<byte>, comment: seq<byte>, bounds: seq<(int, int)>)

  datatype WireSections = WireSections(
    guid: seq<byte>, copyMask: seq<byte>, methods: seq<WireMethod>, attributes: seq<Attribute>)

  datatype WireField = WireField(record: WireRecord, sections: WireSections, trailing: seq<byte>)

  /** A variant with an integer value, or with any bytes (floating-point and oddly sized types). */
  datatype WireEnum = IntEnum(name: seq<byte>, value: int) | RawEnum(name: seq<byte>, raw: seq<byte>)

  datatype WireType = WireType(
    record: WireRecord, fields: seq<WireField>, sections: WireSections, enums: seq<WireEnum>, trailing: seq<byte>)

  datatype WireSymbol = WireSymbol(
    ixGroup: u32, ixOffset: u32, size: u32, baseType: u32, flags: u16, legacyArrayDim: u16, commentLen: u16,
    name: seq<byte>, typ: seq<byte>, trailing: seq<byte>)

  // ----- encoding

  function EncList<W>(xs: seq<W>, enc: W -> seq<byte>): seq<byte> {
    if xs == [] then [] else enc(xs[0]) + EncList(xs[1..], enc)
  }

  function EncStr(s: seq<byte>): seq<byte> {
    s + [0]
  }

  /** A leading size that counts itself. */
  function Frame(body: seq<byte>): seq<byte> {
    Le(|body| + 4, 4) + body
  }

  function EncAttribute(a: Attribute): seq<byte> {
    [|a.name| % 256] + ([|a.value| % 256] + (EncStr(a.name) + EncStr(a.value)))
  }

  function EncAttributes(attrs: seq<Attribute>): seq<byte> {
    Le(|attrs|, 2) + EncList(attrs, EncAttribute)
  }

  /** Two's complement of an integer in this many bytes. */
  function EncInt(v: int, size: nat): (s: seq<byte>)
    ensures |s| == size
  {
    Le(v % Pow256(size), size)
  }

  function EnumBytes(e: WireEnum, size: nat): seq<byte> {
    match e case IntEnum(_, v) => EncInt(v, size) case RawEnum(_, raw) => raw
  }

  /** A variant of an enum type of this size. */
  function EncEnum(size: nat): WireEnum -> seq<byte> {
    (e: WireEnum) => [|e.name| % 256] + (EncStr(e.name) + EnumBytes(e, size))
  }

  function EncEnums(es: seq<WireEnum>, size: nat): seq<byte> {
    Le(|es|, 2) + EncList(es, EncEnum(size))
  }

  function Strs(a: seq<byte>, b: seq<byte>, c: seq<byte>): seq<byte> {
    EncStr(a) + (EncStr(b) + EncStr(c))
  }

  function If(present: bool, s: seq<byte>): seq<byte> {
    if present then s else []
  }

  function EncParameter(w: WireParameter): seq<byte> {
    Le(w.size, 4) + (Le(w.alignSize, 4) + (Le(w.dataType, 4) + (Le(w.flags, 4) + (Le(w.reserved, 4) + (w.guid
    + (Le(w.lengthIs, 2) + (Le(|w.name|, 2) + (Le(|w.typ|, 2) + (Le(|w.comment|, 2)
    + (Strs(w.name, w.typ, w.comment)
    + (If(Has(w.flags, RPC_PARAM_ATTRIBUTE_FLAG), EncAttributes(w.attributes)) + w.trailing)))))))))))
  }

  function FrameParameter(w: WireParameter): seq<byte> {
    Frame(EncParameter(w))
  }

  function EncMethod(w: WireMethod): seq<byte> {
    Le(w.version, 4) + (Le(w.vTableIndex, 4) + (Le(w.returnSize, 4) + (Le(w.returnAlign, 4) + (Le(w.reserved, 4)
    + (w.guid + (Le(w.dataType, 4) + (Le(w.flags, 4)
    + (Le(|w.name|, 2) + (Le(|w.returnType|, 2) + (Le(|w.comment|, 2) + (Le(|w.parameters|, 2)
    + (Strs(w.name, w.returnType, w.comment)
    + (EncList(w.parameters, FrameParameter)
    + (If(Has(w.flags, RPC_METHOD_ATTRIBUTE_FLAG), EncAttributes(w.attributes)) + w.trailing))))))))))))))
  }

  function FrameMethod(w: WireMethod): seq<byte> {
    Frame(EncMethod(w))
  }

  function EncMethods(ws: seq<WireMethod>): seq<byte> {
    Le(|ws|, 2) + EncList(ws, FrameMethod)
  }

  function EncBounds(b: (int, int)): seq<byte>
  {
    Le(Low32(b.0), 4) + Le(Low32(b.1), 4)
  }

  function Low32(v: int): u32 {
    v % 0x1_0000_0000
  }

  function EncRecord(w: WireRecord, subItems: nat): seq<byte> {
    Le(1, 4) + (w.header + (Le(w.size, 4) + (Le(w.offset, 4) + (Le(w.baseType, 4) + (Le(w.flags, 4)
    + (Le(|w.name|, 2) + (Le(|w.typeName|, 2) + (Le(|w.comment|, 2) + (Le(|w.bounds|, 2) + (Le(subItems, 2)
    + (Strs(w.name, w.typeName, w.comment)
    + EncList(w.bounds, EncBounds))))))))))))
  }

  function EncSections(s: WireSections, flags: u32): seq<byte> {
    If(Has(flags, TYPE_FLAG_GUID), s.guid)
    + (If(Has(flags, TYPE_FLAG_COPY_MASK), s.copyMask)
    + (If(Has(flags, TYPE_FLAG_METHOD_INFOS), EncMethods(s.methods))
    + If(Has(flags, TYPE_FLAG_ATTRIBUTES), EncAttributes(s.attributes))))
  }

  function EncField(w: WireField): seq<byte> {
    EncRecord(w.record, 0) + (EncSections(w.sections, w.record.flags) + w.trailing)
  }

  function FrameField(w: WireField): seq<byte> {
    Frame(EncField(w))
  }

  function EncType(w: WireType): seq<byte> {
    EncRecord(w.record, |w.fields|)
    + (EncList(w.fields, FrameField)
    + (EncSections(w.sections, w.record.flags)
    + (If(Has(w.record.flags, TYPE_FLAG_ENUM_INFOS), EncEnums(w.enums, w.record.size)) + w.trailing)))
  }

  function EncSymbol(w: WireSymbol): seq<byte> {
    Le(w.ixGroup, 4) + (Le(w.ixOffset, 4) + (Le(w.size, 4) + (Le(w.baseType, 4) + (Le(w.flags, 2)
    + (Le(w.legacyArrayDim, 2) + (Le(|w.name|, 2) + (Le(|w.typ|, 2) + (Le(w.commentLen, 2)
    + (EncStr(w.name) + (EncStr(w.typ) + w.trailing))))))))))
  }

  /** A table: framed entries, one after the other. */
  function EncTable<W>(ws: seq<W>, enc: W -> seq<byte>): seq<byte> {
    if ws == [] then [] else Frame(enc(ws[0])) + EncTable(ws[1..], enc)
  }

  // ----- what the client keeps

  function Values<W, T>(ws: seq<W>, value: W -> T): (ts: seq<T>)
    ensures |ts| == |ws| && forall i :: 0 <= i < |ws| ==> ts[i] == value(ws[i])
  {
    seq(|ws|, i requires 0 <= i < |ws| => value(ws[i]))
  }

  function Same<T>(x: T): T {
    x
  }

  function ParameterValue(w: WireParameter): RpcParameter {
    RpcParameter(w.name, w.typ, w.size, KindOf(w.flags), w.comment,
                 if Has(w.flags, RPC_PARAM_ATTRIBUTE_FLAG) then w.attributes else [])
  }

  function MethodValue(w: WireMethod): RpcMethod {
    RpcMethod(w.name, w.returnType, w.returnSize, w.comment, Values(w.parameters, ParameterValue),
              if Has(w.flags, RPC_METHOD_ATTRIBUTE_FLAG) then w.attributes else [])
  }

  function BoundsValue(b: (int, int)): (int, int) {
    (b.0, b.0 + b.1 - 1)
  }

  function Present<T>(present: bool, x: T): Option<T> {
    if present then Some(x) else None
  }

  function SectionsValue(s: WireSections, flags: u32): Sections {
    Sections(Present(Has(flags, TYPE_FLAG_GUID), s.guid),
             Present(Has(flags, TYPE_FLAG_METHOD_INFOS), Values(s.methods, MethodValue)),
             Present(Has(flags, TYPE_FLAG_ATTRIBUTES), s.attributes))
  }

  function FieldValue(w: WireField): Field {
    var r := w.record;
    Field(r.name, r.typeName, if r.offset == 0xFFFF_FFFF then None else Some(r.offset), r.size,
          Values(r.bounds, BoundsValue), r.baseType, r.flags, r.comment,
          Present(Has(r.flags, TYPE_FLAG_ATTRIBUTES), w.sections.attributes))
  }

  /** The byte width and signedness of the integer base types; other types go by their size, which is
      then signed from two bytes on. */
  function IntWidth(baseType: u32): nat {
    match baseType
    case 16 => 1 case 17 => 1 case 2 => 2 case 18 => 2 case 3 => 4 case 19 => 4 case 20 => 8 case 21 => 8
    case _ => 0
  }

  predicate SignedType(size: nat, baseType: u32) {
    if IntWidth(baseType) == 0 then size > 1 else baseType == 16 || baseType == 2 || baseType == 3 || baseType == 20
  }

  /** An integer that a variant of this type can have: the type is one of the integer types, of its own
      width, or an unknown one of a known width; and the value fits. */
  predicate IntOk(v: int, size: nat, baseType: u32) {
    && (if IntWidth(baseType) > 0 then size == IntWidth(baseType)
        else baseType != 4 && baseType != 5 && (size == 1 || size == 2 || size == 4 || size == 8))
    && (if SignedType(size, baseType) then 0 <= 2 * v + Pow256(size) < 2 * Pow256(size) else 0 <= v < Pow256(size))
  }

  /** The value the client reports: the integer itself, except that unsigned 64-bit values from 2^63 on
      turn negative. */
  function IntValue(v: int, baseType: u32): int {
    if baseType == 21 && v >= 0x8000_0000_0000_0000 then v - 0x1_0000_0000_0000_0000 else v
  }

  function EnumOf(baseType: u32): WireEnum -> EnumInfo {
    (e: WireEnum) =>
      match e
      case IntEnum(name, v) => EnumInfo(name, IntValue(v, baseType))
      case RawEnum(name, raw) => EnumInfo(name, var v := EnumValue(raw, baseType); if v.Ok? then v.value else 0)
  }

  function TypeValue(w: WireType): Type {
    var r, s := w.record, SectionsValue(w.sections, w.record.flags);
    Type(r.name, r.typeName, r.comment, r.size, Values(r.bounds, BoundsValue), Values(w.fields, FieldValue),
         r.baseType, r.flags, s.guid, s.methods, s.attributes,
         Present(Has(r.flags, TYPE_FLAG_ENUM_INFOS), Values(w.enums, EnumOf(r.baseType))))
  }

  function SymbolValue(w: WireSymbol): Symbol {
    Symbol(w.name, w.ixGroup, w.ixOffset, w.typ, w.size, w.baseType, w.flags)
  }

  // ----- what can be put on the wire

  predicate StrOk(s: seq<byte>) {
    |s| <= MAX_STR_LEN
  }

  predicate AttributesOk(attrs: seq<Attribute>) {
    |attrs| < 0x1_0000 && forall a :: a in attrs ==> |a.name| < 256 && |a.value| < 256
  }

  predicate FrameOk(body: seq<byte>) {
    |body| + 4 < 0x1_0000_0000
  }

  predicate ParameterOk(w: WireParameter) {
    && |w.guid| == 16 && StrOk(w.name) && StrOk(w.typ) && StrOk(w.comment)
    && AttributesOk(w.attributes) && FrameOk(EncParameter(w))
  }

  predicate MethodOk(w: WireMethod) {
    && |w.guid| == 16 && StrOk(w.name) && StrOk(w.returnType) && StrOk(w.comment)
    && |w.parameters| < 0x1_0000 && (forall q :: q in w.parameters ==> ParameterOk(q))
    && AttributesOk(w.attributes) && FrameOk(EncMethod(w))
  }

  /** Lower bound and count are 32-bit, and so is the upper bound; see `ReadBounds`. */
  predicate BoundsOk(b: (int, int)) {
    && -0x8000_0000 <= b.0 < 0x8000_0000 && -0x8000_0000 <= b.1 < 0x8000_0000
    && -0x8000_0000 < b.0 + b.1 < 0x8000_0000
  }

  predicate RecordOk(w: WireRecord) {
    && |w.header| == 8 && StrOk(w.name) && StrOk(w.typeName) && StrOk(w.comment)
    && |w.bounds| < 0x1_0000 && forall b :: b in w.bounds ==> BoundsOk(b)
  }

  predicate SectionsOk(s: WireSections, size: u32) {
    && |s.guid| == 16 && |s.copyMask| == size
    && |s.methods| < 0x1_0000 && (forall m :: m in s.methods ==> MethodOk(m))
    && AttributesOk(s.attributes)
  }

  predicate FieldOk(w: WireField) {
    RecordOk(w.record) && SectionsOk(w.sections, w.record.size) && FrameOk(EncField(w))
  }

  predicate EnumOk(e: WireEnum, size: u32, baseType: u32) {
    && |e.name| < 256
    && match e
       case IntEnum(_, v) => IntOk(v, size, baseType)
       case RawEnum(_, raw) => |raw| == size && EnumWidth(size, baseType) <= size
  }

  predicate TypeOk(w: WireType) {
    && RecordOk(w.record) && SectionsOk(w.sections, w.record.size)
    && |w.fields| < 0x1_0000 && (forall f :: f in w.fields ==> FieldOk(f))
    && |w.enums| < 0x1_0000 && (forall e :: e in w.enums ==> EnumOk(e, w.record.size, w.record.baseType))
    && FrameOk(EncType(w))
  }

  predicate SymbolOk(w: WireSymbol) {
    StrOk(w.name) && StrOk(w.typ) && FrameOk(EncSymbol(w))
  }

  // ----- round trips of the building blocks

  lemma {:induction false} StrBack(s: seq<byte>, rest: seq<byte>)
    requires StrOk(s)
    ensures ReadStr(EncStr(s) + rest, |s|) == Ok((s, rest))
  {
    var p := EncStr(s) + rest;
    assert p[..|s|] == s && p[|s| + 1..] == rest;
  }

  /** Longer strings are rejected, so a string comes back iff it respects the maximum. */
  lemma {:induction false} StrBackIff(s: seq<byte>, rest: seq<byte>)
    ensures ReadStr(EncStr(s) + rest, |s|) == Ok((s, rest)) <==> |s| <= 8196
  {
    if StrOk(s) {
      StrBack(s, rest);
    }
  }

  lemma {:induction false} StrsBack(a: seq<byte>, b: seq<byte>, c: seq<byte>, rest: seq<byte>)
    requires StrOk(a) && StrOk(b) && StrOk(c)
    ensures ReadStrs(Strs(a, b, c) + rest, |a|, |b|, |c|) == Ok(((a, b, c), rest))
  {
    assert Strs(a, b, c) + rest == EncStr(a) + (EncStr(b) + (EncStr(c) + rest));
    StrBack(a, EncStr(b) + (EncStr(c) + rest));
    StrBack(b, EncStr(c) + rest);
    StrBack(c, rest);
  }

  /** If one encoded element parses back in front of anything, so does a list of them. */
  lemma {:induction false} ManyBack<W, T>(ws: seq<W>, enc: W -> seq<byte>, one: seq<byte> -> Result<(T, seq<byte>)>,
                                          value: W -> T, rest: seq<byte>)
    requires forall i, tail :: 0 <= i < |ws| ==> one(enc(ws[i]) + tail) == Ok((value(ws[i]), tail))
    ensures Many(EncList(ws, enc) + rest, |ws|, one) == Ok((Values(ws, value), rest))
  {
    if ws == [] {
      assert EncList(ws, enc) + rest == rest;
    } else {
      var t := EncList(ws[1..], enc) + rest;
      assert EncList(ws, enc) + rest == enc(ws[0]) + t;
      assert one(enc(ws[0]) + t) == Ok((value(ws[0]), t));
      forall i, tail | 0 <= i < |ws[1..]|
        ensures one(enc(ws[1..][i]) + tail) == Ok((value(ws[1..][i]), tail))
      {
        assert ws[1..][i] == ws[i + 1];
        assert one(enc(ws[i + 1]) + tail) == Ok((value(ws[i + 1]), tail));
      }
      ManyBack(ws[1..], enc, one, value, rest);
      assert Values(ws, value) == [value(ws[0])] + Values(ws[1..], value);
    }
  }

  lemma {:induction false} FramedBack<T>(body: seq<byte>, parse: seq<byte> -> Result<T>, rest: seq<byte>)
    requires FrameOk(body) && parse(body).Ok?
    ensures Framed(Frame(body) + rest, parse) == Ok((parse(body).value, rest))
  {
    hide Bytes.Le, Bytes.ReadU32;
    assert Frame(body) + rest == Le(|body| + 4, 4) + (body + rest);
    U32Back(|body| + 4, body + rest);
    TakeBack(body, rest);
  }

  lemma {:induction false} AttributeBack(a: Attribute, rest: seq<byte>)
    requires |a.name| < 256 && |a.value| < 256
    ensures ReadAttribute(EncAttribute(a) + rest) == Ok((a, rest))
  {
    hide ReadStr, EncStr, Bytes.ReadU8;
    var t := EncStr(a.name) + (EncStr(a.value) + rest);
    assert EncAttribute(a) + rest == [|a.name|] + ([|a.value|] + t);
    U8Back(|a.name|, [|a.value|] + t);
    U8Back(|a.value|, t);
    StrBack(a.name, EncStr(a.value) + rest);
    StrBack(a.value, rest);
  }

  lemma {:induction false} AttributesBack(attrs: seq<Attribute>, rest: seq<byte>)
    requires AttributesOk(attrs)
    ensures ReadAttributes(EncAttributes(attrs) + rest) == Ok((attrs, rest))
  {
    hide ReadAttribute, EncAttribute, Bytes.Le, Bytes.ReadU16, Many;
    assert EncAttributes(attrs) + rest == Le(|attrs|, 2) + (EncList(attrs, EncAttribute) + rest);
    U16Back(|attrs|, EncList(attrs, EncAttribute) + rest);
    forall i, tail | 0 <= i < |attrs|
      ensures ReadAttribute(EncAttribute(attrs[i]) + tail) == Ok((Same(attrs[i]), tail))
    {
      AttributeBack(attrs[i], tail);
    }
    ManyBack(attrs, EncAttribute, ReadAttribute, Same, rest);
    assert Values(attrs, Same) == attrs;
  }

  /** An optional section parses back, present or absent. */
  lemma {:induction false} AttributesSectionBack(present: bool, attrs: seq<Attribute>, rest: seq<byte>)
    requires AttributesOk(attrs)
    ensures Optional(present, If(present, EncAttributes(attrs)) + rest, ReadAttributes) == Ok((Present(present, attrs), rest))
  {
    hide ReadAttributes, EncAttributes;
    if present {
      AttributesBack(attrs, rest);
    } else {
      assert [] + rest == rest;
    }
  }

  // ----- round trips of the records

  lemma {:induction false} ParameterBack(w: WireParameter)
    requires ParameterOk(w)
    ensures ReadParameter(EncParameter(w)) == Ok(ParameterValue(w))
  {
    hide Bytes.Le, Bytes.ReadU32, Bytes.ReadU16, Bytes.Take, ReadStrs, Strs, ReadAttributes, EncAttributes, Optional, If;
    hide Has, KindOf;
    var t0 := If(Has(w.flags, RPC_PARAM_ATTRIBUTE_FLAG), EncAttributes(w.attributes)) + w.trailing;
    var t1 := Strs(w.name, w.typ, w.comment) + t0;
    var t2 := Le(|w.comment|, 2) + t1;
    var t3 := Le(|w.typ|, 2) + t2;
    var t4 := Le(|w.name|, 2) + t3;
    var t5 := Le(w.lengthIs, 2) + t4;
    var t6 := w.guid + t5;
    var t7 := Le(w.reserved, 4) + t6;
    var t8 := Le(w.flags, 4) + t7;
    var t9 := Le(w.dataType, 4) + t8;
    var t10 := Le(w.alignSize, 4) + t9;
    U32Back(w.size, t10); U32Back(w.alignSize, t9); U32Back(w.dataType, t8); U32Back(w.flags, t7);
    U32Back(w.reserved, t6); TakeBack(w.guid, t5); U16Back(w.lengthIs, t4);
    U16Back(|w.name|, t3); U16Back(|w.typ|, t2); U16Back(|w.comment|, t1);
    StrsBack(w.name, w.typ, w.comment, t0);
    AttributesSectionBack(Has(w.flags, RPC_PARAM_ATTRIBUTE_FLAG), w.attributes, w.trailing);
  }

  lemma {:induction false} ParametersBack(ws: seq<WireParameter>, rest: seq<byte>)
    requires forall w :: w in ws ==> ParameterOk(w)
    ensures Many(EncList(ws, FrameParameter) + rest, |ws|, FramedParameter) == Ok((Values(ws, ParameterValue), rest))
  {
    hide ReadParameter, EncParameter, ParameterValue, Framed, Frame;
    forall i, tail | 0 <= i < |ws|
      ensures FramedParameter(FrameParameter(ws[i]) + tail) == Ok((ParameterValue(ws[i]), tail))
    {
      ParameterBack(ws[i]);
      FramedBack(EncParameter(ws[i]), ReadParameter, tail);
    }
    ManyBack(ws, FrameParameter, FramedParameter, ParameterValue, rest);
  }

  lemma {:induction false} MethodBack(w: WireMethod)
    requires MethodOk(w)
    ensures ReadMethod(EncMethod(w)) == Ok(MethodValue(w))
  {
    hide Bytes.Le, Bytes.ReadU32, Bytes.ReadU16, Bytes.Take, ReadStrs, Strs, ReadAttributes, EncAttributes, Optional, If;
    hide Many, EncList, Values, Has, ParameterOk, FramedParameter;
    var t0 := If(Has(w.flags, RPC_METHOD_ATTRIBUTE_FLAG), EncAttributes(w.attributes)) + w.trailing;
    var t1 := EncList(w.parameters, FrameParameter) + t0;
    var t2 := Strs(w.name, w.returnType, w.comment) + t1;
    var t3 := Le(|w.parameters|, 2) + t2;
    var t4 := Le(|w.comment|, 2) + t3;
    var t5 := Le(|w.returnType|, 2) + t4;
    var t6 := Le(|w.name|, 2) + t5;
    var t7 := Le(w.flags, 4) + t6;
    var t8 := Le(w.dataType, 4) + t7;
    var t9 := w.guid + t8;
    var t10 := Le(w.reserved, 4) + t9;
    var t11 := Le(w.returnAlign, 4) + t10;
    var t12 := Le(w.returnSize, 4) + t11;
    var t13 := Le(w.vTableIndex, 4) + t12;
    U32Back(w.version, t13); U32Back(w.vTableIndex, t12); U32Back(w.returnSize, t11); U32Back(w.returnAlign, t10);
    U32Back(w.reserved, t9); TakeBack(w.guid, t8); U32Back(w.dataType, t7); U32Back(w.flags, t6);
    U16Back(|w.name|, t5); U16Back(|w.returnType|, t4); U16Back(|w.comment|, t3); U16Back(|w.parameters|, t2);
    StrsBack(w.name, w.returnType, w.comment, t1);
    ParametersBack(w.parameters, t0);
    AttributesSectionBack(Has(w.flags, RPC_METHOD_ATTRIBUTE_FLAG), w.attributes, w.trailing);
  }

  lemma {:induction false} MethodsBack(ws: seq<WireMethod>, rest: seq<byte>)
    requires |ws| < 0x1_0000 && forall w :: w in ws ==> MethodOk(w)
    ensures ReadMethods(EncMethods(ws) + rest) == Ok((Values(ws, MethodValue), rest))
  {
    hide ReadMethod, EncMethod, MethodValue, Framed, Frame, Bytes.Le, Bytes.ReadU16, Many;
    assert EncMethods(ws) + rest == Le(|ws|, 2) + (EncList(ws, FrameMethod) + rest);
    U16Back(|ws|, EncList(ws, FrameMethod) + rest);
    forall i, tail | 0 <= i < |ws|
      ensures FramedMethod(FrameMethod(ws[i]) + tail) == Ok((MethodValue(ws[i]), tail))
    {
      MethodBack(ws[i]);
      FramedBack(EncMethod(ws[i]), ReadMethod, tail);
    }
    ManyBack(ws, FrameMethod, FramedMethod, MethodValue, rest);
  }

  /** A lower bound and an element count become both bounds, or a panic if the upper one overflows. */
  lemma {:induction false} BoundBack(b: (int, int), rest: seq<byte>)
    requires -0x8000_0000 <= b.0 < 0x8000_0000 && -0x8000_0000 <= b.1 < 0x8000_0000
    ensures ReadBounds(EncBounds(b) + rest)
         == if -0x8000_0000 < b.0 + b.1 < 0x8000_0000 then Ok(((b.0, b.0 + b.1 - 1), rest)) else Err(Panic)
  {
    hide Bytes.Le, Bytes.ReadU32;
    assert EncBounds(b) + rest == Le(Low32(b.0), 4) + (Le(Low32(b.1), 4) + rest);
    U32Back(Low32(b.0), Le(Low32(b.1), 4) + rest);
    U32Back(Low32(b.1), rest);
    assert Low32(b.0) == Unsigned(b.0, 0x8000_0000) && Low32(b.1) == Unsigned(b.1, 0x8000_0000);
  }

  lemma {:induction false} BoundsBack(bs: seq<(int, int)>, rest: seq<byte>)
    requires forall b :: b in bs ==> BoundsOk(b)
    ensures Many(EncList(bs, EncBounds) + rest, |bs|, ReadBounds) == Ok((Values(bs, BoundsValue), rest))
  {
    hide ReadBounds, EncBounds;
    forall i, tail | 0 <= i < |bs|
      ensures ReadBounds(EncBounds(bs[i]) + tail) == Ok((BoundsValue(bs[i]), tail))
    {
      assert bs[i] in bs;
      BoundBack(bs[i], tail);
    }
    ManyBack(bs, EncBounds, ReadBounds, BoundsValue, rest);
  }

  function RecordValue(w: WireRecord, subItems: u16): Record {
    Record(w.size, w.offset, w.baseType, w.flags, subItems, w.name, w.typeName, w.comment, Values(w.bounds, BoundsValue))
  }

  lemma {:induction false} RecordBack(w: WireRecord, subItems: u16, rest: seq<byte>)
    requires RecordOk(w)
    ensures ReadRecord(EncRecord(w, subItems) + rest) == Ok((RecordValue(w, subItems), rest))
  {
    hide Bytes.Le, Bytes.ReadU32, Bytes.ReadU16, Bytes.Take, ReadStrs, Strs, Many, EncList, Values, BoundsOk;
    var t0 := EncList(w.bounds, EncBounds) + rest;
    var t1 := Strs(w.name, w.typeName, w.comment) + t0;
    var t2 := Le(subItems, 2) + t1;
    var t3 := Le(|w.bounds|, 2) + t2;
    var t4 := Le(|w.comment|, 2) + t3;
    var t5 := Le(|w.typeName|, 2) + t4;
    var t6 := Le(|w.name|, 2) + t5;
    var t7 := Le(w.flags, 4) + t6;
    var t8 := Le(w.baseType, 4) + t7;
    var t9 := Le(w.offset, 4) + t8;
    var t10 := Le(w.size, 4) + t9;
    var t11 := w.header + t10;
    assert EncRecord(w, subItems) + rest == Le(1, 4) + t11 by {
      RecordAssoc(w, subItems, rest);
    }
    U32Back(1, t11); TakeBack(w.header, t10); U32Back(w.size, t9); U32Back(w.offset, t8); U32Back(w.baseType, t7);
    U32Back(w.flags, t6); U16Back(|w.name|, t5); U16Back(|w.typeName|, t4); U16Back(|w.comment|, t3);
    U16Back(|w.bounds|, t2); U16Back(subItems, t1);
    StrsBack(w.name, w.typeName, w.comment, t0);
    BoundsBack(w.bounds, rest);
  }

  /** Appending to the end of the nested concatenation. */
  lemma {:induction false} RecordAssoc(w: WireRecord, subItems: u16, rest: seq<byte>)
    ensures EncRecord(w, subItems) + rest
      == Le(1, 4) + (w.header + (Le(w.size, 4) + (Le(w.offset, 4) + (Le(w.baseType, 4) + (Le(w.flags, 4)
         + (Le(|w.name|, 2) + (Le(|w.typeName|, 2) + (Le(|w.comment|, 2) + (Le(|w.bounds|, 2) + (Le(subItems, 2)
         + (Strs(w.name, w.typeName, w.comment) + (EncList(w.bounds, EncBounds) + rest))))))))))))
  {
    hide Bytes.Le, Strs, EncList;
    var e0 := EncList(w.bounds, EncBounds);
    var e1 := Strs(w.name, w.typeName, w.comment) + e0;
    var e2 := Le(subItems, 2) + e1;
    var e3 := Le(|w.bounds|, 2) + e2;
    var e4 := Le(|w.comment|, 2) + e3;
    var e5 := Le(|w.typeName|, 2) + e4;
    var e6 := Le(|w.name|, 2) + e5;
    var e7 := Le(w.flags, 4) + e6;
    var e8 := Le(w.baseType, 4) + e7;
    var e9 := Le(w.offset, 4) + e8;
    var e10 := Le(w.size, 4) + e9;
    var e11 := w.header + e10;
    Assoc(Le(1, 4), e11, rest); Assoc(w.header, e10, rest); Assoc(Le(w.size, 4), e9, rest);
    Assoc(Le(w.offset, 4), e8, rest); Assoc(Le(w.baseType, 4), e7, rest); Assoc(Le(w.flags, 4), e6, rest);
    Assoc(Le(|w.name|, 2), e5, rest); Assoc(Le(|w.typeName|, 2), e4, rest); Assoc(Le(|w.comment|, 2), e3, rest);
    Assoc(Le(|w.bounds|, 2), e2, rest); Assoc(Le(subItems, 2), e1, rest);
    Assoc(Strs(w.name, w.typeName, w.comment), e0, rest);
  }

  lemma {:induction false} SectionsBack(s: WireSections, flags: u32, size: u32, rest: seq<byte>)
    requires SectionsOk(s, size)
    ensures ReadSections(EncSections(s, flags) + rest, flags, size) == Ok((SectionsValue(s, flags), rest))
  {
    hide ReadMethods, EncMethods, ReadAttributes, EncAttributes, Has, Values, MethodOk;
    var a := If(Has(flags, TYPE_FLAG_GUID), s.guid);
    var b := If(Has(flags, TYPE_FLAG_COPY_MASK), s.copyMask);
    var c := If(Has(flags, TYPE_FLAG_METHOD_INFOS), EncMethods(s.methods));
    var d := If(Has(flags, TYPE_FLAG_ATTRIBUTES), EncAttributes(s.attributes));
    assert EncSections(s, flags) + rest == a + (b + (c + (d + rest)));
    TakeBack(s.guid, b + (c + (d + rest)));
    TakeBack(s.copyMask, c + (d + rest));
    MethodsBack(s.methods, d + rest);
    AttributesSectionBack(Has(flags, TYPE_FLAG_ATTRIBUTES), s.attributes, rest);
    assert forall x: seq<byte> :: [] + x == x;
  }

  /** A field comes back with its bounds, its flags, its attributes, and no offset iff it was placed
      elsewhere. */
  lemma {:induction false} FieldBack(w: WireField)
    requires FieldOk(w)
    ensures ReadField(EncField(w)) == Ok(FieldValue(w))
  {
    hide ReadRecord, EncRecord, ReadSections, EncSections, Values, RecordOk, SectionsOk;
    RecordBack(w.record, 0, EncSections(w.sections, w.record.flags) + w.trailing);
    SectionsBack(w.sections, w.record.flags, w.record.size, w.trailing);
  }

  lemma {:induction false} FieldsBack(ws: seq<WireField>, rest: seq<byte>)
    requires forall w :: w in ws ==> FieldOk(w)
    ensures Many(EncList(ws, FrameField) + rest, |ws|, FramedField) == Ok((Values(ws, FieldValue), rest))
  {
    hide ReadField, EncField, FieldValue, Framed, Frame;
    forall i, tail | 0 <= i < |ws|
      ensures FramedField(FrameField(ws[i]) + tail) == Ok((FieldValue(ws[i]), tail))
    {
      FieldBack(ws[i]);
      FramedBack(EncField(ws[i]), ReadField, tail);
    }
    ManyBack(ws, FrameField, FramedField, FieldValue, rest);
  }

  lemma {:induction false} IntRange(v: int, m: int)
    requires m > 0 && -m <= v < m
    ensures v % m == if v < 0 then v + m else v
  {
  }

  /** An integer comes back from its bytes, for every base type and size. */
  lemma {:induction false} IntBack(v: int, size: nat, baseType: u32)
    requires IntOk(v, size, baseType)
    ensures EnumValue(EncInt(v, size), baseType) == Ok(IntValue(v, baseType))
  {
    hide Bytes.Le, Bytes.Unle, FloatToInt;
    Pow256Values();
    IntRange(v, Pow256(size));
    var u := v % Pow256(size);
    UnleLe(u, size);
    assert EncInt(v, size)[..size] == EncInt(v, size);
  }

  lemma {:induction false} EnumBytesBack(e: WireEnum, size: u32, baseType: u32)
    requires EnumOk(e, size, baseType)
    ensures |EnumBytes(e, size)| == size && |e.name| < 256 && EnumOf(baseType)(e).name == e.name
    ensures EnumValue(EnumBytes(e, size), baseType) == Ok(EnumOf(baseType)(e).value)
  {
    hide Bytes.Le, Bytes.Unle, FloatToInt;
    match e
    case IntEnum(_, v) => IntBack(v, size, baseType);
    case RawEnum(_, raw) => assert EnumValue(raw, baseType).Ok?;
  }

  lemma {:induction false} EnumBack(e: WireEnum, size: u32, baseType: u32, rest: seq<byte>)
    requires EnumOk(e, size, baseType)
    ensures ReadEnum(size, baseType)(EncEnum(size)(e) + rest) == Ok((EnumOf(baseType)(e), rest))
  {
    hide ReadStr, EncStr, Bytes.ReadU8, EnumValue, EnumBytes, EnumOf, EnumOk, Bytes.Take;
    EnumBytesBack(e, size, baseType);
    var raw := EnumBytes(e, size);
    var t := EncStr(e.name) + (raw + rest);
    assert |e.name| % 256 == |e.name|;
    Regroup([|e.name| % 256], EncStr(e.name), raw, rest);
    U8Back(|e.name|, t);
    StrBack(e.name, raw + rest);
    TakeBack(raw, rest);
  }

  lemma {:induction false} EnumsBack(es: seq<WireEnum>, size: u32, baseType: u32, rest: seq<byte>)
    requires |es| < 0x1_0000 && forall e :: e in es ==> EnumOk(e, size, baseType)
    ensures ReadEnums(size, baseType)(EncEnums(es, size) + rest) == Ok((Values(es, EnumOf(baseType)), rest))
  {
    hide ReadEnum, EncEnum, EnumOf, EnumOk, Bytes.Le, Bytes.ReadU16, Many;
    assert EncEnums(es, size) + rest == Le(|es|, 2) + (EncList(es, EncEnum(size)) + rest);
    U16Back(|es|, EncList(es, EncEnum(size)) + rest);
    forall i, tail | 0 <= i < |es|
      ensures ReadEnum(size, baseType)(EncEnum(size)(es[i]) + tail) == Ok((EnumOf(baseType)(es[i]), tail))
    {
      EnumBack(es[i], size, baseType, tail);
    }
    ManyBack(es, EncEnum(size), ReadEnum(size, baseType), EnumOf(baseType), rest);
  }

  /** Decoding an encoded type returns everything the client keeps: names, size, bounds, fields in
      order, GUID, methods with their parameters, attributes and enum variants, each present exactly
      when its flag is set. */
  lemma {:induction false} TypeBack(w: WireType)
    requires TypeOk(w)
    ensures ReadType(EncType(w)) == Ok(TypeValue(w))
  {
    hide ReadRecord, EncRecord, ReadSections, EncSections, Values, RecordOk, SectionsOk, ReadEnums, EncEnums, Many, EncList;
    hide FieldOk, EnumOk, Has, FrameOk;
    var flags := w.record.flags;
    var enums := If(Has(flags, TYPE_FLAG_ENUM_INFOS), EncEnums(w.enums, w.record.size));
    var t0 := enums + w.trailing;
    var t1 := EncSections(w.sections, flags) + t0;
    RecordBack(w.record, |w.fields|, EncList(w.fields, FrameField) + t1);
    FieldsBack(w.fields, t1);
    SectionsBack(w.sections, flags, w.record.size, t0);
    EnumsBack(w.enums, w.record.size, w.record.baseType, w.trailing);
    assert [] + w.trailing == w.trailing;
  }

  lemma {:induction false} SymbolBack(w: WireSymbol)
    requires SymbolOk(w)
    ensures ReadSymbol(EncSymbol(w)) == Ok(SymbolValue(w))
  {
    hide Bytes.Le, Bytes.ReadU32, Bytes.ReadU16, ReadStr, EncStr;
    var t0 := EncStr(w.typ) + w.trailing;
    var t1 := EncStr(w.name) + t0;
    var t2 := Le(w.commentLen, 2) + t1;
    var t3 := Le(|w.typ|, 2) + t2;
    var t4 := Le(|w.name|, 2) + t3;
    var t5 := Le(w.legacyArrayDim, 2) + t4;
    var t6 := Le(w.flags, 2) + t5;
    var t7 := Le(w.baseType, 4) + t6;
    var t8 := Le(w.size, 4) + t7;
    var t9 := Le(w.ixOffset, 4) + t8;
    U32Back(w.ixGroup, t9); U32Back(w.ixOffset, t8); U32Back(w.size, t7); U32Back(w.baseType, t6);
    U16Back(w.flags, t5); U16Back(w.legacyArrayDim, t4); U16Back(|w.name|, t3); U16Back(|w.typ|, t2);
    U16Back(w.commentLen, t1);
    StrBack(w.name, t0);
    StrBack(w.typ, w.trailing);
  }

  // ----- round trip of the tables

  lemma {:induction false} TableBack<W, T>(ws: seq<W>, enc: W -> seq<byte>, entry: seq<byte> -> Result<T>,
                                  value: W -> T)
    requires forall i :: 0 <= i < |ws| ==> FrameOk(enc(ws[i])) && entry(enc(ws[i])) == Ok(value(ws[i]))
    ensures ReadTable(EncTable(ws, enc), entry) == Ok(Values(ws, value))
  {
    hide Frame, NextEntry, FrameOk;
    if ws != [] {
      EntryBack(enc(ws[0]), EncTable(ws[1..], enc));
      TableBack(ws[1..], enc, entry, value);
      assert Values(ws, value) == [value(ws[0])] + Values(ws[1..], value);
    }
  }

  lemma {:induction false} EntryBack(body: seq<byte>, rest: seq<byte>)
    requires FrameOk(body)
    ensures Frame(body) + rest != [] && NextEntry(Frame(body) + rest) == Ok((body, rest))
  {
    hide Bytes.Le, Bytes.ReadU32;
    assert Frame(body) + rest == Le(|body| + 4, 4) + (body + rest);
    U32Back(|body| + 4, body + rest);
    TakeBack(body, rest);
  }

  /** A whole upload: symbols in order, and each type name bound to its last type. */
  lemma {:induction false} UploadBack(symbols: seq<WireSymbol>, types: seq<WireType>)
    requires forall w :: w in symbols ==> SymbolOk(w)
    requires forall w :: w in types ==> TypeOk(w)
    ensures ReadTables(EncTable(symbols, EncSymbol), EncTable(types, EncType))
         == Ok((Values(symbols, SymbolValue), ByName(Values(types, TypeValue))))
  {
    hide ReadTable, EncTable, Values, ReadType, EncType, TypeValue, ReadSymbol, EncSymbol, SymbolValue, ByName, FrameOk, Frame;
    forall i | 0 <= i < |symbols|
      ensures FrameOk(EncSymbol(symbols[i])) && ReadSymbol(EncSymbol(symbols[i])) == Ok(SymbolValue(symbols[i]))
    {
      SymbolBack(symbols[i]);
    }
    forall i | 0 <= i < |types|
      ensures FrameOk(EncType(types[i])) && ReadType(EncType(types[i])) == Ok(TypeValue(types[i]))
    {
      TypeBack(types[i]);
    }
    TableBack(symbols, EncSymbol, ReadSymbol, SymbolValue);
    TableBack(types, EncType, ReadType, TypeValue);
  }

  // ----- enum values

  /** An integer enum value comes back as itself iff it is not an unsigned 64-bit one from 2^63 on. */
  lemma {:induction false} EnumValueBack(v: int, size: nat, baseType: u32)
    requires IntOk(v, size, baseType)
    ensures EnumValue(EncInt(v, size), baseType) == Ok(v) <==> (baseType == 21 ==> v < 0x8000_0000_0000_0000)
  {
    hide EnumValue, EncInt;
    IntBack(v, size, baseType);
  }

  /** For base types without a width of their own, sizes other than 1, 2, 4 and 8 give -99. */
  lemma {:induction false} EnumValueOddSize(raw: seq<byte>, baseType: u32)
    requires IntWidth(baseType) == 0 && baseType != 4 && baseType != 5
    requires |raw| != 1 && |raw| != 2 && |raw| != 4 && |raw| != 8
    ensures EnumValue(raw, baseType) == Ok(-99)
  {
    hide Bytes.Unle, FloatToInt;
  }

  /** Bit 0 of a parameter's flags marks it as input, bit 1 as output, both as in-out. */
  lemma {:induction false} KindByBits(flags: u32)
    ensures KindOf(flags) == if Has(flags, 1) then (if Has(flags, 2) then InOut else Input)
                             else (if Has(flags, 2) then Output else Unknown)
  {
    var q, r := flags / 4, flags % 4;
    assert flags == 4 * q + r;
    assert (flags / 2) % 2 == r / 2;
  }

  // ----- the flags in numbers

  /** Which parts a decoded type has, by the bits of its flags. */
  lemma {:induction false} SectionsByFlag(w: WireType)
    requires TypeOk(w)
    ensures ReadType(EncType(w)).Ok?
    ensures var t, flags := ReadType(EncType(w)).value, w.record.flags;
      && t.guid == (if (flags / 0x80) % 2 == 1 then Some(w.sections.guid) else None)
      && (t.methods.Some? <==> (flags / 0x800) % 2 == 1)
      && t.attributes == (if (flags / 0x1000) % 2 == 1 then Some(w.sections.attributes) else None)
      && (t.enumInfo.Some? <==> (flags / 0x2000) % 2 == 1)
  {
    hide ReadType, EncType, TypeOk, Values;
    TypeBack(w);
  }

  /** Which bytes a section takes, by its bit: the copy mask is there although nothing of it is kept. */
  lemma {:induction false} SectionBytes(s: WireSections)
    ensures EncSections(s, 0) == [] && EncSections(s, 0x80) == s.guid && EncSections(s, 0x200) == s.copyMask
    ensures EncSections(s, 0x800) == EncMethods(s.methods) && EncSections(s, 0x1000) == EncAttributes(s.attributes)
  {
    hide EncMethods, EncAttributes;
  }

  /** And their order. */
  lemma {:induction false} SectionOrder(s: WireSections)
    ensures EncSections(s, 0x1A80) == s.guid + s.copyMask + EncMethods(s.methods) + EncAttributes(s.attributes)
  {
    hide EncMethods, EncAttributes;
  }

  // ----- what is kept of the wire, part by part

  lemma {:induction false} ParameterParts(w: WireParameter)
    requires ParameterOk(w)
    ensures ReadParameter(EncParameter(w)).Ok?
    ensures var p := ReadParameter(EncParameter(w)).value;
      && p.name == w.name && p.typ == w.typ && p.size == w.size && p.comment == w.comment
      && p.kind == (match w.flags % 4 case 1 => Input case 2 => Output case 3 => InOut case _ => Unknown)
      && p.attributes == if (w.flags / 0x40) % 2 == 1 then w.attributes else []
  {
    hide ReadParameter, EncParameter, ParameterOk;
    ParameterBack(w);
  }

  lemma {:induction false} MethodParts(w: WireMethod, i: nat)
    requires MethodOk(w) && i < |w.parameters|
    ensures ReadMethod(EncMethod(w)).Ok?
    ensures var m := ReadMethod(EncMethod(w)).value;
      && m.name == w.name && m.returnType == w.returnType && m.returnSize == w.returnSize && m.comment == w.comment
      && m.attributes == (if (w.flags / 8) % 2 == 1 then w.attributes else [])
      && |m.parameters| == |w.parameters| && m.parameters[i].name == w.parameters[i].name
      && m.parameters[i].typ == w.parameters[i].typ && m.parameters[i].size == w.parameters[i].size
  {
    hide ReadMethod, EncMethod, MethodOk;
    MethodBack(w);
  }

  lemma {:induction false} FieldParts(w: WireField)
    requires FieldOk(w)
    ensures ReadField(EncField(w)).Ok?
    ensures var f, r := ReadField(EncField(w)).value, w.record;
      && f.name == r.name && f.typ == r.typeName && f.comment == r.comment && f.size == r.size
      && f.baseType == r.baseType && f.flags == r.flags && f.bounds == Values(r.bounds, BoundsValue)
      && f.offset == (if r.offset == 0xFFFF_FFFF then None else Some(r.offset))
      && f.attributes == if (r.flags / 0x1000) % 2 == 1 then Some(w.sections.attributes) else None
  {
    hide ReadField, EncField, FieldOk, Values;
    FieldBack(w);
  }

  lemma {:induction false} TypeParts(w: WireType, i: nat)
    requires TypeOk(w) && i < |w.fields|
    ensures ReadType(EncType(w)).Ok?
    ensures var t, r := ReadType(EncType(w)).value, w.record;
      && t.name == r.name && t.typeName == r.typeName && t.comment == r.comment && t.size == r.size
      && t.baseType == r.baseType && t.flags == r.flags && t.bounds == Values(r.bounds, BoundsValue)
      && |t.fields| == |w.fields| && Ok(t.fields[i]) == ReadField(EncField(w.fields[i]))
  {
    assert FieldOk(w.fields[i]);
    hide ReadType, EncType, TypeOk, ReadField, EncField;
    TypeBack(w);
    FieldBack(w.fields[i]);
  }

  lemma {:induction false} EnumParts(w: WireType, i: nat)
    requires TypeOk(w) && i < |w.enums| && w.enums[i].IntEnum? && (w.record.flags / 0x2000) % 2 == 1
    ensures ReadType(EncType(w)).Ok?
    ensures var t, e := ReadType(EncType(w)).value, w.enums[i];
      && t.enumInfo.Some? && |t.enumInfo.value| == |w.enums| && t.enumInfo.value[i].name == e.name
      && (w.record.baseType != 21 ==> t.enumInfo.value[i].value == e.value)
  {
    hide ReadType, EncType, TypeOk;
    TypeBack(w);
  }

  lemma {:induction false} SymbolParts(w: WireSymbol)
    requires SymbolOk(w)
    ensures ReadSymbol(EncSymbol(w)).Ok?
    ensures var s := ReadSymbol(EncSymbol(w)).value;
      && s.name == w.name && s.typ == w.typ && s.ixGroup == w.ixGroup && s.ixOffset == w.ixOffset
      && s.size == w.size && s.baseType == w.baseType && s.flags == w.flags
  {
    hide ReadSymbol, EncSymbol, SymbolOk;
    SymbolBack(w);
  }

  // ----- where the parts lie

  /** The piece at an offset, and what follows it. */
  lemma {:induction false} Next(s: seq<byte>, k: nat, a: seq<byte>, t: seq<byte>)
    requires k <= |s| && s[k..] == a + t
    ensures k + |a| <= |s| && s[k..k + |a|] == a && s[k + |a|..] == t
  {
    assert s[k..][|a|..] == t;
  }

  lemma {:induction false} TextLayout(a: seq<byte>, b: seq<byte>, c: seq<byte>)
    ensures Strs(a, b, c) == a + [0] + b + [0] + c + [0] && EncStr(a) == a + [0]
  {
  }

  lemma {:induction false} SymbolLayout(w: WireSymbol)
    ensures var s := EncSymbol(w);
      && |s| >= 26
      && s[0..4] == Le(w.ixGroup, 4) && s[4..8] == Le(w.ixOffset, 4) && s[8..12] == Le(w.size, 4)
      && s[12..16] == Le(w.baseType, 4) && s[16..18] == Le(w.flags, 2) && s[18..20] == Le(w.legacyArrayDim, 2)
      && s[20..22] == Le(|w.name|, 2) && s[22..24] == Le(|w.typ|, 2) && s[24..26] == Le(w.commentLen, 2)
      && s[26..] == EncStr(w.name) + (EncStr(w.typ) + w.trailing)
  {
    hide Bytes.Le, EncStr;
    var s := EncSymbol(w);
    var t9 := EncStr(w.name) + (EncStr(w.typ) + w.trailing);
    var t8 := Le(w.commentLen, 2) + t9;
    var t7 := Le(|w.typ|, 2) + t8;
    var t6 := Le(|w.name|, 2) + t7;
    var t5 := Le(w.legacyArrayDim, 2) + t6;
    var t4 := Le(w.flags, 2) + t5;
    var t3 := Le(w.baseType, 4) + t4;
    var t2 := Le(w.size, 4) + t3;
    var t1 := Le(w.ixOffset, 4) + t2;
    assert s == Le(w.ixGroup, 4) + t1;
    hide EncSymbol;
    assert s[0..] == s;
    Next(s, 0, Le(w.ixGroup, 4), t1); Next(s, 4, Le(w.ixOffset, 4), t2); Next(s, 8, Le(w.size, 4), t3);
    Next(s, 12, Le(w.baseType, 4), t4); Next(s, 16, Le(w.flags, 2), t5); Next(s, 18, Le(w.legacyArrayDim, 2), t6);
    Next(s, 20, Le(|w.name|, 2), t7); Next(s, 22, Le(|w.typ|, 2), t8); Next(s, 24, Le(w.commentLen, 2), t9);
  }

  lemma {:induction false} RecordLayout(w: WireRecord, n: nat)
    requires |w.header| == 8
    ensures var s := EncRecord(w, n);
      && |s| >= 38
      && s[0..4] == Le(1, 4) && s[4..12] == w.header && s[12..16] == Le(w.size, 4) && s[16..20] == Le(w.offset, 4)
      && s[20..24] == Le(w.baseType, 4) && s[24..28] == Le(w.flags, 4)
      && s[28..30] == Le(|w.name|, 2) && s[30..32] == Le(|w.typeName|, 2) && s[32..34] == Le(|w.comment|, 2)
      && s[34..36] == Le(|w.bounds|, 2) && s[36..38] == Le(n, 2)
      && s[38..] == Strs(w.name, w.typeName, w.comment) + EncList(w.bounds, EncBounds)
  {
    hide Bytes.Le, Strs, EncList;
    var s := EncRecord(w, n);
    var t11 := Strs(w.name, w.typeName, w.comment) + EncList(w.bounds, EncBounds);
    var t10 := Le(n, 2) + t11;
    var t9 := Le(|w.bounds|, 2) + t10;
    var t8 := Le(|w.comment|, 2) + t9;
    var t7 := Le(|w.typeName|, 2) + t8;
    var t6 := Le(|w.name|, 2) + t7;
    var t5 := Le(w.flags, 4) + t6;
    var t4 := Le(w.baseType, 4) + t5;
    var t3 := Le(w.offset, 4) + t4;
    var t2 := Le(w.size, 4) + t3;
    var t1 := w.header + t2;
    assert s == Le(1, 4) + t1;
    hide EncRecord;
    assert s[0..] == s;
    Next(s, 0, Le(1, 4), t1); Next(s, 4, w.header, t2); Next(s, 12, Le(w.size, 4), t3);
    Next(s, 16, Le(w.offset, 4), t4); Next(s, 20, Le(w.baseType, 4), t5); Next(s, 24, Le(w.flags, 4), t6);
    Next(s, 28, Le(|w.name|, 2), t7); Next(s, 30, Le(|w.typeName|, 2), t8); Next(s, 32, Le(|w.comment|, 2), t9);
    Next(s, 34, Le(|w.bounds|, 2), t10); Next(s, 36, Le(n, 2), t11);
  }

  lemma {:induction false} ParameterLayout(w: WireParameter)
    requires |w.guid| == 16
    ensures var s := EncParameter(w);
      && |s| >= 44
      && s[0..4] == Le(w.size, 4) && s[12..16] == Le(w.flags, 4) && s[20..36] == w.guid
      && s[38..40] == Le(|w.name|, 2) && s[40..42] == Le(|w.typ|, 2) && s[42..44] == Le(|w.comment|, 2)
      && s[44..] == Strs(w.name, w.typ, w.comment)
                    + (If(Has(w.flags, 0x40), EncAttributes(w.attributes)) + w.trailing)
  {
    hide Bytes.Le, Strs, EncAttributes, If, Has;
    var s := EncParameter(w);
    var t10 := Strs(w.name, w.typ, w.comment) + (If(Has(w.flags, 0x40), EncAttributes(w.attributes)) + w.trailing);
    var t9 := Le(|w.comment|, 2) + t10;
    var t8 := Le(|w.typ|, 2) + t9;
    var t7 := Le(|w.name|, 2) + t8;
    var t6 := Le(w.lengthIs, 2) + t7;
    var t5 := w.guid + t6;
    var t4 := Le(w.reserved, 4) + t5;
    var t3 := Le(w.flags, 4) + t4;
    var t2 := Le(w.dataType, 4) + t3;
    var t1 := Le(w.alignSize, 4) + t2;
    assert s == Le(w.size, 4) + t1;
    hide EncParameter;
    assert s[0..] == s;
    Next(s, 0, Le(w.size, 4), t1); Next(s, 4, Le(w.alignSize, 4), t2); Next(s, 8, Le(w.dataType, 4), t3);
    Next(s, 12, Le(w.flags, 4), t4); Next(s, 16, Le(w.reserved, 4), t5); Next(s, 20, w.guid, t6);
    Next(s, 36, Le(w.lengthIs, 2), t7); Next(s, 38, Le(|w.name|, 2), t8); Next(s, 40, Le(|w.typ|, 2), t9);
    Next(s, 42, Le(|w.comment|, 2), t10);
  }

  /** The part of a method record behind its GUID. */
  function MethodRest(w: WireMethod): seq<byte> {
    Le(w.dataType, 4) + (Le(w.flags, 4)
    + (Le(|w.name|, 2) + (Le(|w.returnType|, 2) + (Le(|w.comment|, 2) + (Le(|w.parameters|, 2)
    + (Strs(w.name, w.returnType, w.comment)
    + (EncList(w.parameters, FrameParameter)
    + (If(Has(w.flags, RPC_METHOD_ATTRIBUTE_FLAG), EncAttributes(w.attributes)) + w.trailing))))))))
  }

  lemma {:induction false} MethodFront(w: WireMethod)
    requires |w.guid| == 16
    ensures var s := EncMethod(w);
      |s| >= 36 && s[8..12] == Le(w.returnSize, 4) && s[20..36] == w.guid && s[36..] == MethodRest(w)
  {
    hide Bytes.Le, MethodRest;
    var s, t6 := EncMethod(w), MethodRest(w);
    var t5 := w.guid + t6;
    var t4 := Le(w.reserved, 4) + t5;
    var t3 := Le(w.returnAlign, 4) + t4;
    var t2 := Le(w.returnSize, 4) + t3;
    var t1 := Le(w.vTableIndex, 4) + t2;
    assert s == Le(w.version, 4) + t1 by {
      MethodSplit(w);
    }
    hide EncMethod;
    assert s[0..] == s;
    Next(s, 0, Le(w.version, 4), t1); Next(s, 4, Le(w.vTableIndex, 4), t2); Next(s, 8, Le(w.returnSize, 4), t3);
    Next(s, 12, Le(w.returnAlign, 4), t4); Next(s, 16, Le(w.reserved, 4), t5); Next(s, 20, w.guid, t6);
  }

  lemma {:induction false} MethodSplit(w: WireMethod)
    ensures EncMethod(w) == Le(w.version, 4) + (Le(w.vTableIndex, 4) + (Le(w.returnSize, 4) + (Le(w.returnAlign, 4)
                            + (Le(w.reserved, 4) + (w.guid + MethodRest(w))))))
  {
    hide Bytes.Le, Strs, EncAttributes, EncList, If, Has;
  }

  lemma {:induction false} MethodLayout(w: WireMethod)
    requires |w.guid| == 16
    ensures var s := EncMethod(w);
      && |s| >= 52
      && s[8..12] == Le(w.returnSize, 4) && s[20..36] == w.guid && s[40..44] == Le(w.flags, 4)
      && s[44..46] == Le(|w.name|, 2) && s[46..48] == Le(|w.returnType|, 2) && s[48..50] == Le(|w.comment|, 2)
      && s[50..52] == Le(|w.parameters|, 2)
      && s[52..] == Strs(w.name, w.returnType, w.comment) + (EncList(w.parameters, FrameParameter)
                    + (If(Has(w.flags, 8), EncAttributes(w.attributes)) + w.trailing))
  {
    hide Bytes.Le, Strs, EncAttributes, EncList, If, Has, EncMethod;
    var s := EncMethod(w);
    MethodFront(w);
    var t12 := Strs(w.name, w.returnType, w.comment) + (EncList(w.parameters, FrameParameter)
              + (If(Has(w.flags, 8), EncAttributes(w.attributes)) + w.trailing));
    var t11 := Le(|w.parameters|, 2) + t12;
    var t10 := Le(|w.comment|, 2) + t11;
    var t9 := Le(|w.returnType|, 2) + t10;
    var t8 := Le(|w.name|, 2) + t9;
    var t7 := Le(w.flags, 4) + t8;
    assert s[36..] == Le(w.dataType, 4) + t7;
    hide MethodRest;
    Next(s, 36, Le(w.dataType, 4), t7); Next(s, 40, Le(w.flags, 4), t8); Next(s, 44, Le(|w.name|, 2), t9);
    Next(s, 46, Le(|w.returnType|, 2), t10); Next(s, 48, Le(|w.comment|, 2), t11);
    Next(s, 50, Le(|w.parameters|, 2), t12);
  }

  /** Attributes and variants: the lengths, then the text with its null, then the value. */
  lemma {:induction false} SmallLayouts(a: Attribute, e: WireEnum, size: nat)
    requires |a.name| < 256 && |a.value| < 256 && |e.name| < 256
    ensures EncAttribute(a) == [|a.name|] + [|a.value|] + a.name + [0] + a.value + [0]
    ensures EncEnum(size)(e) == [|e.name|] + e.name + [0] + EnumBytes(e, size)
    ensures EncAttributes([a]) == Le(1, 2) + EncAttribute(a)
    ensures EncEnums([e], size) == Le(1, 2) + EncEnum(size)(e)
    ensures EncMethods([]) == Le(0, 2)
  {
    hide Bytes.Le, EnumBytes;
    assert [a][1..] == [] && [e][1..] == [];
    assert EncList([a], EncAttribute) == EncAttribute(a) + EncList([], EncAttribute);
    assert EncList([e], EncEnum(size)) == EncEnum(size)(e) + EncList([], EncEnum(size));
  }

  // ----- what is not decoded

  /** Entries inside a record must leave room for their own size, and may not run past the data. */
  lemma {:induction false} BadEntries<T>(size: u32, rest: seq<byte>, body: seq<byte> -> Result<T>)
    ensures size < 4 ==> Framed(Le(size, 4) + rest, body) == Err(Reply(BadEntryLength, size))
    ensures size > |rest| + 4 ==> Framed(Le(size, 4) + rest, body) == Err(Panic)
    ensures size < 4 || size > |rest| + 4 ==> NextEntry(Le(size, 4) + rest) == Err(Panic)
    ensures 4 <= size <= |rest| + 4 ==> NextEntry(Le(size, 4) + rest) == Ok((rest[..size - 4], rest[size - 4..]))
  {
    hide Bytes.Le, Bytes.ReadU32;
    U32Back(size, rest);
  }

  /** Records of another version are refused, and text that runs past the data is cut off there. */
  lemma {:induction false} OtherVersionRefused(version: u32, rest: seq<byte>)
    requires version != 1
    ensures ReadRecord(Le(version, 4) + rest) == Err(Reply(BadTypeVersion, version))
  {
    hide Bytes.Le, Bytes.ReadU32;
    U32Back(version, rest);
  }

  lemma {:induction false} CutText(p: seq<byte>, len: nat)
    ensures |p| <= len <= 8196 ==> ReadStr(p, len) == Ok((p, []))
    ensures len > 8196 ==> ReadStr(p, len) == Err(Reply(StringTooLong, len))
  {
  }

  /** The same bytes under every base type. */
  lemma {:induction false} BaseTypes()
    ensures EnumValue([0xFE], 16) == Ok(-2) && EnumValue([0xFE], 17) == Ok(0xFE)
    ensures EnumValue([0xFE, 0xFF], 2) == Ok(-2) && EnumValue([0xFE, 0xFF], 18) == Ok(0xFFFE)
    ensures EnumValue([0xFE, 0xFF, 0xFF, 0xFF], 3) == Ok(-2) && EnumValue([0xFE, 0xFF, 0xFF, 0xFF], 19) == Ok(0xFFFF_FFFE)
    ensures EnumValue([0xFE], 65) == Ok(0xFE) && EnumValue([0xFE, 0xFF], 65) == Ok(-2) && EnumValue([0xFE], 18) == Err(Panic)
  {
    hide FloatToInt;
    assert [0xFE][..1] == [0xFE] && [0xFE, 0xFF][..2] == [0xFE, 0xFF];
    var four := [0xFE, 0xFF, 0xFF, 0xFF];
    assert four[..4] == four;
    LittleEndian(four);
    assert four[..2] == [0xFE, 0xFF];
    assert Unle([0xFE]) == 0xFE + 256 * Unle([]);
  }

  // ----- the struct of the decoder's own test: two fields, no arrays, no optional sections

  function Plain(name: seq<byte>, typeName: seq<byte>, size: u32, offset: u32, baseType: u32): WireRecord {
    WireRecord([0, 0, 0, 0, 0, 0, 0, 0], size, offset, baseType, 1, name, typeName, [], [])
  }

  function NoSections(size: u32): WireSections {
    WireSections(seq(16, _ => 0), seq(size, _ => 0), [], [])
  }

  function TwoFields(name: seq<byte>, f0: seq<byte>, t0: seq<byte>, f1: seq<byte>, t1: seq<byte>): WireType {
    WireType(Plain(name, [], 4, 0, 65),
             [WireField(Plain(f0, t0, 1, 0, 33), NoSections(1), []), WireField(Plain(f1, t1, 2, 2, 2), NoSections(2), [])],
             NoSections(4), [], [])
  }

  lemma {:induction false} PlainLength(w: WireRecord, size: u32, n: nat)
    requires |w.header| == 8 && w.bounds == []
    ensures |EncRecord(w, n)| == 41 + |w.name| + |w.typeName| + |w.comment| && EncSections(NoSections(size), 1) == []
  {
    hide Bytes.Le, EncMethods, EncAttributes;
  }

  lemma {:induction false} TwoFieldsOk(name: seq<byte>, f0: seq<byte>, t0: seq<byte>, f1: seq<byte>, t1: seq<byte>)
    requires StrOk(name) && StrOk(f0) && StrOk(t0) && StrOk(f1) && StrOk(t1)
    ensures TypeOk(TwoFields(name, f0, t0, f1, t1))
  {
    hide Bytes.Le, EncRecord, EncSections;
    var w := TwoFields(name, f0, t0, f1, t1);
    PlainLength(w.record, 4, 2);
    PlainLength(w.fields[0].record, 1, 0);
    PlainLength(w.fields[1].record, 2, 0);
    assert w.fields[1..] == [w.fields[1]] && w.fields[1..][1..] == [];
    assert |EncList(w.fields[1..], FrameField)| == |FrameField(w.fields[1])|;
    assert !Has(1, TYPE_FLAG_ENUM_INFOS);
  }

  /** For any names it is a well-formed upload and decodes to its two fields in order. */
  lemma {:induction false} TwoFieldStruct(name: seq<byte>, f0: seq<byte>, t0: seq<byte>, f1: seq<byte>, t1: seq<byte>)
    requires StrOk(name) && StrOk(f0) && StrOk(t0) && StrOk(f1) && StrOk(t1)
    ensures var w := TwoFields(name, f0, t0, f1, t1);
      && ReadTables([], EncTable([w], EncType)) == Ok(([], map[name := TypeValue(w)]))
      && TypeValue(w).fields
           == [Field(f0, t0, Some(0), 1, [], 33, 1, [], None), Field(f1, t1, Some(2), 2, [], 2, 1, [], None)]
  {
    hide TypeOk, EncType, ReadTables, SectionsValue, EnumOf;
    var w := TwoFields(name, f0, t0, f1, t1);
    TwoFieldsOk(name, f0, t0, f1, t1);
    UploadBack([], [w]);
    assert Values([w], TypeValue) == [TypeValue(w)] && Values([], SymbolValue) == [];
    assert [TypeValue(w)][..0] == [];
  }
}
