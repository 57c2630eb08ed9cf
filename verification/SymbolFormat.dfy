/**
 The records of a PLC's symbol and type tables and the functions that say what their decoder
 computes (src/symbol.rs).  Text stays a byte string; a GUID stays its 16 bytes.
 */
module SymbolFormat {
  import opened Bytes

  datatype Attribute = Attribute(name: seq<byte>, value: seq<byte>)

  datatype EnumInfo = EnumInfo(name: seq<byte>, value: int)

  datatype VariableKind = Input | Output | InOut | Unknown

  datatype RpcParameter = RpcParameter(
    name: seq<byte>, typ: seq<byte>, size: u32, kind: VariableKind, comment: seq<byte>, attributes: seq<Attribute>)

  datatype RpcMethod = RpcMethod(
    name: seq<byte>, returnType: seq<byte>, returnSize: u32, comment: seq<byte>,
    parameters: seq<RpcParameter>, attributes: seq<Attribute>)

  datatype Field = Field(
    name: seq<byte>, typ: seq<byte>, offset: Option<u32>, size: u32, bounds: seq<(int, int)>, baseType: u32,
    flags: u32, comment: seq<byte>, attributes: Option<seq<Attribute>>)

  datatype Type = Type(
    name: seq<byte>, typeName: seq<byte>, comment: seq<byte>, size: u32, bounds: seq<(int, int)>,
    fields: seq<Field>, baseType: u32, flags: u32, guid: Option<seq<byte>>, methods: Option<seq<RpcMethod>>,
    attributes: Option<seq<Attribute>>, enumInfo: Option<seq<EnumInfo>>)

  datatype Symbol = Symbol(
    name: seq<byte>, ixGroup: u32, ixOffset: u32, typ: seq<byte>, size: u32, baseType: u32, flags: u16)

  const TYPE_FLAG_GUID := 0x80
  const TYPE_FLAG_COPY_MASK := 0x200
  const TYPE_FLAG_METHOD_INFOS := 0x800
  const TYPE_FLAG_ATTRIBUTES := 0x1000
  const TYPE_FLAG_ENUM_INFOS := 0x2000
  const RPC_METHOD_ATTRIBUTE_FLAG := 0x08
  const RPC_PARAM_ATTRIBUTE_FLAG := 0x40
  const MAX_STR_LEN := 8196

  /** `flags & bit != 0` for a single bit. */
  predicate Has(flags: u32, bit: nat)
    requires bit > 0
  {
    (flags / bit) % 2 == 1
  }

  // ----- building blocks

  /** A length-prefixed, null-terminated string; past the end of the data it is cut off. */
  function ReadStr(p: seq<byte>, len: nat): Result<(seq<byte>, seq<byte>)> {
    if len > MAX_STR_LEN then Err(Reply(StringTooLong, len))
    else if len + 1 > |p| then Ok((p, []))
    else Ok((p[..len], p[len + 1..]))
  }

  /** `n` values, one after the other. */
  function Many<T>(p: seq<byte>, n: nat, one: seq<byte> -> Result<(T, seq<byte>)>): Result<(seq<T>, seq<byte>)>
    decreases n
  {
    if n == 0 then Ok(([], p))
    else
      var (x, p) :- one(p);
      var (xs, p) :- Many(p, n - 1, one);
      Ok(([x] + xs, p))
  }

  /** One entry with a leading size that counts itself; the size must leave room for itself, and
      running past the data panics. */
  function Framed<T>(p: seq<byte>, body: seq<byte> -> Result<T>): Result<(T, seq<byte>)> {
    var (size, p) :- ReadU32(p);
    if size < 4 then Err(Reply(BadEntryLength, size))
    else if size - 4 > |p| then Err(Panic)
    else
      var x :- body(p[..size - 4]);
      Ok((x, p[size - 4..]))
  }

  function Optional<T>(present: bool, p: seq<byte>, section: seq<byte> -> Result<(T, seq<byte>)>): Result<(Option<T>,
                       seq<byte>)> {
    if present then
      var (x, p) :- section(p);
      Ok((Some(x), p))
    else Ok((None, p))
  }

  // ----- sections

  function ReadAttribute(p: seq<byte>): Result<(Attribute, seq<byte>)> {
    var (nameLen, p) :- ReadU8(p);
    var (valueLen, p) :- ReadU8(p);
    var (name, p) :- ReadStr(p, nameLen);
    var (value, p) :- ReadStr(p, valueLen);
    Ok((Attribute(name, value), p))
  }

  function ReadAttributes(p: seq<byte>): Result<(seq<Attribute>, seq<byte>)> {
    var (count, p) :- ReadU16(p);
    Many(p, count, ReadAttribute)
  }

  function Pow2(n: nat): (r: nat)
    ensures r > 0
  {
    if n == 0 then 1 else 2 * Pow2(n - 1)
  }

  function Saturate(v: int): int {
    if v < -0x8000_0000_0000_0000 then -0x8000_0000_0000_0000
    else if v > 0x7FFF_FFFF_FFFF_FFFF then 0x7FFF_FFFF_FFFF_FFFF
    else v
  }

  /** The conversion of an IEEE 754 number to a 64-bit integer: truncated, saturated, NaN to 0. */
  function FloatToInt(bits: nat, mantissaBits: nat, exponentBits: nat): int
    requires exponentBits > 0
  {
    var mantissa := bits % Pow2(mantissaBits);
    var exponent := (bits / Pow2(mantissaBits)) % Pow2(exponentBits);
    var negative := (bits / Pow2(mantissaBits + exponentBits)) % 2 == 1;
    var shift := exponent - (Pow2(exponentBits - 1) - 1) - mantissaBits;
    if exponent == Pow2(exponentBits) - 1 && mantissa != 0 then 0
    else if exponent == 0 then 0
    else
      var magnitude := if shift >= 0 then (mantissa + Pow2(mantissaBits)) * Pow2(shift)
                       else (mantissa + Pow2(mantissaBits)) / Pow2(-shift);
      Saturate(if negative then -magnitude else magnitude)
  }

  /** How many bytes the decoder looks at for a base type; it panics if the type is smaller. */
  function EnumWidth(size: nat, baseType: u32): nat {
    match baseType
    case 16 => 1 case 17 => 1
    case 2 => 2 case 18 => 2
    case 3 => 4 case 4 => 4 case 19 => 4
    case 5 => 8 case 20 => 8 case 21 => 8
    case _ => if size == 1 || size == 2 || size == 4 || size == 8 then size else 0
  }

  /** The value of an enum variant from its bytes. */
  function EnumValue(raw: seq<byte>, baseType: u32): Result<int> {
    var w := EnumWidth(|raw|, baseType);
    if w > |raw| then Err(Panic)
    else
      var v := Unle(raw[..w]);
      match baseType
      case 2 => Ok(Signed(v, 0x8000))
      case 3 => Ok(Signed(v, 0x8000_0000))
      case 4 => Ok(FloatToInt(v, 23, 8))
      case 5 => Ok(FloatToInt(v, 52, 11))
      case 16 => Ok(Signed(v, 0x80))
      case 17 => Ok(v)
      case 18 => Ok(v)
      case 19 => Ok(v)
      case 20 => Ok(Signed(v, 0x8000_0000_0000_0000))
      case 21 => Ok(Signed(v, 0x8000_0000_0000_0000)) // `as i64` wraps
      case _ =>
        match |raw|
        case 1 => Ok(v)
        case 2 => Ok(Signed(v, 0x8000))
        case 4 => Ok(Signed(v, 0x8000_0000))
        case 8 => Ok(Signed(v, 0x8000_0000_0000_0000))
        case _ => Ok(-99)
  }

  function ReadEnum(size: u32, baseType: u32): seq<byte> -> Result<(EnumInfo, seq<byte>)> {
    (p: seq<byte>) =>
      var (nameLen, p) :- ReadU8(p);
      var (name, p) :- ReadStr(p, nameLen);
      var (raw, p) :- Take(p, size);
      var value :- EnumValue(raw, baseType);
      Ok((EnumInfo(name, value), p))
  }

  function ReadEnums(size: u32, baseType: u32): seq<byte> -> Result<(seq<EnumInfo>, seq<byte>)> {
    (p: seq<byte>) =>
      var (count, p) :- ReadU16(p);
      Many(p, count, ReadEnum(size, baseType))
  }

  // ----- RPC methods

  function KindOf(flags: u32): VariableKind {
    match flags % 4 case 1 => Input case 2 => Output case 3 => InOut case _ => Unknown
  }

  /** The three strings of a record, whose lengths precede them. */
  function ReadStrs(p: seq<byte>, a: nat, b: nat, c: nat): Result<((seq<byte>, seq<byte>, seq<byte>), seq<byte>)> {
    var (x, p) :- ReadStr(p, a);
    var (y, p) :- ReadStr(p, b);
    var (z, p) :- ReadStr(p, c);
    Ok(((x, y, z), p))
  }

  function OrEmpty<T>(o: Option<seq<T>>): seq<T> {
    if o.Some? then o.value else []
  }

  function ReadParameter(p: seq<byte>): Result<RpcParameter> {
    var (size, p) :- ReadU32(p);
    var (_, p) :- ReadU32(p);
    var (_, p) :- ReadU32(p);
    var (flags, p) :- ReadU32(p);
    var (_, p) :- ReadU32(p);
    var (_, p) :- Take(p, 16);
    var (_, p) :- ReadU16(p);
    var (nameLen, p) :- ReadU16(p);
    var (typeLen, p) :- ReadU16(p);
    var (commentLen, p) :- ReadU16(p);
    var (strs, p) :- ReadStrs(p, nameLen, typeLen, commentLen);
    var (attributes, _) :- Optional(Has(flags, RPC_PARAM_ATTRIBUTE_FLAG), p, ReadAttributes);
    Ok(RpcParameter(strs.0, strs.1, size, KindOf(flags), strs.2, OrEmpty(attributes)))
  }

  function FramedParameter(p: seq<byte>): Result<(RpcParameter, seq<byte>)> {
    Framed(p, ReadParameter)
  }

  function ReadMethod(p: seq<byte>): Result<RpcMethod> {
    var (_, p) :- ReadU32(p);
    var (_, p) :- ReadU32(p);
    var (returnSize, p) :- ReadU32(p);
    var (_, p) :- ReadU32(p);
    var (_, p) :- ReadU32(p);
    var (_, p) :- Take(p, 16);
    var (_, p) :- ReadU32(p);
    var (flags, p) :- ReadU32(p);
    var (nameLen, p) :- ReadU16(p);
    var (typeLen, p) :- ReadU16(p);
    var (commentLen, p) :- ReadU16(p);
    var (paramCount, p) :- ReadU16(p);
    var (strs, p) :- ReadStrs(p, nameLen, typeLen, commentLen);
    var (parameters, p) :- Many(p, paramCount, FramedParameter);
    var (attributes, _) :- Optional(Has(flags, RPC_METHOD_ATTRIBUTE_FLAG), p, ReadAttributes);
    Ok(RpcMethod(strs.0, strs.1, returnSize, strs.2, parameters, OrEmpty(attributes)))
  }

  function FramedMethod(p: seq<byte>): Result<(RpcMethod, seq<byte>)> {
    Framed(p, ReadMethod)
  }

  function ReadMethods(p: seq<byte>): Result<(seq<RpcMethod>, seq<byte>)> {
    var (count, p) :- ReadU16(p);
    Many(p, count, FramedMethod)
  }

  // ----- types and fields

  /** Array bounds; `lower + total - 1` is computed in 32 bits and panics on overflow. */
  function ReadBounds(p: seq<byte>): Result<((int, int), seq<byte>)> {
    var (l, p) :- ReadU32(p);
    var (t, p) :- ReadU32(p);
    var lower, total := Signed(l, 0x8000_0000), Signed(t, 0x8000_0000);
    if -0x8000_0000 < lower + total < 0x8000_0000 then Ok(((lower, lower + total - 1), p)) else Err(Panic)
  }

  /** The part that type and field records have in common. */
  datatype Record = Record(
    size: u32, offset: u32, baseType: u32, flags: u32, subItems: u16,
    name: seq<byte>, typeName: seq<byte>, comment: seq<byte>, bounds: seq<(int, int)>)

  function ReadRecord(p: seq<byte>): Result<(Record, seq<byte>)> {
    var (version, p) :- ReadU32(p);
    if version != 1 then Err(Reply(BadTypeVersion, version))
    else
      var (_, p) :- Take(p, 8);
      var (size, p) :- ReadU32(p);
      var (offset, p) :- ReadU32(p);
      var (baseType, p) :- ReadU32(p);
      var (flags, p) :- ReadU32(p);
      var (nameLen, p) :- ReadU16(p);
      var (typeLen, p) :- ReadU16(p);
      var (commentLen, p) :- ReadU16(p);
      var (dims, p) :- ReadU16(p);
      var (subItems, p) :- ReadU16(p);
      var (strs, p) :- ReadStrs(p, nameLen, typeLen, commentLen);
      var (bounds, p) :- Many(p, dims, ReadBounds);
      Ok((Record(size, offset, baseType, flags, subItems, strs.0, strs.1, strs.2, bounds), p))
  }

  function Bytes16(p: seq<byte>): Result<(seq<byte>, seq<byte>)> {
    Take(p, 16)
  }

  function Mask(size: u32): seq<byte> -> Result<(seq<byte>, seq<byte>)> {
    (p: seq<byte>) => Take(p, size)
  }

  /** The optional sections in front of a record's own: GUID, copy mask, methods, attributes. */
  datatype Sections = Sections(guid: Option<seq<byte>>, methods: Option<seq<RpcMethod>>, attributes: Option<seq<Attribute>>)

  function ReadSections(p: seq<byte>, flags: u32, size: u32): Result<(Sections, seq<byte>)> {
    var (guid, p) :- Optional(Has(flags, TYPE_FLAG_GUID), p, Bytes16);
    var (_, p) :- Optional(Has(flags, TYPE_FLAG_COPY_MASK), p, Mask(size));
    var (methods, p) :- Optional(Has(flags, TYPE_FLAG_METHOD_INFOS), p, ReadMethods);
    var (attributes, p) :- Optional(Has(flags, TYPE_FLAG_ATTRIBUTES), p, ReadAttributes);
    Ok((Sections(guid, methods, attributes), p))
  }

  function ReadField(p: seq<byte>): Result<Field> {
    var (r, p) :- ReadRecord(p);
    var (s, _) :- ReadSections(p, r.flags, r.size);
    var offset := if r.offset == 0xFFFF_FFFF then None else Some(r.offset);
    Ok(Field(r.name, r.typeName, offset, r.size, r.bounds, r.baseType, r.flags, r.comment, s.attributes))
  }

  function FramedField(p: seq<byte>): Result<(Field, seq<byte>)> {
    Framed(p, ReadField)
  }

  function ReadType(p: seq<byte>): Result<Type> {
    var (r, p) :- ReadRecord(p);
    var (fields, p) :- Many(p, r.subItems, FramedField);
    var (s, p) :- ReadSections(p, r.flags, r.size);
    var (enums, _) :- Optional(Has(r.flags, TYPE_FLAG_ENUM_INFOS), p, ReadEnums(r.size, r.baseType));
    Ok(Type(r.name, r.typeName, r.comment, r.size, r.bounds, fields, r.baseType, r.flags,
            s.guid, s.methods, s.attributes, enums))
  }

  // ----- the two tables

  /** The size of the next table entry, checked against the data; a bad one panics. */
  function NextEntry(p: seq<byte>): (r: Result<(seq<byte>, seq<byte>)>)
    ensures r.Ok? ==> |r.value.0| + |r.value.1| + 4 == |p| && p == p[..4] + r.value.0 + r.value.1
  {
    var (size, q) :- ReadU32(p);
    if size < 4 || size - 4 > |q| then Err(Panic)
    else
      assert p == p[..4] + q && q == q[..size - 4] + q[size - 4..];
      Ok((q[..size - 4], q[size - 4..]))
  }

  function ReadSymbol(p: seq<byte>): Result<Symbol> {
    var (ixGroup, p) :- ReadU32(p);
    var (ixOffset, p) :- ReadU32(p);
    var (size, p) :- ReadU32(p);
    var (baseType, p) :- ReadU32(p);
    var (flags, p) :- ReadU16(p);
    var (_, p) :- ReadU16(p);
    var (nameLen, p) :- ReadU16(p);
    var (typeLen, p) :- ReadU16(p);
    var (_, p) :- ReadU16(p);
    var (name, p) :- ReadStr(p, nameLen);
    var (typ, _) :- ReadStr(p, typeLen);
    Ok(Symbol(name, ixGroup, ixOffset, typ, size, baseType, flags))
  }

  /** All entries of a table, each decoded from its own bytes. */
  function ReadTable<T>(p: seq<byte>, entry: seq<byte> -> Result<T>): Result<seq<T>>
    decreases |p|
  {
    if p == [] then Ok([])
    else
      var (body, rest) :- NextEntry(p);
      var x :- entry(body);
      var xs :- ReadTable(rest, entry);
      Ok([x] + xs)
  }

  /** Types by name; a later type replaces an earlier one of the same name. */
  function ByName(types: seq<Type>): map<seq<byte>, Type> {
    if types == [] then map[]
    else ByName(types[..|types| - 1])[types[|types| - 1].name := types[|types| - 1]]
  }

  /** Symbols and types of an upload. */
  function ReadTables(symbolData: seq<byte>, typeData: seq<byte>): Result<(seq<Symbol>, map<seq<byte>, Type>)> {
    var types :- ReadTable(typeData, ReadType);
    var symbols :- ReadTable(symbolData, ReadSymbol);
    Ok((symbols, ByName(types)))
  }
}
