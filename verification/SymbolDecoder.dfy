/**
 The decoder of src/symbol.rs: loops that advance a slice and push onto vectors, each proved to
 compute what SymbolFormat says.
 */
module SymbolDecoder {
  import opened Bytes
  import opened SymbolFormat
  import Wire = SymbolEncoding

  /** What a loop that has collected `xs` will return, given the outcome of its remaining rounds. */
  function Prepend<T>(xs: seq<T>, r: Result<(seq<T>, seq<byte>)>): Result<(seq<T>, seq<byte>)> {
    match r
    case Err(e) => Err(e)
    case Ok((ys, p)) => Ok((xs + ys, p))
  }

  /** One round of such a loop. */
  lemma {:induction false} Round<T>(xs: seq<T>, p: seq<byte>, n: nat, one: seq<byte> -> Result<(T, seq<byte>)>)
    requires n > 0
    ensures match one(p)
      case Err(e) => Prepend(xs, Many(p, n, one)) == Err(e)
      case Ok((x, rest)) => Prepend(xs + [x], Many(rest, n - 1, one)) == Prepend(xs, Many(p, n, one))
  {
    if one(p).Ok? {
      var (x, rest) := one(p).value;
      if Many(rest, n - 1, one).Ok? {
        var ys := Many(rest, n - 1, one).value.0;
        assert xs + [x] + ys == xs + ([x] + ys);
      }
    }
  }

  /** The first and the last round. */
  lemma {:induction false} Ends<T>(xs: seq<T>, p: seq<byte>, one: seq<byte> -> Result<(T, seq<byte>)>)
    ensures Prepend(xs, Many(p, 0, one)) == Ok((xs, p))
    ensures forall n: nat :: Prepend([], Many(p, n, one)) == Many(p, n, one)
  {
    assert xs + [] == xs;
    forall n: nat
      ensures Prepend([], Many(p, n, one)) == Many(p, n, one)
    {
      if Many(p, n, one).Ok? {
        assert [] + Many(p, n, one).value.0 == Many(p, n, one).value.0;
      }
    }
  }

  method ParseAttributes(p: seq<byte>) returns (r: Result<(seq<Attribute>, seq<byte>)>)
    ensures r == ReadAttributes(p)
  {
    hide ReadStr, Bytes.ReadU8, Many, Prepend;
    var count :- ReadU16(p);
    var ptr := count.1;
    var attrs: seq<Attribute> := [];
    Ends(attrs, ptr, ReadAttribute);
    for i := 0 to count.0
      invariant Prepend(attrs, Many(ptr, count.0 - i, ReadAttribute)) == ReadAttributes(p)
    {
      Round(attrs, ptr, count.0 - i, ReadAttribute);
      var nameLen :- ReadU8(ptr);
      var valueLen :- ReadU8(nameLen.1);
      var name :- ReadStr(valueLen.1, nameLen.0);
      var value :- ReadStr(name.1, valueLen.0);
      ptr := value.1;
      attrs := attrs + [Attribute(name.0, value.0)];
    }
    Ends(attrs, ptr, ReadAttribute);
    r := Ok((attrs, ptr));
  }

  method ParseEnumInfos(p: seq<byte>, size: u32, baseType: u32) returns (r: Result<(seq<EnumInfo>, seq<byte>)>)
    ensures r == ReadEnums(size, baseType)(p)
  {
    hide ReadStr, Bytes.ReadU8, Bytes.ReadU16, Bytes.Take, Many, Prepend, EnumValue;
    var count :- ReadU16(p);
    var ptr := count.1;
    var enums: seq<EnumInfo> := [];
    Ends(enums, ptr, ReadEnum(size, baseType));
    for i := 0 to count.0
      invariant Prepend(enums, Many(ptr, count.0 - i, ReadEnum(size, baseType))) == ReadEnums(size, baseType)(p)
    {
      Round(enums, ptr, count.0 - i, ReadEnum(size, baseType));
      var nameLen :- ReadU8(ptr);
      var name :- ReadStr(nameLen.1, nameLen.0);
      var raw :- Take(name.1, size);
      var value :- EnumValue(raw.0, baseType);
      ptr := raw.1;
      enums := enums + [EnumInfo(name.0, value)];
    }
    Ends(enums, ptr, ReadEnum(size, baseType));
    r := Ok((enums, ptr));
  }

  /** Decodes the bytes of any parameter a PLC can send into what the client keeps of it. */
  method ParseRpcMethodParameter(p: seq<byte>) returns (r: Result<RpcParameter>)
    ensures forall w :: Wire.ParameterOk(w) && p == Wire.EncParameter(w) ==> r == Ok(Wire.ParameterValue(w))
    ensures r == ReadParameter(p)
  {
    hide ReadAttributes, ReadStr, Bytes.ReadU16, Bytes.ReadU32, Bytes.Take;
    hide Wire.ParameterOk, Wire.EncParameter, Wire.ParameterValue;
    forall w | Wire.ParameterOk(w) && p == Wire.EncParameter(w)
      ensures ReadParameter(p) == Ok(Wire.ParameterValue(w))
    {
      Wire.ParameterBack(w);
    }
    var size :- ReadU32(p);
    var alignSize :- ReadU32(size.1);
    var dataType :- ReadU32(alignSize.1);
    var flags :- ReadU32(dataType.1);
    var reserved :- ReadU32(flags.1);
    var guid :- Take(reserved.1, 16);
    var lengthIs :- ReadU16(guid.1);
    var nameLen :- ReadU16(lengthIs.1);
    var typeLen :- ReadU16(nameLen.1);
    var commentLen :- ReadU16(typeLen.1);
    var name :- ReadStr(commentLen.1, nameLen.0);
    var typ :- ReadStr(name.1, typeLen.0);
    var comment :- ReadStr(typ.1, commentLen.0);
    var attributes := [];
    if Has(flags.0, RPC_PARAM_ATTRIBUTE_FLAG) {
      var section :- ParseAttributes(comment.1);
      attributes := section.0;
    }
    r := Ok(RpcParameter(name.0, typ.0, size.0, KindOf(flags.0), comment.0, attributes));
  }

  /** The parameter entries of a method. */
  method ParseParameters(p: seq<byte>, count: u16) returns (r: Result<(seq<RpcParameter>, seq<byte>)>)
    ensures r == Many(p, count, FramedParameter)
  {
    hide ReadParameter, Many, Prepend, Bytes.ReadU32;
    var ptr := p;
    var parameters: seq<RpcParameter> := [];
    Ends(parameters, ptr, FramedParameter);
    for i := 0 to count
      invariant Prepend(parameters, Many(ptr, count - i, FramedParameter)) == Many(p, count, FramedParameter)
    {
      Round(parameters, ptr, count - i, FramedParameter);
      var entryLen :- ReadU32(ptr);
      if entryLen.0 < 4 {
        return Err(Reply(BadEntryLength, entryLen.0));
      }
      if entryLen.0 - 4 > |entryLen.1| {
        return Err(Panic);
      }
      var parameter :- ParseRpcMethodParameter(entryLen.1[..entryLen.0 - 4]);
      parameters := parameters + [parameter];
      ptr := entryLen.1[entryLen.0 - 4..];
    }
    Ends(parameters, ptr, FramedParameter);
    r := Ok((parameters, ptr));
  }

  /** Decodes the bytes of any method a PLC can send, with all its parameters in order. */
  method ParseRpcMethod(p: seq<byte>) returns (r: Result<RpcMethod>)
    ensures forall w :: Wire.MethodOk(w) && p == Wire.EncMethod(w) ==> r == Ok(Wire.MethodValue(w))
    ensures r == ReadMethod(p)
  {
    hide ReadAttributes, ReadStr, Bytes.ReadU16, Bytes.ReadU32, Bytes.Take, Many;
    hide Wire.MethodOk, Wire.EncMethod, Wire.MethodValue;
    forall w | Wire.MethodOk(w) && p == Wire.EncMethod(w)
      ensures ReadMethod(p) == Ok(Wire.MethodValue(w))
    {
      Wire.MethodBack(w);
    }
    var version :- ReadU32(p);
    var vTableIndex :- ReadU32(version.1);
    var returnSize :- ReadU32(vTableIndex.1);
    var returnAlign :- ReadU32(returnSize.1);
    var reserved :- ReadU32(returnAlign.1);
    var guid :- Take(reserved.1, 16);
    var dataType :- ReadU32(guid.1);
    var flags :- ReadU32(dataType.1);
    var nameLen :- ReadU16(flags.1);
    var typeLen :- ReadU16(nameLen.1);
    var commentLen :- ReadU16(typeLen.1);
    var paramCount :- ReadU16(commentLen.1);
    var name :- ReadStr(paramCount.1, nameLen.0);
    var returnType :- ReadStr(name.1, typeLen.0);
    var comment :- ReadStr(returnType.1, commentLen.0);
    var parameters :- ParseParameters(comment.1, paramCount.0);
    var attributes := [];
    if Has(flags.0, RPC_METHOD_ATTRIBUTE_FLAG) {
      var section :- ParseAttributes(parameters.1);
      attributes := section.0;
    }
    r := Ok(RpcMethod(name.0, returnType.0, returnSize.0, comment.0, parameters.0, attributes));
  }

  method ParseMethodInfos(p: seq<byte>) returns (r: Result<(seq<RpcMethod>, seq<byte>)>)
    ensures r == ReadMethods(p)
  {
    hide ReadMethod, Many, Prepend, Bytes.ReadU32, Bytes.ReadU16;
    var count :- ReadU16(p);
    var ptr := count.1;
    var methods: seq<RpcMethod> := [];
    Ends(methods, ptr, FramedMethod);
    for i := 0 to count.0
      invariant Prepend(methods, Many(ptr, count.0 - i, FramedMethod)) == ReadMethods(p)
    {
      Round(methods, ptr, count.0 - i, FramedMethod);
      var entryLen :- ReadU32(ptr);
      if entryLen.0 < 4 {
        return Err(Reply(BadEntryLength, entryLen.0));
      }
      if entryLen.0 - 4 > |entryLen.1| {
        return Err(Panic);
      }
      var m :- ParseRpcMethod(entryLen.1[..entryLen.0 - 4]);
      methods := methods + [m];
      ptr := entryLen.1[entryLen.0 - 4..];
    }
    Ends(methods, ptr, FramedMethod);
    r := Ok((methods, ptr));
  }

  /** What the flag-controlled sections add to a type. */
  function WithFlags(p: seq<byte>, t: Type): Result<Type> {
    var (s, p) :- ReadSections(p, t.flags, t.size);
    var (enums, _) :- Optional(Has(t.flags, TYPE_FLAG_ENUM_INFOS), p, ReadEnums(t.size, t.baseType));
    Ok(t.(guid := s.guid, methods := s.methods, attributes := s.attributes, enumInfo := enums))
  }

  method ParseTypeFlags(p: seq<byte>, t: Type) returns (r: Result<Type>)
    requires t.guid.None? && t.methods.None? && t.attributes.None? && t.enumInfo.None?
    ensures r == WithFlags(p, t)
  {
    hide ReadAttributes, ReadMethods;
    var typ, ptr := t, p;
    if Has(typ.flags, TYPE_FLAG_GUID) {
      var guid :- Take(ptr, 16);
      typ, ptr := typ.(guid := Some(guid.0)), guid.1;
    }
    if Has(typ.flags, TYPE_FLAG_COPY_MASK) {
      var mask :- Take(ptr, typ.size);
      ptr := mask.1;
    }
    if Has(typ.flags, TYPE_FLAG_METHOD_INFOS) {
      var methods :- ParseMethodInfos(ptr);
      typ, ptr := typ.(methods := Some(methods.0)), methods.1;
    }
    if Has(typ.flags, TYPE_FLAG_ATTRIBUTES) {
      var attributes :- ParseAttributes(ptr);
      typ, ptr := typ.(attributes := Some(attributes.0)), attributes.1;
    }
    if Has(typ.flags, TYPE_FLAG_ENUM_INFOS) {
      var enums :- ParseEnumInfos(ptr, typ.size, typ.baseType);
      typ := typ.(enumInfo := Some(enums.0));
    }
    r := Ok(typ);
  }

  method ParseFieldAttributes(p: seq<byte>, flags: u32, size: u32) returns (r: Result<Option<seq<Attribute>>>)
    ensures ReadSections(p, flags, size).Ok? ==> r == Ok(ReadSections(p, flags, size).value.0.attributes)
    ensures ReadSections(p, flags, size).Err? ==> r == Err(ReadSections(p, flags, size).error)
  {
    hide ReadAttributes, ReadMethods;
    var ptr := p;
    if Has(flags, TYPE_FLAG_GUID) {
      var guid :- Take(ptr, 16);
      ptr := guid.1;
    }
    if Has(flags, TYPE_FLAG_COPY_MASK) {
      var mask :- Take(ptr, size);
      ptr := mask.1;
    }
    if Has(flags, TYPE_FLAG_METHOD_INFOS) {
      var methods :- ParseMethodInfos(ptr);
      ptr := methods.1;
    }
    if Has(flags, TYPE_FLAG_ATTRIBUTES) {
      var attributes :- ParseAttributes(ptr);
      return Ok(Some(attributes.0));
    } else {
      return Ok(None);
    }
  }

  method ParseBounds(p: seq<byte>, dims: u16) returns (r: Result<(seq<(int, int)>, seq<byte>)>)
    ensures r == Many(p, dims, ReadBounds)
  {
    hide Many, Prepend, Bytes.ReadU32;
    var ptr := p;
    var bounds: seq<(int, int)> := [];
    Ends(bounds, ptr, ReadBounds);
    for i := 0 to dims
      invariant Prepend(bounds, Many(ptr, dims - i, ReadBounds)) == Many(p, dims, ReadBounds)
    {
      Round(bounds, ptr, dims - i, ReadBounds);
      var l :- ReadU32(ptr);
      var t :- ReadU32(l.1);
      var lower, total := Signed(l.0, 0x8000_0000), Signed(t.0, 0x8000_0000);
      if lower + total >= 0x8000_0000 || lower + total - 1 < -0x8000_0000 {
        return Err(Panic);
      }
      bounds := bounds + [(lower, lower + total - 1)];
      ptr := t.1;
    }
    Ends(bounds, ptr, ReadBounds);
    r := Ok((bounds, ptr));
  }

  /** The common front of type and field records. */
  method ParseRecord(p: seq<byte>) returns (r: Result<(Record, seq<byte>)>)
    ensures r == ReadRecord(p)
  {
    hide ReadStr, Bytes.ReadU16, Bytes.ReadU32, Bytes.Take, Many;
    var version :- ReadU32(p);
    if version.0 != 1 {
      return Err(Reply(BadTypeVersion, version.0));
    }
    var header :- Take(version.1, 8);
    var size :- ReadU32(header.1);
    var offset :- ReadU32(size.1);
    var baseType :- ReadU32(offset.1);
    var flags :- ReadU32(baseType.1);
    var nameLen :- ReadU16(flags.1);
    var typeLen :- ReadU16(nameLen.1);
    var commentLen :- ReadU16(typeLen.1);
    var dims :- ReadU16(commentLen.1);
    var subItems :- ReadU16(dims.1);
    var name :- ReadStr(subItems.1, nameLen.0);
    var typeName :- ReadStr(name.1, typeLen.0);
    var comment :- ReadStr(typeName.1, commentLen.0);
    var bounds :- ParseBounds(comment.1, dims.0);
    r := Ok((Record(size.0, offset.0, baseType.0, flags.0, subItems.0, name.0, typeName.0, comment.0, bounds.0), bounds.1));
  }

  /** Decode one record: as a field appended to `parent`, or without one as a type of its own. */
  method DecodeTypeInfo(p: seq<byte>, parent: Option<Type>) returns (r: Result<Option<Type>>, updated: Option<Type>)
    ensures parent.None? ==> r == (match ReadType(p) case Ok(t) => Ok(Some(t)) case Err(e) => Err(e))
    ensures parent.Some? ==>
      match ReadField(p)
      case Ok(f) => r == Ok(None) && updated == Some(parent.value.(fields := parent.value.fields + [f]))
      case Err(e) => r == Err(e)
    decreases parent.None?, 1
  {
    hide ReadRecord, ReadSections, Many;
    updated := parent;
    var record :- ParseRecord(p);
    var rec, ptr := record.0, record.1;
    if parent.Some? {
      var attributes :- ParseFieldAttributes(ptr, rec.flags, rec.size);
      var offset := if rec.offset == 0xFFFF_FFFF then None else Some(rec.offset);
      var field := Field(rec.name, rec.typeName, offset, rec.size, rec.bounds, rec.baseType, rec.flags,
                         rec.comment, attributes);
      updated := Some(parent.value.(fields := parent.value.fields + [field]));
      return Ok(None), updated;
    }
    var typ := Type(rec.name, rec.typeName, rec.comment, rec.size, rec.bounds, [], rec.baseType, rec.flags,
                    None, None, None, None);
    var grown :- DecodeSubItems(ptr, rec.subItems, typ);
    var done :- ParseTypeFlags(grown.1, grown.0);
    return Ok(Some(done)), updated;
  }

  /** The loop over a type's sub-items: each entry is decoded as a field of the type. */
  method DecodeSubItems(p: seq<byte>, count: u16, t: Type) returns (r: Result<(Type, seq<byte>)>)
    requires t.fields == []
    ensures match Many(p, count, FramedField)
      case Ok((fields, rest)) => r == Ok((t.(fields := fields), rest))
      case Err(e) => r == Err(e)
    decreases true, 0
  {
    hide ReadField, Many, Prepend, Bytes.ReadU32;
    var ptr, typ := p, t;
    Ends(typ.fields, ptr, FramedField);
    for i := 0 to count
      invariant typ == t.(fields := typ.fields)
      invariant Prepend(typ.fields, Many(ptr, count - i, FramedField)) == Many(p, count, FramedField)
    {
      Round(typ.fields, ptr, count - i, FramedField);
      var subSize :- ReadU32(ptr);
      if subSize.0 < 4 {
        return Err(Reply(BadEntryLength, subSize.0));
      }
      if subSize.0 - 4 > |subSize.1| {
        return Err(Panic);
      }
      var sub, grown := DecodeTypeInfo(subSize.1[..subSize.0 - 4], Some(typ));
      if sub.Err? {
        return Err(sub.error);
      }
      typ := grown.value;
      ptr := subSize.1[subSize.0 - 4..];
    }
    Ends(typ.fields, ptr, FramedField);
    r := Ok((typ, ptr));
  }

  // ----- the tables

  /** What a table loop that has collected `xs` will return. */
  function After<T>(xs: seq<T>, r: Result<seq<T>>): Result<seq<T>> {
    match r
    case Err(e) => Err(e)
    case Ok(ys) => Ok(xs + ys)
  }

  lemma {:induction false} TableRound<T>(xs: seq<T>, p: seq<byte>, entry: seq<byte> -> Result<T>)
    ensures p == [] ==> After(xs, ReadTable(p, entry)) == Ok(xs)
    ensures After([], ReadTable(p, entry)) == ReadTable(p, entry)
    ensures p != [] ==>
      match NextEntry(p)
      case Err(e) => After(xs, ReadTable(p, entry)) == Err(e)
      case Ok((body, rest)) =>
        match entry(body)
        case Err(e) => After(xs, ReadTable(p, entry)) == Err(e)
        case Ok(x) => After(xs + [x], ReadTable(rest, entry)) == After(xs, ReadTable(p, entry))
  {
    hide NextEntry;
    assert xs + [] == xs;
    if ReadTable(p, entry).Ok? {
      assert [] + ReadTable(p, entry).value == ReadTable(p, entry).value;
      if p != [] {
        var (body, rest) := NextEntry(p).value;
        var x, ys := entry(body).value, ReadTable(rest, entry).value;
        assert xs + [x] + ys == xs + ([x] + ys);
      }
    }
  }

  lemma {:induction false} NoTypes()
    ensures ByName([]) == map[]
  {
  }

  lemma {:induction false} ByNameSnoc(types: seq<Type>, t: Type)
    ensures ByName(types + [t]) == ByName(types)[t.name := t]
  {
    assert (types + [t])[..|types|] == types;
  }

  /** A well-sized entry is cut off the front of the table. */
  lemma {:induction false} EntryTaken(p: seq<byte>, size: nat, q: seq<byte>)
    requires ReadU32(p) == Ok((size, q)) && 4 <= size && size - 4 <= |q|
    ensures NextEntry(p) == Ok((q[..size - 4], q[size - 4..])) && |q[size - 4..]| < |p|
  {
  }

  method DecodeTypes(typeData: seq<byte>) returns (r: Result<map<seq<byte>, Type>>)
    ensures r == (match ReadTable(typeData, ReadType) case Ok(ts) => Ok(ByName(ts)) case Err(e) => Err(e))
  {
    hide ReadType, ReadTable, After, ByName;
    var dataPtr := typeData;
    var typeMap: map<seq<byte>, Type> := map[];
    ghost var types: seq<Type> := [];
    NoTypes();
    TableRound(types, dataPtr, ReadType);
    while dataPtr != []
      invariant typeMap == ByName(types)
      invariant After(types, ReadTable(dataPtr, ReadType)) == ReadTable(typeData, ReadType)
      decreases |dataPtr|
    {
      TableRound(types, dataPtr, ReadType);
      var entrySize :- ReadU32(dataPtr);
      if entrySize.0 < 4 || entrySize.0 - 4 > |entrySize.1| {
        return Err(Panic);
      }
      var entryPtr, rest := entrySize.1[..entrySize.0 - 4], entrySize.1[entrySize.0 - 4..];
      EntryTaken(dataPtr, entrySize.0, entrySize.1);
      var decoded, _ := DecodeTypeInfo(entryPtr, None);
      if decoded.Err? {
        return Err(decoded.error);
      }
      var typ := decoded.value.value;
      typeMap := typeMap[typ.name := typ];
      ByNameSnoc(types, typ);
      types := types + [typ];
      dataPtr := rest;
    }
    TableRound(types, dataPtr, ReadType);
    r := Ok(typeMap);
  }

  method DecodeSymbols(symbolData: seq<byte>) returns (r: Result<seq<Symbol>>)
    ensures r == ReadTable(symbolData, ReadSymbol)
  {
    hide ReadTable, After, ReadStr, Bytes.ReadU32, Bytes.ReadU16;
    var dataPtr := symbolData;
    var symbols: seq<Symbol> := [];
    TableRound(symbols, dataPtr, ReadSymbol);
    while dataPtr != []
      invariant After(symbols, ReadTable(dataPtr, ReadSymbol)) == ReadTable(symbolData, ReadSymbol)
      decreases |dataPtr|
    {
      TableRound(symbols, dataPtr, ReadSymbol);
      var entrySize :- ReadU32(dataPtr);
      if entrySize.0 < 4 || entrySize.0 - 4 > |entrySize.1| {
        return Err(Panic);
      }
      var entryPtr, rest := entrySize.1[..entrySize.0 - 4], entrySize.1[entrySize.0 - 4..];
      EntryTaken(dataPtr, entrySize.0, entrySize.1);
      var ixGroup :- ReadU32(entryPtr);
      var ixOffset :- ReadU32(ixGroup.1);
      var size :- ReadU32(ixOffset.1);
      var baseType :- ReadU32(size.1);
      var flags :- ReadU16(baseType.1);
      var legacyArrayDim :- ReadU16(flags.1);
      var nameLen :- ReadU16(legacyArrayDim.1);
      var typeLen :- ReadU16(nameLen.1);
      var commentLen :- ReadU16(typeLen.1);
      var name :- ReadStr(commentLen.1, nameLen.0);
      var typ :- ReadStr(name.1, typeLen.0);
      symbols := symbols + [Symbol(name.0, ixGroup.0, ixOffset.0, typ.0, size.0, baseType.0, flags.0)];
      dataPtr := rest;
    }
    TableRound(symbols, dataPtr, ReadSymbol);
    r := Ok(symbols);
  }

  /** `decode_symbol_info`: types first, then symbols. */
  method DecodeSymbolInfo(symbolData: seq<byte>, typeData: seq<byte>)
    returns (r: Result<(seq<Symbol>, map<seq<byte>, Type>)>)
    ensures forall ss, ts ::
      && symbolData == Wire.EncTable(ss, Wire.EncSymbol) && (forall w :: w in ss ==> Wire.SymbolOk(w))
      && typeData == Wire.EncTable(ts, Wire.EncType) && (forall w :: w in ts ==> Wire.TypeOk(w)) ==>
        r == Ok((Wire.Values(ss, Wire.SymbolValue), ByName(Wire.Values(ts, Wire.TypeValue))))
    ensures r == ReadTables(symbolData, typeData)
  {
    hide ReadTable, ByName, Wire.EncTable, Wire.Values, Wire.SymbolOk, Wire.TypeOk;
    forall ss, ts |
      && symbolData == Wire.EncTable(ss, Wire.EncSymbol) && (forall w :: w in ss ==> Wire.SymbolOk(w))
      && typeData == Wire.EncTable(ts, Wire.EncType) && (forall w :: w in ts ==> Wire.TypeOk(w))
      ensures ReadTables(symbolData, typeData)
           == Ok((Wire.Values(ss, Wire.SymbolValue), ByName(Wire.Values(ts, Wire.TypeValue))))
    {
      Wire.UploadBack(ss, ts);
    }
    var typeMap :- DecodeTypes(typeData);
    var symbols :- DecodeSymbols(symbolData);
    r := Ok((symbols, typeMap));
  }

  // ----- tables are compositional

  /** A table that decodes can be continued by any other: its entries come first, and its decoding
      does not look beyond it. */
  lemma {:induction false} TablesCompose<T>(a: seq<byte>, b: seq<byte>, entry: seq<byte> -> Result<T>)
    requires ReadTable(a, entry).Ok?
    ensures ReadTable(a + b, entry) == After(ReadTable(a, entry).value, ReadTable(b, entry))
    decreases |a|
  {
    if a == [] {
      assert a + b == b;
      TableRound([], b, entry);
    } else {
      var (body, rest) := NextEntry(a).value;
      EntryInFront(a, b);
      TablesCompose(rest, b, entry);
      var x, xs := entry(body).value, ReadTable(rest, entry).value;
      if ReadTable(b, entry).Ok? {
        var ys := ReadTable(b, entry).value;
        assert [x] + (xs + ys) == ([x] + xs) + ys;
      }
    }
  }

  lemma {:induction false} EntryInFront(a: seq<byte>, b: seq<byte>)
    requires NextEntry(a).Ok?
    ensures NextEntry(a + b) == Ok((NextEntry(a).value.0, NextEntry(a).value.1 + b))
  {
    hide Bytes.Unle;
    assert (a + b)[..4] == a[..4];
    assert (a + b)[4..] == a[4..] + b;
    var n := U32(a[..4]) - 4;
    assert (a[4..] + b)[..n] == a[4..][..n];
    assert (a[4..] + b)[n..] == a[4..][n..] + b;
  }

  /** Types of a later table override those of an earlier one, name by name. */
  lemma {:induction false} NamesOverride(a: seq<Type>, b: seq<Type>)
    ensures ByName(a + b) == ByName(a) + ByName(b)
    decreases |b|
  {
    if b == [] {
      assert a + b == a;
    } else {
      var init := b[..|b| - 1];
      NamesOverride(a, init);
      assert (a + b)[..|a + b| - 1] == a + init;
    }
  }

  /** Decoding is compositional: symbols of joined uploads are those of the first followed by those of
      the second, and the type map of the first is overridden by that of the second. */
  lemma {:induction false} UploadsCompose(symbolsA: seq<byte>, symbolsB: seq<byte>, typesA: seq<byte>,
                                  typesB: seq<byte>)
    requires ReadTables(symbolsA, typesA).Ok? && ReadTables(symbolsB, typesB).Ok?
    ensures var (sa, ta) := ReadTables(symbolsA, typesA).value;
      var (sb, tb) := ReadTables(symbolsB, typesB).value;
      ReadTables(symbolsA + symbolsB, typesA + typesB) == Ok((sa + sb, ta + tb))
  {
    hide ReadTable, ByName;
    TablesCompose(typesA, typesB, ReadType);
    TablesCompose(symbolsA, symbolsB, ReadSymbol);
    NamesOverride(ReadTable(typesA, ReadType).value, ReadTable(typesB, ReadType).value);
  }

  /** Types are decoded first, so their error is the one reported. */
  lemma {:induction false} TypesDecodedFirst(symbolData: seq<byte>, typeData: seq<byte>)
    ensures ReadTable(typeData, ReadType).Err? ==>
      ReadTables(symbolData, typeData) == Err(ReadTable(typeData, ReadType).error)
    ensures ReadTable(typeData, ReadType).Ok? && ReadTable(symbolData, ReadSymbol).Err? ==>
      ReadTables(symbolData, typeData) == Err(ReadTable(symbolData, ReadSymbol).error)
  {
    hide ReadTable, ByName;
  }
}
