/**
 PLC task telemetry (src/task_info.rs): validation of the entry layout against symbol metadata, and
 the decoder that relies on it.
 */
module TaskInfo {
  import opened Bytes
  import opened SymbolFormat

  const TASK_PREFIX_SIZE := 32
  const TASK_NAME_SIZE := 64
  const TICK_NANOS := 100
  const MAX_TASK_INFO_SIZE := 16 * 1024 * 1024

  type i32 = x: int | -0x8000_0000 <= x < 0x8000_0000

  datatype Layout = Layout(entrySize: nat, taskNameOffset: Option<nat>)

  datatype Required = Required(name: string, offset: u32, size: u32, baseType: u32)

  /** The documented prefix of a task entry. */
  const REQUIRED: seq<Required> := [
    Required("ObjId", 0, 4, 19),
    Required("CycleTime", 4, 4, 19),
    Required("Priority", 8, 2, 18),
    Required("AdsPort", 10, 2, 18),
    Required("CycleCount", 12, 4, 19),
    Required("DcTaskTime", 16, 8, 20),
    Required("LastExecTime", 24, 4, 19),
    Required("FirstCycle", 28, 1, 33),
    Required("CycleTimeExceeded", 29, 1, 33),
    Required("InCallAfterOutputUpdate", 30, 1, 33),
    Required("RTViolation", 31, 1, 33)
  ]

  function Ascii(s: string): (b: seq<byte>)
    ensures |b| == |s| && forall i :: 0 <= i < |s| && s[i] as int < 256 ==> b[i] == s[i] as int
  {
    seq(|s|, i requires 0 <= i < |s| => (s[i] as int) % 256)
  }

  /** The first field of that name. */
  function Find(fields: seq<Field>, name: seq<byte>): Option<Field> {
    if fields == [] then None
    else if fields[0].name == name then Some(fields[0])
    else Find(fields[1..], name)
  }

  predicate Matches(entry: Type, q: Required) {
    match Find(entry.fields, Ascii(q.name))
    case None => false
    case Some(f) => f.offset == Some(q.offset) && f.size == q.size && f.baseType == q.baseType && f.bounds == []
  }

  predicate AllMatch(entry: Type, required: seq<Required>) {
    required == [] || (Matches(entry, required[0]) && AllMatch(entry, required[1..]))
  }

  /** `TaskInfoLayout::from_entry_type`. */
  function FromEntryType(entry: Type): Result<Layout> {
    if entry.size < TASK_PREFIX_SIZE then Err(TaskInfoLayout)
    else if !AllMatch(entry, REQUIRED) then Err(TaskInfoLayout)
    else
      match Find(entry.fields, Ascii("TaskName"))
      case None => Ok(Layout(entry.size, None))
      case Some(f) =>
        if f.offset.Some? && f.offset.value >= TASK_PREFIX_SIZE && f.offset.value + TASK_NAME_SIZE <= entry.size
           && f.size == TASK_NAME_SIZE && f.baseType == 30 && f.bounds == []
        then Ok(Layout(entry.size, Some(f.offset.value)))
        else Err(TaskInfoLayout)
  }

  datatype Reader = Reader(size: nat, layout: Layout, firstIndex: i32)

  /** `TaskInfoReader::new`: the array bounds must describe exactly the symbol's size. */
  function NewReader(size: nat, first: i32, last: i32, layout: Layout): Result<Reader> {
    var span := last - first;
    if span >= 0x8000_0000 || span < 0 || span + 1 >= 0x8000_0000 then Err(TaskInfoLayout)
    else if size == 0 || size > MAX_TASK_INFO_SIZE || (span + 1) * layout.entrySize != size then Err(TaskInfoLayout)
    else Ok(Reader(size, layout, first))
  }

  datatype Task = Task(
    index: i32, objectId: u32, adsPort: u16, priority: u16, cycleTimeNanos: nat, lastExecTimeNanos: nat,
    dcTaskTime: int, cycleCount: u32, firstCycle: bool, cycleTimeExceeded: bool,
    inCallAfterOutputUpdate: bool, rtViolation: bool, name: Option<seq<byte>>)

  // ----- reading fields where the metadata says they are

  /** The bytes of a field in an entry, at the offset and size its metadata declares. */
  function FieldBytes(entry: Type, data: seq<byte>, name: string): Option<seq<byte>> {
    match Find(entry.fields, Ascii(name))
    case None => None
    case Some(f) =>
      if f.offset.Some? && f.offset.value + f.size <= |data|
      then Some(data[f.offset.value..f.offset.value + f.size]) else None
  }

  function Number(b: Option<seq<byte>>): nat {
    if b.Some? then Unle(b.value) else 0
  }

  /** Text up to the first null byte. */
  function UntilNull(s: seq<byte>): seq<byte> {
    if s == [] || s[0] == 0 then [] else [s[0]] + UntilNull(s[1..])
  }

  /** A decoded task agrees with the metadata: every value is the field of that name in the entry. */
  ghost predicate Describes(task: Task, entry: Type, data: seq<byte>) {
    && task.objectId == Number(FieldBytes(entry, data, "ObjId"))
    && task.cycleTimeNanos == 100 * Number(FieldBytes(entry, data, "CycleTime"))
    && task.priority == Number(FieldBytes(entry, data, "Priority"))
    && task.adsPort == Number(FieldBytes(entry, data, "AdsPort"))
    && task.cycleCount == Number(FieldBytes(entry, data, "CycleCount"))
    && task.dcTaskTime == Signed(Number(FieldBytes(entry, data, "DcTaskTime")), 0x8000_0000_0000_0000)
    && task.lastExecTimeNanos == 100 * Number(FieldBytes(entry, data, "LastExecTime"))
    && (task.firstCycle <==> Number(FieldBytes(entry, data, "FirstCycle")) != 0)
    && (task.cycleTimeExceeded <==> Number(FieldBytes(entry, data, "CycleTimeExceeded")) != 0)
    && (task.inCallAfterOutputUpdate <==> Number(FieldBytes(entry, data, "InCallAfterOutputUpdate")) != 0)
    && (task.rtViolation <==> Number(FieldBytes(entry, data, "RTViolation")) != 0)
    && task.name == match FieldBytes(entry, data, "TaskName") case None => None case Some(b) => Some(UntilNull(b))
  }

  // ----- the decoder

  /** Where the cursor of `decode_task` is for each value. */
  function TaskAt(data: seq<byte>, index: i32, nameOffset: Option<nat>): (task: Task)
    requires |data| >= TASK_PREFIX_SIZE && (nameOffset.Some? ==> nameOffset.value + TASK_NAME_SIZE <= |data|)
    ensures task.index == index
  {
    Task(index, U32(data[0..4]), U16(data[10..12]), U16(data[8..10]), TICK_NANOS * U32(data[4..8]),
         TICK_NANOS * U32(data[24..28]), Signed(U64(data[16..24]), 0x8000_0000_0000_0000), U32(data[12..16]),
         data[28] != 0, data[29] != 0, data[30] != 0, data[31] != 0,
         match nameOffset case None => None
                          case Some(o) => Some(UntilNull(data[o..o + TASK_NAME_SIZE])))
  }

  /** It is the longest prefix without a null byte. */
  lemma {:induction false} UntilNullIs(s: seq<byte>)
    ensures UntilNull(s) <= s && 0 !in UntilNull(s)
    ensures |UntilNull(s)| < |s| ==> s[|UntilNull(s)|] == 0
  {
    if s != [] && s[0] != 0 {
      UntilNullIs(s[1..]);
    }
  }

  /** The name loop: find the terminating null. */
  method TaskName(bytes: seq<byte>) returns (name: seq<byte>)
    ensures name == UntilNull(bytes)
  {
    hide UntilNull;
    var end := 0;
    assert bytes[..0] == [] && bytes[0..] == bytes;
    while end < |bytes| && bytes[end] != 0
      invariant 0 <= end <= |bytes|
      invariant bytes[..end] + UntilNull(bytes[end..]) == UntilNull(bytes)
    {
      NotNull(bytes, end);
      end := end + 1;
    }
    NullOrEnd(bytes, end);
    return bytes[..end];
  }

  lemma {:induction false} NotNull(bytes: seq<byte>, end: nat)
    requires end < |bytes| && bytes[end] != 0
    ensures bytes[..end + 1] + UntilNull(bytes[end + 1..]) == bytes[..end] + UntilNull(bytes[end..])
  {
    assert bytes[end..][1..] == bytes[end + 1..];
    hide UntilNull;
    assert bytes[..end + 1] == bytes[..end] + [bytes[end]];
    Assoc(bytes[..end], [bytes[end]], UntilNull(bytes[end + 1..]));
  }

  lemma {:induction false} NullOrEnd(bytes: seq<byte>, end: nat)
    requires end <= |bytes| && (end < |bytes| ==> bytes[end] == 0)
    ensures bytes[..end] + UntilNull(bytes[end..]) == bytes[..end]
  {
    assert UntilNull(bytes[end..]) == [];
  }

  method DecodeTask(entry: seq<byte>, index: i32, nameOffset: Option<nat>) returns (r: Result<Task>)
    ensures |entry| < TASK_PREFIX_SIZE ==> r == Err(UnexpectedEof)
    ensures |entry| >= TASK_PREFIX_SIZE ==>
      r == if nameOffset.Some? && nameOffset.value + TASK_NAME_SIZE > |entry| then Err(UnexpectedEof)
           else Ok(TaskAt(entry, index, nameOffset))
  {
    hide Bytes.Unle, UntilNull;
    var objectId :- ReadU32(entry);
    var cycleTime :- ReadU32(objectId.1);
    var priority :- ReadU16(cycleTime.1);
    var adsPort :- ReadU16(priority.1);
    var cycleCount :- ReadU32(adsPort.1);
    var dcTaskTime :- ReadU64(cycleCount.1);
    var lastExecTime :- ReadU32(dcTaskTime.1);
    var firstCycle :- ReadU8(lastExecTime.1);
    var exceeded :- ReadU8(firstCycle.1);
    var inCall :- ReadU8(exceeded.1);
    var violation :- ReadU8(inCall.1);
    assert cycleTime.1 == entry[8..] && cycleCount.1 == entry[16..] && lastExecTime.1 == entry[28..];
    assert priority.1 == entry[10..] && adsPort.1 == entry[12..] && dcTaskTime.1 == entry[24..];
    assert firstCycle.1 == entry[29..] && exceeded.1 == entry[30..] && inCall.1 == entry[31..];
    assert entry[..4] == entry[0..4] && entry[4..][..4] == entry[4..8] && entry[8..][..2] == entry[8..10];
    assert entry[10..][..2] == entry[10..12] && entry[12..][..4] == entry[12..16];
    assert entry[16..][..8] == entry[16..24] && entry[24..][..4] == entry[24..28];
    var name := None;
    if nameOffset.Some? {
      if nameOffset.value > |entry| || TASK_NAME_SIZE > |entry[nameOffset.value..]| {
        return Err(UnexpectedEof);
      }
      var nameBytes := entry[nameOffset.value..][..TASK_NAME_SIZE];
      var text := TaskName(nameBytes);
      name := Some(text);
      assert nameBytes == entry[nameOffset.value..nameOffset.value + TASK_NAME_SIZE];
    }
    r := Ok(Task(index, objectId.0, adsPort.0, priority.0, cycleTime.0 * TICK_NANOS, lastExecTime.0 * TICK_NANOS,
                 Signed(dcTaskTime.0, 0x8000_0000_0000_0000), cycleCount.0, firstCycle.0 != 0, exceeded.0 != 0,
                 inCall.0 != 0, violation.0 != 0, name));
  }

  // ----- decoding the whole array

  /** The entries of an array; a remainder shorter than an entry is left over (`chunks_exact`). */
  function Chunks(bytes: seq<byte>, n: nat): (cs: seq<seq<byte>>)
    requires n > 0
    ensures forall c :: c in cs ==> |c| == n
    decreases |bytes|
  {
    if |bytes| < n then [] else [bytes[..n]] + Chunks(bytes[n..], n)
  }

  lemma {:induction false} OneLess(i: int, n: int)
    ensures (i - 1) * n == i * n - n
  {
  }

  lemma {:induction false} Monotone(i: int, m: int, n: int)
    requires 0 <= i && m <= n
    ensures i * m <= i * n
  {
  }

  lemma {:induction false} ChunkCount(bytes: seq<byte>, n: nat, count: nat)
    requires n > 0 && |bytes| == count * n
    ensures |Chunks(bytes, n)| == count
    decreases count
  {
    if count > 0 {
      OneLess(count, n);
      Monotone(count - 1, 0, n);
      ChunkCount(bytes[n..], n, count - 1);
    }
  }

  lemma {:induction false} ChunkFrom(bytes: seq<byte>, n: nat, i: nat, o: int)
    requires n > 0 && i < |Chunks(bytes, n)| && o == i * n
    ensures 0 <= o <= o + n <= |bytes| && Chunks(bytes, n)[i] == bytes[o..o + n]
    decreases i
  {
    if i > 0 {
      OneLess(i, n);
      ChunkFrom(bytes[n..], n, i - 1, o - n);
      assert bytes[n..][o - n..o] == bytes[o..o + n];
    }
  }

  /** Entry `i` lies `i` entry sizes into the array. */
  lemma {:induction false} ChunkAt(bytes: seq<byte>, n: nat, i: nat)
    requires n > 0 && i < |Chunks(bytes, n)|
    ensures 0 <= i * n <= i * n + n <= |bytes| && Chunks(bytes, n)[i] == bytes[i * n..i * n + n]
  {
    hide Chunks;
    ChunkFrom(bytes, n, i, i * n);
  }

  /** A reader that `NewReader` made from a validated layout. */
  ghost predicate Built(reader: Reader, entry: Type, first: i32, last: i32) {
    && FromEntryType(entry).Ok?
    && NewReader(reader.size, first, last, FromEntryType(entry).value) == Ok(reader)
  }

  lemma {:induction false} LayoutFits(entry: Type)
    requires FromEntryType(entry).Ok?
    ensures var l := FromEntryType(entry).value;
      && l.entrySize == entry.size >= TASK_PREFIX_SIZE
      && (l.taskNameOffset.Some? ==> l.taskNameOffset.value + TASK_NAME_SIZE <= l.entrySize)
  {
  }

  /** An entry that was decoded: it holds the fields, its index is in range, and the result is what the entry says. */
  ghost predicate DecodedAs(task: Task, chunk: seq<byte>, index: int, nameOffset: Option<nat>) {
    && |chunk| >= TASK_PREFIX_SIZE
    && (nameOffset.Some? ==> nameOffset.value + TASK_NAME_SIZE <= |chunk|)
    && -0x8000_0000 <= index < 0x8000_0000
    && task == TaskAt(chunk, index, nameOffset)
  }

  /** The decoded tasks of consecutive entries, numbered from `first`. */
  ghost predicate Decoded(tasks: seq<Task>, chunks: seq<seq<byte>>, first: int, nameOffset: Option<nat>) {
    && |tasks| == |chunks|
    && forall i :: 0 <= i < |tasks| ==> DecodedAs(tasks[i], chunks[i], first + i, nameOffset)
  }

  lemma {:induction false} NoneDecoded(first: int, nameOffset: Option<nat>)
    ensures Decoded([], [], first, nameOffset)
  {
  }

  lemma {:induction false} EntryDecoded(chunk: seq<byte>, index: i32, nameOffset: Option<nat>)
    requires |chunk| >= TASK_PREFIX_SIZE && (nameOffset.Some? ==> nameOffset.value + TASK_NAME_SIZE <= |chunk|)
    ensures DecodedAs(TaskAt(chunk, index, nameOffset), chunk, index, nameOffset)
  {
    hide TaskAt;
  }

  lemma {:induction false} DecodedOneMore(tasks: seq<Task>, chunks: seq<seq<byte>>, first: int, nameOffset: Option<nat>,
                                          task: Task, chunk: seq<byte>)
    requires Decoded(tasks, chunks, first, nameOffset) && DecodedAs(task, chunk, first + |tasks|, nameOffset)
    ensures Decoded(tasks + [task], chunks + [chunk], first, nameOffset)
  {
    hide DecodedAs;
    var ts, cs := tasks + [task], chunks + [chunk];
    forall i | 0 <= i < |ts|
      ensures DecodedAs(ts[i], cs[i], first + i, nameOffset)
    {
      if i < |tasks| {
        assert ts[i] == tasks[i] && cs[i] == chunks[i];
      }
    }
  }

  lemma {:induction false} ChunksMoved(done: seq<seq<byte>>, rest: seq<byte>, n: nat)
    requires 0 < n <= |rest|
    ensures done + Chunks(rest, n) == (done + [rest[..n]]) + Chunks(rest[n..], n)
    ensures |Chunks(rest, n)| > 0
  {
  }

  lemma {:induction false} NoChunks(rest: seq<byte>, n: nat)
    requires |rest| < n
    ensures Chunks(rest, n) == []
  {
  }

  /** The loop over the entries; it ends early only if an index leaves the 32-bit range. */
  method DecodeChunks(reader: Reader, bytes: seq<byte>) returns (r: Result<seq<Task>>)
    requires reader.layout.entrySize >= TASK_PREFIX_SIZE
    requires var o := reader.layout.taskNameOffset; o.Some? ==> o.value + TASK_NAME_SIZE <= reader.layout.entrySize
    ensures var chunks := Chunks(bytes, reader.layout.entrySize);
      if reader.firstIndex + |chunks| <= 0x8000_0000
      then r.Ok? && Decoded(r.value, chunks, reader.firstIndex, reader.layout.taskNameOffset)
      else r.Err?
  {
    hide TaskAt, Decoded, DecodedAs, Chunks, Bytes.Unle;
    var entrySize := reader.layout.entrySize;
    ghost var chunks, done := Chunks(bytes, entrySize), [];
    var tasks: seq<Task> := [];
    var rest, slot := bytes, 0;
    NoneDecoded(reader.firstIndex, reader.layout.taskNameOffset);
    assert done + chunks == chunks;
    while |rest| >= entrySize
      invariant |tasks| == slot == |done|
      invariant done + Chunks(rest, entrySize) == chunks
      invariant reader.firstIndex + slot <= 0x8000_0000
      invariant Decoded(tasks, done, reader.firstIndex, reader.layout.taskNameOffset)
      decreases |rest|
    {
      var chunk := rest[..entrySize];
      ChunksMoved(done, rest, entrySize);
      if reader.firstIndex + slot >= 0x8000_0000 {
        return Err(Reply(IndexOverflow, slot));
      }
      var task := DecodeTask(chunk, reader.firstIndex + slot, reader.layout.taskNameOffset);
      EntryDecoded(chunk, reader.firstIndex + slot, reader.layout.taskNameOffset);
      DecodedOneMore(tasks, done, reader.firstIndex, reader.layout.taskNameOffset, task.value, chunk);
      tasks, done := tasks + [task.value], done + [chunk]; // an entry of this size always decodes
      rest := rest[entrySize..];
      slot := slot + 1;
    }
    NoChunks(rest, entrySize);
    assert done + [] == done;
    r := Ok(tasks);
  }

  /** `decode_tasks` of a reader built from accepted metadata: a buffer of the declared size always
      decodes, into one task per array element, numbered by the array bounds, and every value of a
      task is the field of its name in that array element. */
  method DecodeTasks(reader: Reader, bytes: seq<byte>, ghost entry: Type, ghost first: i32, ghost last: i32)
    returns (r: Result<seq<Task>>)
    requires Built(reader, entry, first, last)
    ensures |bytes| != reader.size ==> r == Err(Reply(UnexpectedLength, |bytes|))
    ensures |bytes| == reader.size ==>
      && r.Ok? && |r.value| == last - first + 1
      && forall i :: 0 <= i < |r.value| ==>
           && r.value[i].index == first + i
           && 0 <= i * entry.size <= i * entry.size + entry.size <= |bytes|
           && Describes(r.value[i], entry, bytes[i * entry.size..i * entry.size + entry.size])
  {
    if |bytes| != reader.size {
      return Err(Reply(UnexpectedLength, |bytes|));
    }
    LayoutFits(entry);
    ChunkCount(bytes, reader.layout.entrySize, last - first + 1);
    hide FromEntryType, Describes, Chunks, Decoded;
    r := DecodeChunks(reader, bytes);
    DecodedCount(r.value, Chunks(bytes, entry.size), first, reader.layout.taskNameOffset);
    forall i | 0 <= i < |r.value|
      ensures r.value[i].index == first + i
      ensures 0 <= i * entry.size <= i * entry.size + entry.size <= |bytes|
      ensures Describes(r.value[i], entry, bytes[i * entry.size..i * entry.size + entry.size])
    {
      TaskDescribed(entry, bytes, r.value, first, i);
    }
  }

  lemma {:induction false} DecodedCount(tasks: seq<Task>, chunks: seq<seq<byte>>, first: int, nameOffset: Option<nat>)
    requires Decoded(tasks, chunks, first, nameOffset)
    ensures |tasks| == |chunks|
  {
  }

  lemma {:induction false} TaskDescribed(entry: Type, bytes: seq<byte>, tasks: seq<Task>, first: int, i: nat)
    requires FromEntryType(entry).Ok? && entry.size >= TASK_PREFIX_SIZE && i < |tasks|
    requires Decoded(tasks, Chunks(bytes, entry.size), first, FromEntryType(entry).value.taskNameOffset)
    ensures tasks[i].index == first + i
    ensures 0 <= i * entry.size <= i * entry.size + entry.size <= |bytes|
    ensures Describes(tasks[i], entry, bytes[i * entry.size..i * entry.size + entry.size])
  {
    hide FromEntryType, Describes, TaskAt, Chunks;
    ChunkAt(bytes, entry.size, i);
    CursorAgreesWithMetadata(entry, Chunks(bytes, entry.size)[i], first + i);
  }

  // ----- the cursor and the metadata

  lemma {:induction false} MatchAt(entry: Type, required: seq<Required>, i: nat)
    requires AllMatch(entry, required) && i < |required|
    ensures Matches(entry, required[i])
  {
    if i > 0 {
      MatchAt(entry, required[1..], i - 1);
    }
  }

  lemma {:induction false} RequiredField(entry: Type, data: seq<byte>, i: nat)
    requires FromEntryType(entry).Ok? && |data| == entry.size && i < |REQUIRED|
    ensures var q := REQUIRED[i];
      q.offset + q.size <= |data| && FieldBytes(entry, data, q.name) == Some(data[q.offset..q.offset + q.size])
  {
    hide Ascii;
    MatchAt(entry, REQUIRED, i);
  }

  lemma {:induction false} NameField(entry: Type, data: seq<byte>)
    requires FromEntryType(entry).Ok? && |data| == entry.size
    ensures FieldBytes(entry, data, "TaskName")
         == match FromEntryType(entry).value.taskNameOffset
            case None => None
            case Some(o) => if o + TASK_NAME_SIZE <= |data| then Some(data[o..o + TASK_NAME_SIZE]) else None
  {
    hide Ascii;
  }

  lemma {:induction false} OneByte(data: seq<byte>, o: nat)
    requires o < |data|
    ensures Number(Some(data[o..o + 1])) == data[o]
  {
    var s := data[o..o + 1];
    assert s[1..] == [] && Unle(s[1..]) == 0;
    assert Unle(s) == s[0] + 256 * Unle(s[1..]);
  }

  /** The sequential decoder reads each value where the accepted metadata puts the field of its name. */
  lemma {:induction false} CursorAgreesWithMetadata(entry: Type, data: seq<byte>, index: i32)
    requires FromEntryType(entry).Ok? && |data| == entry.size
    ensures var l := FromEntryType(entry).value;
      && |data| >= TASK_PREFIX_SIZE && (l.taskNameOffset.Some? ==> l.taskNameOffset.value + TASK_NAME_SIZE <= |data|)
      && Describes(TaskAt(data, index, l.taskNameOffset), entry, data)
  {
    LayoutFits(entry);
    hide FromEntryType, FieldBytes, Bytes.Unle, UntilNull;
    RequiredField(entry, data, 0); RequiredField(entry, data, 1); RequiredField(entry, data, 2);
    RequiredField(entry, data, 3); RequiredField(entry, data, 4); RequiredField(entry, data, 5);
    RequiredField(entry, data, 6); RequiredField(entry, data, 7); RequiredField(entry, data, 8);
    RequiredField(entry, data, 9); RequiredField(entry, data, 10);
    OneByte(data, 28); OneByte(data, 29); OneByte(data, 30); OneByte(data, 31);
    NameField(entry, data);
  }

  // ----- what is accepted

  /** `f` is the first field of that name. */
  ghost predicate FirstNamed(fields: seq<Field>, name: seq<byte>, f: Field) {
    exists k :: 0 <= k < |fields| && fields[k] == f && f.name == name && forall j :: 0 <= j < k ==> fields[j].name != name
  }

  lemma {:induction false} FindIff(fields: seq<Field>, name: seq<byte>, f: Field)
    ensures Find(fields, name) == Some(f) <==> FirstNamed(fields, name, f)
    decreases |fields|
  {
    if fields != [] {
      if fields[0].name == name {
        assert Find(fields, name) == Some(fields[0]);
      } else {
        FindIff(fields[1..], name, f);
        if FirstNamed(fields[1..], name, f) {
          var k :| 0 <= k < |fields[1..]| && fields[1..][k] == f && f.name == name
            && forall j :: 0 <= j < k ==> fields[1..][j].name != name;
          assert fields[k + 1] == f;
          forall j | 0 <= j < k + 1
            ensures fields[j].name != name
          {
            assert j > 0 ==> fields[j] == fields[1..][j - 1];
          }
        }
        if k :| 0 <= k < |fields| && fields[k] == f && f.name == name && forall j :: 0 <= j < k ==> fields[j].name != name {
          assert fields[1..][k - 1] == f;
          assert forall j :: 0 <= j < k - 1 ==> fields[1..][j] == fields[j + 1];
        }
      }
    }
  }

  /** A name field that fits behind the prefix and inside the entry. */
  predicate NameFits(entry: Type, f: Field) {
    && f.offset.Some? && 32 <= f.offset.value && f.offset.value + 64 <= entry.size
    && f.size == 64 && f.baseType == 30 && f.bounds == []
  }

  lemma {:induction false} AllMatchIff(entry: Type, required: seq<Required>)
    ensures AllMatch(entry, required) <==> forall i :: 0 <= i < |required| ==> Matches(entry, required[i])
  {
    if required != [] {
      AllMatchIff(entry, required[1..]);
      if AllMatch(entry, required) {
        forall i | 0 <= i < |required|
          ensures Matches(entry, required[i])
        {
          assert i > 0 ==> required[i] == required[1..][i - 1];
        }
      }
      if forall i :: 0 <= i < |required| ==> Matches(entry, required[i]) {
        assert forall i :: 0 <= i < |required[1..]| ==> required[1..][i] == required[i + 1];
      }
    }
  }

  /** A field is declared where it is expected, going by the first field of its name. */
  ghost predicate Declared(entry: Type, q: Required) {
    exists f :: && FirstNamed(entry.fields, Ascii(q.name), f)
                && f.offset == Some(q.offset) && f.size == q.size && f.baseType == q.baseType && f.bounds == []
  }

  lemma {:induction false} DeclaredIff(entry: Type, q: Required)
    ensures Matches(entry, q) <==> Declared(entry, q)
  {
    hide FirstNamed, Find, Ascii;
    forall f: Field
      ensures Find(entry.fields, Ascii(q.name)) == Some(f) <==> FirstNamed(entry.fields, Ascii(q.name), f)
    {
      FindIff(entry.fields, Ascii(q.name), f);
    }
  }

  /** A layout is accepted iff the entry holds the prefix, every documented field is declared where it
      is expected, and a name field, if declared, fits. */
  lemma {:induction false} LayoutAcceptedIff(entry: Type)
    ensures FromEntryType(entry).Ok? <==>
      && entry.size >= 32
      && Declared(entry, Required("ObjId", 0, 4, 19)) && Declared(entry, Required("CycleTime", 4, 4, 19))
      && Declared(entry, Required("Priority", 8, 2, 18)) && Declared(entry, Required("AdsPort", 10, 2, 18))
      && Declared(entry, Required("CycleCount", 12, 4, 19)) && Declared(entry, Required("DcTaskTime", 16, 8, 20))
      && Declared(entry, Required("LastExecTime", 24, 4, 19)) && Declared(entry, Required("FirstCycle", 28, 1, 33))
      && Declared(entry, Required("CycleTimeExceeded", 29, 1, 33))
      && Declared(entry, Required("InCallAfterOutputUpdate", 30, 1, 33))
      && Declared(entry, Required("RTViolation", 31, 1, 33))
      && (forall f :: FirstNamed(entry.fields, Ascii("TaskName"), f) ==> NameFits(entry, f))
  {
    LayoutMatchesIff(entry);
    hide FromEntryType, Declared, FirstNamed, Ascii, NameFits;
    assert REQUIRED == [
      Required("ObjId", 0, 4, 19), Required("CycleTime", 4, 4, 19), Required("Priority", 8, 2, 18),
      Required("AdsPort", 10, 2, 18), Required("CycleCount", 12, 4, 19), Required("DcTaskTime", 16, 8, 20),
      Required("LastExecTime", 24, 4, 19), Required("FirstCycle", 28, 1, 33), Required("CycleTimeExceeded", 29, 1, 33),
      Required("InCallAfterOutputUpdate", 30, 1, 33), Required("RTViolation", 31, 1, 33)];
    assert (forall i :: 0 <= i < |REQUIRED| ==> Declared(entry, REQUIRED[i])) ==>
      Declared(entry, REQUIRED[0]) && Declared(entry, REQUIRED[1]) && Declared(entry, REQUIRED[2])
      && Declared(entry, REQUIRED[3]) && Declared(entry, REQUIRED[4]) && Declared(entry, REQUIRED[5])
      && Declared(entry, REQUIRED[6]) && Declared(entry, REQUIRED[7]) && Declared(entry, REQUIRED[8])
      && Declared(entry, REQUIRED[9]) && Declared(entry, REQUIRED[10]);
  }

  lemma {:induction false} LayoutMatchesIff(entry: Type)
    ensures FromEntryType(entry).Ok? <==>
      && entry.size >= TASK_PREFIX_SIZE
      && (forall i :: 0 <= i < |REQUIRED| ==> Declared(entry, REQUIRED[i]))
      && (forall f :: FirstNamed(entry.fields, Ascii("TaskName"), f) ==> NameFits(entry, f))
  {
    AllMatchIff(entry, REQUIRED);
    hide FirstNamed, Find, Ascii, Declared, Matches, AllMatch;
    forall i | 0 <= i < |REQUIRED|
      ensures Matches(entry, REQUIRED[i]) <==> Declared(entry, REQUIRED[i])
    {
      DeclaredIff(entry, REQUIRED[i]);
    }
    forall f: Field
      ensures Find(entry.fields, Ascii("TaskName")) == Some(f) <==> FirstNamed(entry.fields, Ascii("TaskName"), f)
    {
      FindIff(entry.fields, Ascii("TaskName"), f);
    }
  }

  /** For layouts that passed validation the 32-bit overflow checks on the bounds never decide: a
      reader is made exactly when the bounds are in order and describe a symbol of admissible size. */
  lemma {:induction false} ReaderMadeIff(size: nat, first: i32, last: i32, entry: Type)
    requires FromEntryType(entry).Ok?
    ensures NewReader(size, first, last, FromEntryType(entry).value).Ok? <==>
      first <= last && 0 < size <= 0x100_0000 && (last - first + 1) * entry.size == size
  {
    LayoutFits(entry);
    hide FromEntryType;
    var count := last - first + 1;
    if first <= last && size <= MAX_TASK_INFO_SIZE && count * entry.size == size {
      Monotone(count, TASK_PREFIX_SIZE, entry.size);
    }
  }
}
