/**
 Notification messages (src/notif.rs): the validator that walks stamps and samples once, and the
 iterator that walks them again without checking anything.
 */
module Notifications {
  import opened Bytes

  datatype Sample = Sample(handle: u32, timestamp: u64, data: seq<byte>)

  /** One sample as it lies in the message, and one stamp: a timestamp with its samples. */
  datatype Entry = Entry(handle: u32, data: seq<byte>)
  datatype Stamp = Stamp(timestamp: u64, entries: seq<Entry>)

  const BODY := 46 // AMS/TCP and AMS header, length field, number of stamps

  // ----- the message format

  predicate EntriesFit(es: seq<Entry>) {
    |es| < 0x1_0000_0000 && forall e :: e in es ==> |e.data| < 0x1_0000_0000
  }

  predicate StampsFit(ss: seq<Stamp>) {
    |ss| < 0x1_0000_0000 && forall s :: s in ss ==> EntriesFit(s.entries)
  }

  function EncodeEntry(e: Entry): seq<byte> {
    Le(e.handle, 4) + (Le(|e.data|, 4) + e.data)
  }

  function EncodeEntries(es: seq<Entry>): seq<byte> {
    if es == [] then [] else EncodeEntry(es[0]) + EncodeEntries(es[1..])
  }

  function EncodeStamp(s: Stamp): seq<byte> {
    Le(s.timestamp, 8) + (Le(|s.entries|, 4) + EncodeEntries(s.entries))
  }

  function EncodeStamps(ss: seq<Stamp>): seq<byte> {
    if ss == [] then [] else EncodeStamp(ss[0]) + EncodeStamps(ss[1..])
  }

  /** A notification message: any AMS header and length field, then the stamps. */
  function EncodeMessage(header: seq<byte>, stamps: seq<Stamp>): seq<byte>
    requires |header| == 42
  {
    header + (Le(|stamps|, 4) + EncodeStamps(stamps))
  }

  /** The samples of a message in the order they are sent, each with its stamp's time. */
  function Stamped(timestamp: u64, es: seq<Entry>): seq<Sample> {
    if es == [] then [] else [Sample(es[0].handle, timestamp, es[0].data)] + Stamped(timestamp, es[1..])
  }

  function AllSamples(ss: seq<Stamp>): seq<Sample> {
    if ss == [] then [] else Stamped(ss[0].timestamp, ss[0].entries) + AllSamples(ss[1..])
  }

  /** The number of samples in the first `k` stamps. */
  function CountBefore(ss: seq<Stamp>, k: nat): nat
    requires k <= |ss|
  {
    if k == 0 then 0 else CountBefore(ss, k - 1) + |ss[k - 1].entries|
  }

  lemma {:induction false} CountShift(ss: seq<Stamp>, k: nat)
    requires 0 < k <= |ss|
    ensures CountBefore(ss, k) == |ss[0].entries| + CountBefore(ss[1..], k - 1)
  {
    if k > 1 {
      CountShift(ss, k - 1);
    }
  }

  lemma {:induction false} StampedAt(timestamp: u64, es: seq<Entry>, j: nat)
    ensures |Stamped(timestamp, es)| == |es|
    ensures j < |es| ==> Stamped(timestamp, es)[j] == Sample(es[j].handle, timestamp, es[j].data)
  {
    if es != [] {
      StampedAt(timestamp, es[1..], if j > 0 then j - 1 else 0);
    }
  }

  /** There is one sample per entry, in order, with the entry's handle and data and its stamp's time. */
  lemma {:induction false} SampleAt(ss: seq<Stamp>, i: nat, j: nat)
    requires i < |ss| && j < |ss[i].entries|
    ensures |AllSamples(ss)| == CountBefore(ss, |ss|) && CountBefore(ss, i) + j < |AllSamples(ss)|
    ensures AllSamples(ss)[CountBefore(ss, i) + j]
         == Sample(ss[i].entries[j].handle, ss[i].timestamp, ss[i].entries[j].data)
  {
    SampleCount(ss);
    hide Stamped;
    StampedAt(ss[0].timestamp, ss[0].entries, if i == 0 then j else 0);
    CountShift(ss, |ss|);
    if i > 0 {
      CountShift(ss, i);
      hide CountBefore;
      SampleAt(ss[1..], i - 1, j);
    }
  }

  lemma {:induction false} SampleCount(ss: seq<Stamp>)
    ensures |AllSamples(ss)| == CountBefore(ss, |ss|)
  {
    if ss != [] {
      SampleCount(ss[1..]);
      StampedAt(ss[0].timestamp, ss[0].entries, 0);
      CountShift(ss, |ss|);
    }
  }

  /** The place of every number in a message of one sample; further samples and stamps follow likewise. */
  lemma {:induction false} MessageLayout(header: seq<byte>, timestamp: u64, handle: u32, data: seq<byte>)
    requires |header| == 42
    ensures var s := EncodeMessage(header, [Stamp(timestamp, [Entry(handle, data)])]);
      && |s| == 66 + |data| && s[..42] == header && s[42..46] == Le(1, 4)
      && s[46..54] == Le(timestamp, 8) && s[54..58] == Le(1, 4)
      && s[58..62] == Le(handle, 4) && s[62..66] == Le(|data|, 4) && s[66..] == data
  {
    hide Bytes.Le;
    var e := Entry(handle, data);
    var st := Stamp(timestamp, [e]);
    assert [e][1..] == [] && [st][1..] == [];
    assert EncodeEntries([e]) == EncodeEntry(e) && EncodeStamps([st]) == EncodeStamp(st);
  }

  lemma {:induction false} StampsAppend(a: seq<Stamp>, b: seq<Stamp>)
    ensures EncodeStamps(a + b) == EncodeStamps(a) + EncodeStamps(b)
  {
    hide EncodeStamp;
    if a == [] {
      assert a + b == b;
    } else {
      StampsAppend(a[1..], b);
      assert (a + b)[1..] == a[1..] + b;
      Assoc(EncodeStamp(a[0]), EncodeStamps(a[1..]), EncodeStamps(b));
    }
  }

  // ----- parsing

  function ParseEntry(p: seq<byte>): Result<(Entry, seq<byte>)> {
    var (handle, p) :- ReadU32(p);
    var (length, p) :- ReadU32(p);
    if |p| < length then Err(UnexpectedEof) else Ok((Entry(handle, p[..length]), p[length..]))
  }

  function ParseEntries(p: seq<byte>, n: nat): Result<(seq<Entry>, seq<byte>)> {
    if n == 0 then Ok(([], p))
    else
      var (e, p) :- ParseEntry(p);
      var (rest, p) :- ParseEntries(p, n - 1);
      Ok(([e] + rest, p))
  }

  function ParseStamp(p: seq<byte>): Result<(Stamp, seq<byte>)> {
    var (timestamp, p) :- ReadU64(p);
    var (n, p) :- ReadU32(p);
    var (es, p) :- ParseEntries(p, n);
    Ok((Stamp(timestamp, es), p))
  }

  function ParseStamps(p: seq<byte>, n: nat): Result<(seq<Stamp>, seq<byte>)>
    decreases n
  {
    if n == 0 then Ok(([], p))
    else
      var (s, p) :- ParseStamp(p);
      var (rest, p) :- ParseStamps(p, n - 1);
      Ok(([s] + rest, p))
  }

  // Parsing takes back what encoding put in front of the rest.

  lemma {:induction false} EntryBack(e: Entry, rest: seq<byte>)
    requires |e.data| < 0x1_0000_0000
    ensures ParseEntry(EncodeEntry(e) + rest) == Ok((e, rest))
  {
    hide Bytes.Le, Bytes.Unle;
    var t := e.data + rest;
    assert EncodeEntry(e) + rest == Le(e.handle, 4) + (Le(|e.data|, 4) + t);
    U32Back(e.handle, Le(|e.data|, 4) + t);
    U32Back(|e.data|, t);
    TakeBack(e.data, rest);
  }

  lemma {:induction false} EntriesBack(es: seq<Entry>, rest: seq<byte>)
    requires forall e :: e in es ==> |e.data| < 0x1_0000_0000
    ensures ParseEntries(EncodeEntries(es) + rest, |es|) == Ok((es, rest))
  {
    hide ParseEntry, EncodeEntry, Bytes.Le, Bytes.Unle;
    if es == [] {
      assert EncodeEntries(es) + rest == rest;
    } else {
      var t := EncodeEntries(es[1..]) + rest;
      Assoc(EncodeEntry(es[0]), EncodeEntries(es[1..]), rest);
      EntryBack(es[0], t);
      EntriesBack(es[1..], rest);
      assert [es[0]] + es[1..] == es;
    }
  }

  lemma {:induction false} StampBack(s: Stamp, rest: seq<byte>)
    requires EntriesFit(s.entries)
    ensures ParseStamp(EncodeStamp(s) + rest) == Ok((s, rest))
  {
    hide Bytes.Le, Bytes.Unle;
    var t := EncodeEntries(s.entries) + rest;
    assert EncodeStamp(s) + rest == Le(s.timestamp, 8) + (Le(|s.entries|, 4) + t);
    U64Back(s.timestamp, Le(|s.entries|, 4) + t);
    U32Back(|s.entries|, t);
    EntriesBack(s.entries, rest);
  }

  lemma {:induction false} StampsBack(ss: seq<Stamp>, rest: seq<byte>)
    requires forall s :: s in ss ==> EntriesFit(s.entries)
    ensures ParseStamps(EncodeStamps(ss) + rest, |ss|) == Ok((ss, rest))
  {
    hide ParseStamp, EncodeStamp, Bytes.Le, Bytes.Unle;
    if ss == [] {
      assert EncodeStamps(ss) + rest == rest;
    } else {
      var t := EncodeStamps(ss[1..]) + rest;
      Assoc(EncodeStamp(ss[0]), EncodeStamps(ss[1..]), rest);
      StampBack(ss[0], t);
      StampsBack(ss[1..], rest);
      assert [ss[0]] + ss[1..] == ss;
    }
  }

  // And whatever parses is the encoding of what was parsed.

  lemma {:induction false} EntryForth(p: seq<byte>)
    requires ParseEntry(p).Ok?
    ensures var (e, rest) := ParseEntry(p).value;
      |e.data| < 0x1_0000_0000 && p == EncodeEntry(e) + rest
  {
    hide Bytes.Le, Bytes.Unle;
    var (e, rest) := ParseEntry(p).value;
    LeUnle(p[..4]); LeUnle(p[4..][..4]);
    TwoFields(p, 4, 4);
    Regroup(p[..4], p[4..][..4], e.data, rest);
  }

  /** A slice starts with its first two fields. */
  lemma {:induction false} TwoFields(p: seq<byte>, m: nat, n: nat)
    requires m + n <= |p|
    ensures p == p[..m] + (p[m..][..n] + p[m..][n..])
  {
  }

  lemma {:induction false} EntriesForth(p: seq<byte>, n: nat)
    requires ParseEntries(p, n).Ok?
    ensures var (es, rest) := ParseEntries(p, n).value;
      && |es| == n && p == EncodeEntries(es) + rest
      && forall e :: e in es ==> |e.data| < 0x1_0000_0000
    decreases n
  {
    hide ParseEntry, EncodeEntry, Bytes.Le, Bytes.Unle;
    if n > 0 {
      var (e, p1) := ParseEntry(p).value;
      EntryForth(p);
      EntriesForth(p1, n - 1);
      var (es, rest) := ParseEntries(p1, n - 1).value;
      assert ([e] + es)[1..] == es;
    }
  }

  lemma {:induction false} StampForth(p: seq<byte>)
    requires ParseStamp(p).Ok?
    ensures var (s, rest) := ParseStamp(p).value;
      EntriesFit(s.entries) && p == EncodeStamp(s) + rest
  {
    hide Bytes.Le, Bytes.Unle, ParseEntries, EncodeEntries;
    var (s, rest) := ParseStamp(p).value;
    LeUnle(p[..8]); LeUnle(p[8..][..4]);
    EntriesForth(p[8..][4..], ReadU32(p[8..]).value.0);
    TwoFields(p, 8, 4);
    Regroup(p[..8], p[8..][..4], EncodeEntries(s.entries), rest);
  }

  lemma {:induction false} StampsForth(p: seq<byte>, n: nat)
    requires ParseStamps(p, n).Ok?
    ensures var (ss, rest) := ParseStamps(p, n).value;
      && |ss| == n && p == EncodeStamps(ss) + rest
      && forall s :: s in ss ==> EntriesFit(s.entries)
    decreases n
  {
    hide ParseStamp, EncodeStamp, Bytes.Le, Bytes.Unle;
    if n > 0 {
      var (s, p1) := ParseStamp(p).value;
      StampForth(p);
      StampsForth(p1, n - 1);
      var (ss, rest) := ParseStamps(p1, n - 1).value;
      assert ([s] + ss)[1..] == ss;
    }
  }

  // ----- the validator

  /** A message that passed validation. */
  datatype Notification = Notification(data: seq<byte>, nstamps: u32)

  /** The stamps a message holds, if it consists of exactly the announced ones. */
  function Content(data: seq<byte>): Result<seq<Stamp>> {
    if |data| < BODY then Err(UnexpectedEof)
    else
      match ParseStamps(data[BODY..], U32(data[42..46]))
      case Err(e) => Err(e)
      case Ok((stamps, rest)) => if rest == [] then Ok(stamps) else Err(UnexpectedEof)
  }

  function RestOf<T>(r: Result<(T, seq<byte>)>): Result<seq<byte>> {
    if r.Ok? then Ok(r.value.1) else Err(r.error)
  }

  /** Walk over the samples of one stamp. */
  method SkipEntries(p: seq<byte>, n: u32) returns (r: Result<seq<byte>>)
    ensures r == RestOf(ParseEntries(p, n))
  {
    hide Bytes.Unle;
    var ptr := p;
    for i := 0 to n
      invariant RestOf(ParseEntries(ptr, n - i)) == RestOf(ParseEntries(p, n))
    {
      var handle := ReadU32(ptr);
      if handle.Err? {
        return Err(handle.error);
      }
      var length := ReadU32(handle.value.1);
      if length.Err? {
        return Err(length.error);
      }
      ptr := length.value.1;
      if |ptr| >= length.value.0 {
        ptr := ptr[length.value.0..];
      } else {
        return Err(UnexpectedEof);
      }
    }
    return Ok(ptr);
  }

  /** `Notification::new`: accepts exactly the messages that consist of the announced stamps. */
  method New(data: seq<byte>) returns (r: Result<Notification>)
    ensures Content(data).Ok? ==>
      r.Ok? && r.value.data == data && r.value.nstamps == |Content(data).value|
    ensures Content(data).Err? ==> r == Err(UnexpectedEof)
  {
    hide Bytes.Unle, ParseEntries, EncodeEntries, EncodeStamps;
    if |data| < BODY {
      return Err(UnexpectedEof);
    }
    var p := data[BODY..];
    var nstamps := U32(data[42..46]);
    OnlyEof(p, nstamps);
    var ptr := p;
    for i := 0 to nstamps
      invariant RestOf(ParseStamps(ptr, nstamps - i)) == RestOf(ParseStamps(p, nstamps))
    {
      var timestamp := ReadU64(ptr);
      if timestamp.Err? {
        return Err(timestamp.error);
      }
      var nsamples := ReadU32(timestamp.value.1);
      if nsamples.Err? {
        return Err(nsamples.error);
      }
      var rest := SkipEntries(nsamples.value.1, nsamples.value.0);
      if rest.Err? {
        return Err(rest.error);
      }
      ptr := rest.value;
    }
    if ptr == [] {
      StampsForth(p, nstamps);
      return Ok(Notification(data, nstamps));
    } else {
      return Err(UnexpectedEof);
    }
  }

  /** Running out of data is the only way parsing fails. */
  lemma {:induction false} OnlyEofEntries(p: seq<byte>, n: nat)
    ensures ParseEntries(p, n).Err? ==> ParseEntries(p, n).error == UnexpectedEof
    decreases n
  {
    if n > 0 && ParseEntry(p).Ok? {
      OnlyEofEntries(ParseEntry(p).value.1, n - 1);
    }
  }

  lemma {:induction false} OnlyEof(p: seq<byte>, n: nat)
    ensures ParseStamps(p, n).Err? ==> ParseStamps(p, n).error == UnexpectedEof
    decreases n
  {
    if n > 0 {
      if |p| >= 12 {
        OnlyEofEntries(p[8..][4..], ReadU32(p[8..]).value.0);
      }
      if ParseStamp(p).Ok? {
        OnlyEof(ParseStamp(p).value.1, n - 1);
      }
    }
  }

  /** The accepted messages are exactly the encodings of stamp lists. */
  lemma {:induction false} AcceptedIffEncoded(data: seq<byte>, stamps: seq<Stamp>)
    ensures Content(data) == Ok(stamps) <==>
      |data| >= BODY && StampsFit(stamps) && data == EncodeMessage(data[..42], stamps)
  {
    hide Bytes.Le, Bytes.Unle, ParseStamps, EncodeStamps;
    if |data| >= BODY {
      var n := U32(data[42..46]);
      LeUnle(data[42..46]);
      assert data == data[..42] + (data[42..46] + data[BODY..]);
      if Content(data) == Ok(stamps) {
        StampsForth(data[BODY..], n);
        assert EncodeStamps(stamps) + [] == EncodeStamps(stamps);
      }
      if StampsFit(stamps) && data == EncodeMessage(data[..42], stamps) {
        U32Back(|stamps|, EncodeStamps(stamps));
        assert data[42..] == Le(|stamps|, 4) + EncodeStamps(stamps);
        assert data[42..46] == data[42..][..4] && data[BODY..] == data[42..][4..];
        StampsBack(stamps, []);
        assert EncodeStamps(stamps) + [] == EncodeStamps(stamps);
      }
    }
  }

  // ----- the iterator

  /** The samples an iterator in this position still has to deliver; an error if the bytes do not
      hold them. */
  function Remaining(data: seq<byte>, timestamp: u64, stampsLeft: nat, samplesLeft: nat): Result<seq<Sample>> {
    var (es, p) :- ParseEntries(data, samplesLeft);
    var (ss, p) :- ParseStamps(p, stampsLeft);
    if p == [] then Ok(Stamped(timestamp, es) + AllSamples(ss)) else Err(UnexpectedEof)
  }

  class SampleIter {
    var data: seq<byte>
    var curTimestamp: u64
    var stampsLeft: u32
    var samplesLeft: u32

    ghost predicate Valid()
      reads this
    {
      Remaining(data, curTimestamp, stampsLeft, samplesLeft).Ok?
    }

    ghost function Rest(): seq<Sample>
      requires Valid()
      reads this
    {
      Remaining(data, curTimestamp, stampsLeft, samplesLeft).value
    }

    /** `Notification::samples`, on a message that passed validation. */
    constructor (n: Notification)
      requires Content(n.data).Ok? && n.nstamps == |Content(n.data).value|
      ensures Valid() && Rest() == AllSamples(Content(n.data).value)
    {
      data := n.data[BODY..];
      curTimestamp, stampsLeft, samplesLeft := 0, n.nstamps, 0;
      StampsForth(n.data[BODY..], U32(n.data[42..46]));
      assert Stamped(0, []) + AllSamples(Content(n.data).value) == AllSamples(Content(n.data).value);
    }

    /** `SampleIter::next`: the next sample, or the end once all bytes are used. */
    method Next() returns (r: Option<Sample>)
      requires Valid()
      modifies this
      ensures Valid()
      ensures old(Rest()) == [] ==> r == None && data == [] && Rest() == []
      ensures old(Rest()) != [] ==> r == Some(old(Rest())[0]) && Rest() == old(Rest())[1..]
      decreases stampsLeft
    {
      hide Remaining, ParseEntries, ParseStamps, Bytes.Unle;
      if samplesLeft > 0 {
        SamplesAhead(data, curTimestamp, stampsLeft, samplesLeft);
        var handle := U32(data[..4]);
        data := data[4..];
        var length := U32(data[..4]);
        data := data[4..];
        var sample := data[..length];
        data := data[length..];
        samplesLeft := samplesLeft - 1;
        return Some(Sample(handle, curTimestamp, sample));
      } else if stampsLeft > 0 {
        StampAhead(data, curTimestamp, stampsLeft);
        curTimestamp := U64(data[..8]);
        data := data[8..];
        samplesLeft := U32(data[..4]);
        data := data[4..];
        stampsLeft := stampsLeft - 1;
        r := Next();
      } else {
        EndReached(data, curTimestamp);
        return None;
      }
    }
  }

  /** Without samples and stamps left there are no bytes left either. */
  lemma {:induction false} EndReached(data: seq<byte>, ts: u64)
    ensures Remaining(data, ts, 0, 0).Ok? ==> data == [] && Remaining(data, ts, 0, 0).value == []
  {
  }

  /** With samples left, one lies in front and the rest behind it. */
  lemma {:induction false} SamplesAhead(data: seq<byte>, ts: u64, stampsLeft: nat, samplesLeft: nat)
    requires samplesLeft > 0 && Remaining(data, ts, stampsLeft, samplesLeft).Ok?
    ensures ParseEntry(data).Ok?
    ensures var (e, rest) := ParseEntry(data).value;
      var tail := Remaining(rest, ts, stampsLeft, samplesLeft - 1);
      tail.Ok? && Remaining(data, ts, stampsLeft, samplesLeft).value == [Sample(e.handle, ts, e.data)] + tail.value
  {
    hide ParseEntry, ParseStamps;
    var (e, rest) := ParseEntry(data).value;
    var (es, p) := ParseEntries(rest, samplesLeft - 1).value;
    assert ([e] + es)[1..] == es;
  }

  /** Without, the next stamp's samples come first. */
  lemma {:induction false} StampAhead(data: seq<byte>, ts: u64, stampsLeft: nat)
    requires stampsLeft > 0 && Remaining(data, ts, stampsLeft, 0).Ok?
    ensures |data| >= 12
    ensures Remaining(data[8..][4..], U64(data[..8]), stampsLeft - 1, U32(data[8..][..4])) == Remaining(data, ts, stampsLeft, 0)
  {
    hide Bytes.Unle, AllSamples, Stamped;
    var (s, rest) := ParseStamp(data).value;
    var (ss, p) := ParseStamps(rest, stampsLeft - 1).value;
    assert ([s] + ss)[1..] == ss;
    AllSamplesCons(ts, s, ss);
  }

  lemma {:induction false} AllSamplesCons(ts: u64, s: Stamp, ss: seq<Stamp>)
    ensures Stamped(ts, []) + AllSamples([s] + ss) == Stamped(s.timestamp, s.entries) + AllSamples(ss)
  {
    assert ([s] + ss)[1..] == ss;
  }

  /** Draining the iterator of an accepted message yields all its samples, in order, and ends. */
  method CollectSamples(n: Notification) returns (samples: seq<Sample>)
    requires Content(n.data).Ok? && n.nstamps == |Content(n.data).value|
    ensures samples == AllSamples(Content(n.data).value)
  {
    hide Remaining, Content, AllSamples;
    var iter := new SampleIter(n);
    samples := [];
    var sample := iter.Next();
    while sample.Some?
      invariant iter.Valid() && fresh(iter)
      invariant sample.None? ==> iter.Rest() == []
      invariant samples + (if sample.Some? then [sample.value] else []) + iter.Rest()
             == AllSamples(Content(n.data).value)
      decreases sample.Some?, |iter.Rest()|
    {
      samples := samples + [sample.value];
      sample := iter.Next();
    }
  }

  /** A message built from any stamp list is accepted and delivers exactly its samples. */
  method RoundTrip(header: seq<byte>, stamps: seq<Stamp>) returns (samples: seq<Sample>)
    requires |header| == 42 && StampsFit(stamps)
    ensures samples == AllSamples(stamps)
  {
    var data := EncodeMessage(header, stamps);
    assert |data| >= BODY && data[..42] == header;
    AcceptedIffEncoded(data, stamps);
    var n := New(data);
    samples := CollectSamples(n.value);
  }
}
