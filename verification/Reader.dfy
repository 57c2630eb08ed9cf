/**
 The reader thread's loop over the socket (src/client.rs, `reader_work`): a byte stream is cut into
 frames, replies are handed to the pending map and notifications to their channel.
 */
module Reader {
  import opened Bytes
  import opened Ams
  import Notifications

  /** What one frame amounts to. */
  datatype Event =
    | Ignored
    | ReplyTo(header: AdsHeader, payload: seq<byte>)
    | Notify(message: seq<byte>)

  predicate RouterMessage(cmd: u16) {
    cmd == 1 || 4096 <= cmd <= 4098
  }

  /** A frame with a full header, after header and payload have been read.  Its error ends the
      connection; a notification too short for its length field panics. */
  function Interpret(source: AmsAddr, h: AdsHeader, payload: seq<byte>): Result<Event> {
    if RouterMessage(h.amsCmd) then Ok(Ignored)
    else if h.amsCmd != 0 then Err(Reply(InvalidPacket, h.amsCmd))
    else if |payload| != h.length - AMS_HEADER_SIZE then Err(Reply(InconsistentLengths, 0))
    else if h.dest != source then Ok(Ignored)
    else if h.command != CMD_NOTIFICATION then Ok(ReplyTo(h, payload))
    else if |payload| < 4 then Err(Panic)
    else if h.stateFlags != 4 || h.errorCode != 0 || U32(payload[..4]) != |payload| - 4 || |payload| < 8 then Ok(Ignored)
    else if Notifications.Content(EncodeHeader(h) + payload).Ok? then Ok(Notify(EncodeHeader(h) + payload))
    else Ok(Ignored)
  }

  /** One iteration of the loop: the frame's meaning and the stream after it. */
  function ReadFrame(source: AmsAddr, p: seq<byte>): Result<(Event, seq<byte>)> {
    if |p| < 6 then Err(UnexpectedEof)
    else
      var packetLen := U32(p[2..6]);
      if packetLen < 32 then
        if |p| < 6 + packetLen then Err(UnexpectedEof) else Ok((Ignored, p[6 + packetLen..]))
      else if |p| < ADS_HEADER_SIZE then Err(UnexpectedEof)
      else
        var h := DecodeHeader(p[..ADS_HEADER_SIZE]);
        var body := p[ADS_HEADER_SIZE..];
        if |body| < h.dataLength then Err(UnexpectedEof)
        else
          var event :- Interpret(source, h, body[..h.dataLength]);
          Ok((event, body[h.dataLength..]))
  }

  /** The events before the loop ends, and the error that ends it.  `settle(k)` says whether the
      pending map's answer to the `k`-th reply ends the connection. */
  function Work(source: AmsAddr, p: seq<byte>, k: nat, settle: nat -> Option<Error>): (seq<Event>, Error)
    decreases |p|
  {
    match ReadFrame(source, p)
    case Err(e) => ([], e)
    case Ok((event, rest)) =>
      FrameAdvances(source, p);
      if event.ReplyTo? && settle(k).Some? then ([event], settle(k).value)
      else
        var (events, e) := Work(source, rest, if event.ReplyTo? then k + 1 else k, settle);
        ([event] + events, e)
  }

  /** Every iteration consumes at least the six bytes of the AMS/TCP header. */
  lemma {:induction false} FrameAdvances(source: AmsAddr, p: seq<byte>)
    requires ReadFrame(source, p).Ok?
    ensures |ReadFrame(source, p).value.1| + 6 <= |p|
  {
    hide Interpret, Ams.DecodeHeader, Bytes.Unle;
  }

  function NotificationsIn(events: seq<Event>): seq<seq<byte>> {
    if events == [] then []
    else (if events[0].Notify? then [events[0].message] else []) + NotificationsIn(events[1..])
  }

  function RepliesIn(events: seq<Event>): seq<(AdsHeader, seq<byte>)> {
    if events == [] then []
    else (if events[0].ReplyTo? then [(events[0].header, events[0].payload)] else []) + RepliesIn(events[1..])
  }

  // ----- the loop

  /** One frame as the loop reads it, with its early exits. */
  method NextFrame(source: AmsAddr, p: seq<byte>) returns (r: Result<(Event, seq<byte>)>)
    ensures r == ReadFrame(source, p)
  {
    if |p| < 6 {
      return Err(UnexpectedEof);
    }
    var packetLen := U32(p[2..6]);
    if packetLen <= 31 {
      if |p| - 6 < packetLen {
        return Err(UnexpectedEof);
      }
      return Ok((Ignored, p[6 + packetLen..]));
    }
    if |p| < ADS_HEADER_SIZE {
      return Err(UnexpectedEof);
    }
    var headerBuf := p[..ADS_HEADER_SIZE];
    var header := DecodeHeader(headerBuf);
    var payloadLen := header.dataLength;
    if |p| - ADS_HEADER_SIZE < payloadLen {
      return Err(UnexpectedEof);
    }
    var payload, rest := p[ADS_HEADER_SIZE..][..payloadLen], p[ADS_HEADER_SIZE..][payloadLen..];
    assert headerBuf[2..6] == p[2..6] && header.length == packetLen;
    HeaderBytes(headerBuf);
    var cmd := U16(headerBuf[..2]);
    if cmd == 1 || 4096 <= cmd <= 4098 {
      return Ok((Ignored, rest));
    } else if cmd != 0 {
      return Err(Reply(InvalidPacket, cmd));
    }
    if payloadLen != packetLen - AMS_HEADER_SIZE {
      return Err(Reply(InconsistentLengths, 0));
    }
    if header.dest != source {
      return Ok((Ignored, rest));
    }
    if header.command != CMD_NOTIFICATION {
      return Ok((ReplyTo(header, payload), rest));
    }
    if payloadLen < 4 {
      return Err(Panic);
    }
    var notifLen := U32(payload[..4]);
    if header.stateFlags != 4 || header.errorCode != 0 || notifLen != payloadLen - 4 || notifLen < 4 {
      return Ok((Ignored, rest));
    }
    var notif := Notifications.New(headerBuf + payload);
    if notif.Ok? {
      return Ok((Notify(headerBuf + payload), rest));
    }
    return Ok((Ignored, rest));
  }

  /** `reader_work` on everything the socket will deliver: the notifications sent to the channel, the
      replies handed to the pending map, in arrival order, and the error it returns. */
  method ReaderWork(source: AmsAddr, stream: seq<byte>, settle: nat -> Option<Error>)
    returns (notifications: seq<seq<byte>>, replies: seq<(AdsHeader, seq<byte>)>, error: Error)
    ensures var (events, e) := Work(source, stream, 0, settle);
      notifications == NotificationsIn(events) && replies == RepliesIn(events) && error == e
  {
    hide ReadFrame, Work, NotificationsIn, RepliesIn;
    ghost var (events, e) := Work(source, stream, 0, settle);
    notifications, replies := [], [];
    var p := stream;
    while true
      invariant Work(source, p, |replies|, settle).1 == e
      invariant notifications + NotificationsIn(Work(source, p, |replies|, settle).0) == NotificationsIn(events)
      invariant replies + RepliesIn(Work(source, p, |replies|, settle).0) == RepliesIn(events)
      decreases |p|
    {
      WorkStep(source, p, |replies|, settle);
      var frame := NextFrame(source, p);
      if frame.Err? {
        error := frame.error;
        return;
      }
      var (event, rest) := frame.value;
      p := rest;
      if event.ReplyTo? {
        replies := replies + [(event.header, event.payload)];
        var verdict := settle(|replies| - 1);
        if verdict.Some? {
          error := verdict.value;
          return;
        }
      } else if event.Notify? {
        notifications := notifications + [event.message];
      }
    }
  }

  /** One iteration, seen from the lists of notifications and replies. */
  lemma {:induction false} WorkStep(source: AmsAddr, p: seq<byte>, k: nat, settle: nat -> Option<Error>)
    ensures var (events, e) := Work(source, p, k, settle);
      match ReadFrame(source, p)
      case Err(e') => e == e' && NotificationsIn(events) == [] && RepliesIn(events) == []
      case Ok((event, rest)) =>
        && |rest| < |p|
        && var k' := if event.ReplyTo? then k + 1 else k;
           var (events', e') := if event.ReplyTo? && settle(k).Some? then ([], settle(k).value)
                                else Work(source, rest, k', settle);
           && e == e' && (events' == [] ==> NotificationsIn(events') == [] && RepliesIn(events') == [])
           && NotificationsIn(events) == (if event.Notify? then [event.message] else []) + NotificationsIn(events')
           && RepliesIn(events) == (if event.ReplyTo? then [(event.header, event.payload)] else []) + RepliesIn(events')
  {
    hide ReadFrame;
    var (events, e) := Work(source, p, k, settle);
    if ReadFrame(source, p).Ok? {
      FrameAdvances(source, p);
      var (event, rest) := ReadFrame(source, p).value;
      var events' := if event.ReplyTo? && settle(k).Some? then []
                     else Work(source, rest, if event.ReplyTo? then k + 1 else k, settle).0;
      assert events == [event] + events' && events[1..] == events';
    }
  }

  lemma {:induction false} HeaderBytes(s: seq<byte>)
    requires |s| == ADS_HEADER_SIZE
    ensures EncodeHeader(DecodeHeader(s)) == s
  {
    hide Bytes.Le, Bytes.Unle, Ams.EncodeAddr, Ams.DecodeAddr;
    RoutingBytes(s[..22]);
    CommandBytes(s[22..]);
    var h := DecodeHeader(s);
    assert s[..22][..2] == s[..2] && s[..22][2..6] == s[2..6] && s[..22][6..14] == s[6..14] && s[..22][14..22] == s[14..22];
    assert s[22..][..2] == s[22..24] && s[22..][2..4] == s[24..26] && s[22..][4..8] == s[26..30];
    assert s[22..][8..12] == s[30..34] && s[22..][12..16] == s[34..38];
    assert s == s[..22] + s[22..];
  }

  lemma {:induction false} RoutingBytes(r: seq<byte>)
    requires |r| == 22
    ensures Le(Unle(r[..2]), 2) + Le(Unle(r[2..6]), 4) + EncodeAddr(DecodeAddr(r[6..14])) + EncodeAddr(DecodeAddr(r[14..22])) == r
  {
    hide Bytes.Le, Bytes.Unle, Ams.EncodeAddr, Ams.DecodeAddr;
    LeUnle(r[..2]); LeUnle(r[2..6]);
    AddrRoundTripBytes(r[6..14]); AddrRoundTripBytes(r[14..22]);
    assert r == r[..2] + r[2..6] + r[6..14] + r[14..22];
  }

  lemma {:induction false} CommandBytes(c: seq<byte>)
    requires |c| == 16
    ensures Le(Unle(c[..2]), 2) + Le(Unle(c[2..4]), 2) + Le(Unle(c[4..8]), 4) + Le(Unle(c[8..12]), 4)
          + Le(Unle(c[12..16]), 4) == c
  {
    hide Bytes.Le, Bytes.Unle;
    LeUnle(c[..2]); LeUnle(c[2..4]); LeUnle(c[4..8]); LeUnle(c[8..12]); LeUnle(c[12..16]);
    assert c == c[..2] + c[2..4] + c[4..8] + c[8..12] + c[12..16];
  }

  // ----- frame synchronisation

  /** A frame as a sender means it: a short one, or one with a full header and a payload. */
  datatype Frame = Short(cmd: u16, body: seq<byte>) | Full(header: AdsHeader, payload: seq<byte>)

  /** Both length fields tell the truth. */
  predicate WellFormed(f: Frame) {
    match f
    case Short(_, body) => |body| < 32
    case Full(h, payload) => h.dataLength == |payload| && h.length == AMS_HEADER_SIZE + |payload|
  }

  function EncodeFrame(f: Frame): seq<byte>
    requires WellFormed(f)
  {
    match f
    case Short(cmd, body) => Le(cmd, 2) + (Le(|body|, 4) + body)
    case Full(h, payload) => EncodeHeader(h) + payload
  }

  function EncodeFrames(fs: seq<Frame>): seq<byte>
    requires forall f :: f in fs ==> WellFormed(f)
  {
    if fs == [] then [] else EncodeFrame(fs[0]) + EncodeFrames(fs[1..])
  }

  /** What a frame means to a client, whatever surrounds it. */
  function Meaning(source: AmsAddr, f: Frame): Result<Event> {
    match f
    case Short(_, _) => Ok(Ignored)
    case Full(h, payload) => Interpret(source, h, payload)
  }

  lemma {:induction false} ShortFrameRead(source: AmsAddr, cmd: u16, body: seq<byte>, rest: seq<byte>)
    requires |body| < 32
    ensures ReadFrame(source, EncodeFrame(Short(cmd, body)) + rest) == Ok((Ignored, rest))
  {
    hide Bytes.Le, Bytes.Unle, Interpret;
    var p := EncodeFrame(Short(cmd, body)) + rest;
    assert p == Le(cmd, 2) + (Le(|body|, 4) + (body + rest));
    TakeBack(Le(cmd, 2), Le(|body|, 4) + (body + rest));
    U32Back(|body|, body + rest);
    assert p[2..6] == p[2..][..4] && p[6..] == p[2..][4..];
    TakeBack(body, rest);
    assert p[6 + |body|..] == p[6..][|body|..];
  }

  lemma {:induction false} FullFrameRead(source: AmsAddr, h: AdsHeader, payload: seq<byte>, rest: seq<byte>)
    requires h.dataLength == |payload| && h.length >= AMS_HEADER_SIZE
    ensures ReadFrame(source, EncodeHeader(h) + payload + rest)
         == match Interpret(source, h, payload)
            case Ok(event) => Ok((event, rest))
            case Err(e) => Err(e)
  {
    hide Bytes.Le, Bytes.Unle, Interpret, Ams.EncodeHeader;
    var p := EncodeHeader(h) + payload + rest;
    assert p == EncodeHeader(h) + (payload + rest);
    TakeBack(EncodeHeader(h), payload + rest);
    HeaderRoundTrip(h);
    assert p[2..6] == p[..38][2..6];
    TakeBack(payload, rest);
  }

  /** After a well-formed frame the reader stands at the start of the next one and has seen exactly
      the frame's header and payload. */
  lemma {:induction false} FrameRead(source: AmsAddr, f: Frame, rest: seq<byte>)
    requires WellFormed(f)
    ensures ReadFrame(source, EncodeFrame(f) + rest)
         == match Meaning(source, f)
            case Ok(event) => Ok((event, rest))
            case Err(e) => Err(e)
  {
    match f
    case Short(cmd, body) => ShortFrameRead(source, cmd, body, rest);
    case Full(h, payload) => FullFrameRead(source, h, payload, rest);
  }

  /** Handling frames one by one: events up to the first abort, whether there was one, and how many
      replies were seen. */
  datatype Handled = Handled(events: seq<Event>, abort: Option<Error>, replies: nat)

  function Handle(source: AmsAddr, fs: seq<Frame>, k: nat, settle: nat -> Option<Error>): Handled {
    if fs == [] then Handled([], None, k)
    else
      match Meaning(source, fs[0])
      case Err(e) => Handled([], Some(e), k)
      case Ok(event) =>
        if event.ReplyTo? && settle(k).Some? then Handled([event], Some(settle(k).value), k + 1)
        else
          var rest := Handle(source, fs[1..], if event.ReplyTo? then k + 1 else k, settle);
          rest.(events := [event] + rest.events)
  }

  /** On any concatenation of well-formed frames the loop sees exactly these frames, in order, until
      one of them ends the connection; otherwise it goes on with the bytes behind them. */
  lemma {:induction false} StaysInSync(source: AmsAddr, fs: seq<Frame>, tail: seq<byte>, k: nat,
                                       settle: nat -> Option<Error>)
    requires forall f :: f in fs ==> WellFormed(f)
    ensures var done := Handle(source, fs, k, settle);
      Work(source, EncodeFrames(fs) + tail, k, settle)
        == match done.abort
           case Some(e) => (done.events, e)
           case None => var after := Work(source, tail, done.replies, settle);
             (done.events + after.0, after.1)
    decreases |fs|
  {
    hide ReadFrame, Meaning, EncodeFrame;
    if fs == [] {
      assert EncodeFrames(fs) + tail == tail;
      assert [] + Work(source, tail, k, settle).0 == Work(source, tail, k, settle).0;
    } else {
      var next := EncodeFrames(fs[1..]) + tail;
      assert EncodeFrames(fs) + tail == EncodeFrame(fs[0]) + next;
      FrameRead(source, fs[0], next);
      if Meaning(source, fs[0]).Ok? {
        var event := Meaning(source, fs[0]).value;
        var k' := if event.ReplyTo? then k + 1 else k;
        StaysInSync(source, fs[1..], tail, k', settle);
        var done := Handle(source, fs[1..], k', settle);
        if done.abort.None? {
          var after := Work(source, tail, done.replies, settle).0;
          assert [event] + (done.events + after) == ([event] + done.events) + after;
        }
      }
    }
  }

  /** The events are the meanings of the frames, one by one, up to the abort; without one, of all of them. */
  lemma {:induction false} EventsAreMeanings(source: AmsAddr, fs: seq<Frame>, k: nat, settle: nat -> Option<Error>, i: nat)
    ensures var done := Handle(source, fs, k, settle);
      && |done.events| <= |fs| && (done.abort.None? ==> |done.events| == |fs|)
      && (i < |done.events| ==> Meaning(source, fs[i]) == Ok(done.events[i]))
    decreases |fs|
  {
    hide Meaning;
    if fs != [] && Meaning(source, fs[0]).Ok? {
      var event := Meaning(source, fs[0]).value;
      if !(event.ReplyTo? && settle(k).Some?) {
        EventsAreMeanings(source, fs[1..], if event.ReplyTo? then k + 1 else k, settle, if i > 0 then i - 1 else 0);
      }
    }
  }

  /** Notifications and replies are taken from the events in their order, each exactly once. */
  lemma {:induction false} TakenInOrder(a: seq<Event>, b: seq<Event>)
    ensures NotificationsIn(a + b) == NotificationsIn(a) + NotificationsIn(b)
    ensures RepliesIn(a + b) == RepliesIn(a) + RepliesIn(b)
  {
    if a == [] {
      assert a + b == b;
    } else {
      assert (a + b)[0] == a[0] && (a + b)[1..] == a[1..] + b;
      FirstTaken(a + b);
      FirstTaken(a);
      hide NotificationsIn, RepliesIn;
      TakenInOrder(a[1..], b);
    }
  }

  lemma {:induction false} FirstTaken(events: seq<Event>)
    requires events != []
    ensures NotificationsIn(events) == (if events[0].Notify? then [events[0].message] else []) + NotificationsIn(events[1..])
    ensures RepliesIn(events)
         == (if events[0].ReplyTo? then [(events[0].header, events[0].payload)] else []) + RepliesIn(events[1..])
  {
  }

  /** Each event counts for itself. */
  lemma {:induction false} TakenFromOne(e: Event)
    ensures NotificationsIn([e]) == if e.Notify? then [e.message] else []
    ensures RepliesIn([e]) == if e.ReplyTo? then [(e.header, e.payload)] else []
  {
    assert [e][1..] == [];
  }

  /** A frame is consumed exactly, whatever it holds, iff its two length fields agree or it is short. */
  lemma {:induction false} ConsumedExactlyIff(source: AmsAddr, p: seq<byte>)
    requires ReadFrame(source, p).Ok?
    ensures |p| >= 6
    ensures var packetLen, rest := U32(p[2..6]), ReadFrame(source, p).value.1;
      rest == p[|p| - |rest|..] &&
      (|p| - |rest| == 6 + packetLen <==>
         packetLen < 32 || (|p| >= 38 && DecodeHeader(p[..38]).dataLength == packetLen - 32))
  {
    hide Bytes.Le, Bytes.Unle, Interpret;
  }

  /** Where they disagree the connection ends, except in router messages, of AMS command 1 or 0x1000 to
      0x1002: those are skipped by the inner length, and the reader goes on in the middle of the frame. */
  lemma {:induction false} RouterMessageDesync(source: AmsAddr, h: AdsHeader, skipped: seq<byte>, left: seq<byte>,
                                  rest: seq<byte>)
    requires h.length == AMS_HEADER_SIZE + |skipped| + |left| && h.dataLength == |skipped| && left != []
    ensures var r := ReadFrame(source, EncodeHeader(h) + (skipped + left) + rest);
      if h.amsCmd == 1 || h.amsCmd == 0x1000 || h.amsCmd == 0x1001 || h.amsCmd == 0x1002 then
        r == Ok((Ignored, left + rest))
      else
        r == Err(if h.amsCmd == 0 then Reply(InconsistentLengths, 0) else Reply(InvalidPacket, h.amsCmd))
  {
    hide Ams.EncodeHeader;
    assert EncodeHeader(h) + (skipped + left) + rest == EncodeHeader(h) + skipped + (left + rest);
    FullFrameRead(source, h, skipped, left + rest);
  }

  /** Every notification passed on can be iterated: it is the encoding of some stamps. */
  lemma {:induction false} NotificationsAreValid(source: AmsAddr, p: seq<byte>, k: nat, settle: nat -> Option<Error>,
                                  i: nat)
    requires i < |NotificationsIn(Work(source, p, k, settle).0)|
    ensures Notifications.Content(NotificationsIn(Work(source, p, k, settle).0)[i]).Ok?
    decreases |p|
  {
    hide ReadFrame, Work, NotificationsIn, RepliesIn, Notifications.Content;
    WorkStep(source, p, k, settle);
    if ReadFrame(source, p).Ok? {
      NotifyIsValid(source, p);
      var (event, rest) := ReadFrame(source, p).value;
      var j := if event.Notify? then i - 1 else i;
      if j >= 0 && !(event.ReplyTo? && settle(k).Some?) {
        NotificationsAreValid(source, rest, if event.ReplyTo? then k + 1 else k, settle, j);
      }
    }
  }

  lemma {:induction false} NotifyIsValid(source: AmsAddr, p: seq<byte>)
    requires ReadFrame(source, p).Ok?
    ensures ReadFrame(source, p).value.0.Notify? ==> Notifications.Content(ReadFrame(source, p).value.0.message).Ok?
  {
    hide Bytes.Le, Bytes.Unle, Notifications.Content, Ams.EncodeHeader, Ams.DecodeHeader;
  }

  /** What every other frame means: router messages and frames for other clients are skipped, frames of an
      unknown AMS command end the connection. */
  lemma {:induction false} SkippedOrInvalid(source: AmsAddr, f: Frame)
    requires WellFormed(f)
    ensures f.Short? ==> Meaning(source, f) == Ok(Ignored)
    ensures f.Full? && (f.header.amsCmd == 1 || f.header.amsCmd == 0x1000 || f.header.amsCmd == 0x1001 || f.header.amsCmd == 0x1002)
      ==> Meaning(source, f) == Ok(Ignored)
    ensures f.Full? && f.header.amsCmd != 0 && f.header.amsCmd != 1 && !(0x1000 <= f.header.amsCmd <= 0x1002)
      ==> Meaning(source, f) == Err(Reply(InvalidPacket, f.header.amsCmd))
    ensures f.Full? && f.header.amsCmd == 0 && f.header.dest != source ==> Meaning(source, f) == Ok(Ignored)
  {
    hide Bytes.Unle, Notifications.Content, Ams.EncodeHeader;
  }

  /** A notification for this client that is long enough for its length field never ends the connection: it is
      passed on unchanged or skipped. */
  lemma {:induction false} NotificationNeverAborts(source: AmsAddr, h: AdsHeader, payload: seq<byte>)
    requires WellFormed(Full(h, payload)) && |payload| >= 4
    requires h.amsCmd == 0 && h.dest == source && h.command == 8
    ensures var m := Meaning(source, Full(h, payload));
      m == Ok(Ignored) || m == Ok(Notify(EncodeHeader(h) + payload))
  {
    hide Bytes.Unle, Notifications.Content, Ams.EncodeHeader;
  }

  /** A frame of which something is missing ends the connection as an end of the stream, wherever it
      breaks off. */
  lemma {:induction false} TruncatedFrame(source: AmsAddr, f: Frame, n: nat)
    requires WellFormed(f) && n < |EncodeFrame(f)|
    ensures ReadFrame(source, EncodeFrame(f)[..n]) == Err(UnexpectedEof)
  {
    hide Bytes.Le, Bytes.Unle, Interpret, Ams.EncodeHeader, Ams.DecodeHeader;
    var p, q := EncodeFrame(f), EncodeFrame(f)[..n];
    match f
    case Short(cmd, body) =>
      if n >= 6 {
        U32Back(|body|, body);
        assert q[2..6] == p[2..6] == (Le(|body|, 4) + body)[..4];
      }
    case Full(h, payload) =>
      HeaderRoundTrip(h);
      LengthInHeader(h);
      if n >= 6 {
        assert q[2..6] == EncodeHeader(h)[2..6];
      }
      if n >= 38 {
        assert q[..38] == EncodeHeader(h);
      }
  }

  lemma {:induction false} LengthInHeader(h: AdsHeader)
    ensures U32(EncodeHeader(h)[2..6]) == h.length
  {
    hide Bytes.Le, Bytes.Unle, Ams.EncodeHeader;
    HeaderLayout(h);
    U32Field(h.length);
  }

  /** Which frames reach the pending map: consistent ADS frames for this client that are not
      notifications. */
  lemma {:induction false} HandedOverIff(source: AmsAddr, f: Frame)
    requires WellFormed(f)
    ensures (exists h, p :: Meaning(source, f) == Ok(ReplyTo(h, p))) <==>
      f.Full? && f.header.amsCmd == 0 && f.header.dest == source && f.header.command != 8
    ensures f.Full? && f.header.amsCmd == 0 && f.header.dest == source && f.header.command != 8 ==>
      Meaning(source, f) == Ok(ReplyTo(f.header, f.payload))
  {
    hide Bytes.Unle, Notifications.Content, Ams.EncodeHeader;
  }

  /** Which frames reach the notification channel: consistent notifications for this client whose
      payload is a true length field and the encoding of some stamps; they arrive unchanged. */
  lemma {:induction false} NotifiedIff(source: AmsAddr, h: AdsHeader, payload: seq<byte>,
                                  stamps: seq<Notifications.Stamp>)
    requires WellFormed(Full(h, payload))
    requires h.amsCmd == 0 && h.dest == source && h.command == CMD_NOTIFICATION
    ensures Meaning(source, Full(h, payload)) == Ok(Notify(EncodeHeader(h) + payload))
            && Notifications.Content(EncodeHeader(h) + payload) == Ok(stamps) <==>
      && h.stateFlags == 4 && h.errorCode == 0 && Notifications.StampsFit(stamps)
      && |payload| >= 4 && payload == Le(|payload| - 4, 4) + (Le(|stamps|, 4) + Notifications.EncodeStamps(stamps))
  {
    hide Bytes.Le, Bytes.Unle, Ams.EncodeHeader, Notifications.EncodeStamps, Notifications.Content, Notifications.StampsFit;
    var data := EncodeHeader(h) + payload;
    if |payload| >= 4 {
      var body := Le(|stamps|, 4) + Notifications.EncodeStamps(stamps);
      LengthField(payload, body);
      Notifications.AcceptedIffEncoded(data, stamps);
      if |payload| >= 8 {
        MessageIsPayload(EncodeHeader(h), payload, body);
        assert Notifications.EncodeMessage(data[..42], stamps) == data[..42] + body;
      }
    }
  }

  lemma {:induction false} LengthField(payload: seq<byte>, body: seq<byte>)
    requires 4 <= |payload| < U32_LIMIT
    ensures payload == Le(|payload| - 4, 4) + body <==> U32(payload[..4]) == |payload| - 4 && payload[4..] == body
  {
    var n := |payload| - 4;
    U32Field(n);
    LeUnle(payload[..4]);
    hide Bytes.Le, Bytes.Unle;
    assert payload == payload[..4] + payload[4..];
    TakeBack(Le(n, 4), body);
  }

  lemma {:induction false} MessageIsPayload(header: seq<byte>, payload: seq<byte>, body: seq<byte>)
    requires |header| == 38 && |payload| >= 4
    ensures header + payload == (header + payload)[..42] + body <==> payload[4..] == body
  {
    var data := header + payload;
    assert data[42..] == payload[4..];
    assert data == data[..42] + data[42..];
    if data == data[..42] + body {
      assert (data[..42] + body)[42..] == body;
    }
  }

  // ----- what panics the reader

  /** A consistent notification for this client that is too short for its length field. */
  predicate ShortNotification(source: AmsAddr, f: Frame) {
    && f.Full? && f.header.amsCmd == 0 && f.header.dest == source && f.header.command == CMD_NOTIFICATION
    && |f.payload| < 4
  }

  lemma {:induction false} FramePanicsIff(source: AmsAddr, f: Frame)
    requires WellFormed(f)
    ensures Meaning(source, f) == Err(Panic) <==> ShortNotification(source, f)
  {
    hide Bytes.Unle, Ams.EncodeHeader, Notifications.Content;
  }

  /** Handling a list of frames, in terms of its first frame. */
  lemma {:induction false} HandleFirst(source: AmsAddr, fs: seq<Frame>, k: nat, settle: nat -> Option<Error>)
    requires fs != []
    ensures Handle(source, fs, k, settle).abort ==
      match Meaning(source, fs[0])
      case Err(e) => Some(e)
      case Ok(event) =>
        if event.ReplyTo? && settle(k).Some? then settle(k)
        else Handle(source, fs[1..], if event.ReplyTo? then k + 1 else k, settle).abort
  {
    hide Meaning;
  }

  ghost predicate PanicsAt(source: AmsAddr, fs: seq<Frame>, k: nat, settle: nat -> Option<Error>, i: nat) {
    i < |fs| && ShortNotification(source, fs[i]) && Handle(source, fs[..i], k, settle).abort.None?
  }

  lemma {:induction false} PanicsLater(source: AmsAddr, fs: seq<Frame>, k: nat, k': nat, settle: nat -> Option<Error>,
                                       i: nat)
    requires fs != [] && Meaning(source, fs[0]).Ok?
    requires var event := Meaning(source, fs[0]).value;
      !(event.ReplyTo? && settle(k).Some?) && k' == if event.ReplyTo? then k + 1 else k
    ensures PanicsAt(source, fs, k, settle, i + 1) <==> PanicsAt(source, fs[1..], k', settle, i)
  {
    hide Meaning, Handle, ShortNotification;
    if i + 1 < |fs| {
      HandleFirst(source, fs[..i + 1], k, settle);
      assert fs[..i + 1][1..] == fs[1..][..i];
    }
  }

  lemma {:induction false} PanicsFirst(source: AmsAddr, fs: seq<Frame>, k: nat, settle: nat -> Option<Error>)
    requires fs != [] && WellFormed(fs[0])
    ensures PanicsAt(source, fs, k, settle, 0) <==> Meaning(source, fs[0]) == Err(Panic)
    ensures (Meaning(source, fs[0]).Err? || (Meaning(source, fs[0]).value.ReplyTo? && settle(k).Some?)) ==>
      forall i: nat :: i > 0 ==> !PanicsAt(source, fs, k, settle, i)
  {
    hide Meaning, ShortNotification;
    FramePanicsIff(source, fs[0]);
    assert fs[..0] == [];
    forall i | 0 < i < |fs|
      ensures fs[..i] != [] && fs[..i][0] == fs[0]
    {
    }
  }

  lemma {:induction false} HandlePanicsIff(source: AmsAddr, fs: seq<Frame>, k: nat, settle: nat -> Option<Error>)
    requires forall f :: f in fs ==> WellFormed(f)
    requires forall n: nat :: settle(n) != Some(Panic)
    ensures Handle(source, fs, k, settle).abort == Some(Panic) <==> exists i: nat :: PanicsAt(source, fs, k, settle, i)
    decreases |fs|
  {
    if fs != [] {
      HandleFirst(source, fs, k, settle);
      PanicsFirst(source, fs, k, settle);
      hide Meaning, Handle, PanicsAt, WellFormed;
      if Meaning(source, fs[0]).Ok? {
        var event := Meaning(source, fs[0]).value;
        if !(event.ReplyTo? && settle(k).Some?) {
          var k' := if event.ReplyTo? then k + 1 else k;
          HandlePanicsIff(source, fs[1..], k', settle);
          if i: nat :| PanicsAt(source, fs, k, settle, i) {
            assert i != 0;
            PanicsLater(source, fs, k, k', settle, i - 1);
          }
          if i: nat :| PanicsAt(source, fs[1..], k', settle, i) {
            PanicsLater(source, fs, k, k', settle, i);
          }
        }
      }
    }
  }

  lemma {:induction false} EmptyStream(source: AmsAddr, k: nat, settle: nat -> Option<Error>)
    ensures Work(source, [], k, settle) == ([], UnexpectedEof)
  {
  }

  /** What the loop does with a stream that is nothing but these frames. */
  lemma {:induction false} WorkOnFrames(source: AmsAddr, fs: seq<Frame>, k: nat, settle: nat -> Option<Error>)
    requires forall f :: f in fs ==> WellFormed(f)
    ensures var done := Handle(source, fs, k, settle);
      Work(source, EncodeFrames(fs), k, settle)
        == (done.events, if done.abort.Some? then done.abort.value else UnexpectedEof)
  {
    hide Work, Handle, EncodeFrames, WellFormed;
    assert EncodeFrames(fs) + [] == EncodeFrames(fs);
    StaysInSync(source, fs, [], k, settle);
    var done := Handle(source, fs, k, settle);
    EmptyStream(source, done.replies, settle);
    assert done.events + [] == done.events;
  }

  /** The reader panics on a list of frames exactly if one of them is a notification too short for its
      length field and nothing before it ended the connection. */
  lemma {:induction false} ReaderPanicsIff(source: AmsAddr, fs: seq<Frame>, k: nat, settle: nat -> Option<Error>)
    requires forall f :: f in fs ==> WellFormed(f)
    requires forall n: nat :: settle(n) != Some(Panic)
    ensures Work(source, EncodeFrames(fs), k, settle).1 == Panic <==> exists i: nat :: PanicsAt(source, fs, k, settle, i)
  {
    hide Work, Handle, EncodeFrames, WellFormed, PanicsAt;
    WorkOnFrames(source, fs, k, settle);
    HandlePanicsIff(source, fs, k, settle);
  }
}
