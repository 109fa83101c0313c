/** The binary event-stream framing of `eventstream.rs`. */
module EventStream {
  import opened Wrappers
  import opened Bytes
  import opened SseShared

  type u32 = x: int | 0 <= x < 0x1_0000_0000

  /** The two foreign calls: a checksum, about which nothing is assumed, and lossy UTF-8 decoding. */
  datatype Codec = Codec(crc: bytes -> u32, lossy: bytes -> bytes) {
    /** Lossy decoding leaves UTF-8 alone. */
    ghost predicate Faithful() {
      forall p :: ValidUtf8(p) ==> lossy(p) == p
    }
  }

  const PRELUDE_LEN: nat := 12
  const MIN_FRAME: nat := PRELUDE_LEN + 4
  const MAX_FRAME: nat := 16 * 1024 * 1024
  const STRING_KIND: byte := 7

  const EVENT_TYPE: bytes := FromText(":event-type")
  const MESSAGE_TYPE: bytes := FromText(":message-type")
  const CONTENT_TYPE: bytes := FromText(":content-type")
  const EVENT_VALUE: bytes := FromText("event")
  const JSON_VALUE: bytes := FromText("application/json")
  const EXCEPTION: bytes := FromText("exception")

  // ----- big-endian words

  function PutU32(n: u32): bytes {
    [(n / 0x100_0000) as byte, (n / 0x1_0000 % 0x100) as byte, (n / 0x100 % 0x100) as byte, (n % 0x100) as byte]
  }

  function GetU32(s: bytes): (n: nat)
    requires |s| >= 4
    ensures n < 0x1_0000_0000
  {
    s[0] as nat * 0x100_0000 + s[1] as nat * 0x1_0000 + s[2] as nat * 0x100 + s[3] as nat
  }

  /** A length cut down to 16 bits, as the encoder's cast does. */
  function PutU16(n: nat): bytes {
    [(n / 0x100 % 0x100) as byte, (n % 0x100) as byte]
  }

  function GetU16(s: bytes): nat
    requires |s| >= 2
  {
    s[0] as nat * 0x100 + s[1] as nat
  }

  lemma Digits(n: u32)
    ensures n == n / 0x100_0000 * 0x100_0000 + n / 0x1_0000 % 0x100 * 0x1_0000 + n / 0x100 % 0x100 * 0x100 + n % 0x100
  {
    var h, m := n / 0x100, n / 0x1_0000;
    assert n / 0x1_0000 == h / 0x100 && n / 0x100_0000 == m / 0x100;
  }

  lemma U32RoundTrip(n: u32, rest: bytes)
    ensures |PutU32(n)| == 4 && GetU32(PutU32(n) + rest) == n
  {
    Digits(n);
    var s := PutU32(n) + rest;
    assert s[0] as nat == n / 0x100_0000 && s[1] as nat == n / 0x1_0000 % 0x100;
    assert s[2] as nat == n / 0x100 % 0x100 && s[3] as nat == n % 0x100;
  }

  lemma U16RoundTrip(n: nat, rest: bytes)
    requires n < 0x1_0000
    ensures |PutU16(n)| == 2 && GetU16(PutU16(n) + rest) == n
  {
  }

  // ----- headers

  datatype Headers = Headers(eventType: Option<bytes>, messageType: Option<bytes>)

  function Note(h: Headers, name: bytes, value: bytes): Headers {
    if name == EVENT_TYPE then h.(eventType := Some(value))
    else if name == MESSAGE_TYPE then h.(messageType := Some(value))
    else h
  }

  /** One header at the front of `s`: its name, its value, and how long it is. */
  function OneHeader(s: bytes): (r: Option<(bytes, bytes, nat)>)
    requires s != []
    ensures r.Some? ==> 0 < r.value.2 <= |s|
  {
    var nameLen := s[0] as nat;
    if 1 + nameLen > |s| || !ValidUtf8(s[1..1 + nameLen]) then None
    else if 1 + nameLen >= |s| || s[1 + nameLen] != STRING_KIND then None
    else
      var cursor := 2 + nameLen;
      if cursor + 2 > |s| then None
      else
        var len := GetU16(s[cursor..]);
        var start := cursor + 2;
        if start + len > |s| || !ValidUtf8(s[start..start + len]) then None
        else Some((s[1..1 + nameLen], s[start..start + len], start + len))
  }

  function ReadHeaders(s: bytes, h: Headers): Option<Headers>
    decreases |s|
  {
    if s == [] then Some(h)
    else
      var (name, value, n) :- OneHeader(s);
      ReadHeaders(s[n..], Note(h, name, value))
  }

  // ----- frames

  function DecodeFrame(c: Codec, frame: bytes): Option<SseEvent>
    requires |frame| >= MIN_FRAME
  {
    var headersLen := GetU32(frame[4..]);
    if c.crc(frame[..8]) != GetU32(frame[8..]) then None
    else
      var payloadEnd := |frame| - 4;
      var headersEnd := PRELUDE_LEN + headersLen;
      if headersEnd > payloadEnd then None
      else if c.crc(frame[..payloadEnd]) != GetU32(frame[payloadEnd..]) then None
      else
        var h :- ReadHeaders(frame[PRELUDE_LEN..headersEnd], Headers(None, None));
        Some(SseEvent(if h.messageType == Some(EXCEPTION) then Some(EXCEPTION) else h.eventType,
                      c.lossy(frame[headersEnd..payloadEnd])))
  }

  function Header(name: bytes, value: bytes): bytes
    requires |name| < 256
  {
    [|name| as byte] + name + [STRING_KIND] + PutU16(|value|) + value
  }

  function EventHeaders(eventType: bytes): bytes {
    Header(EVENT_TYPE, eventType) + (Header(MESSAGE_TYPE, EVENT_VALUE) + Header(CONTENT_TYPE, JSON_VALUE))
  }

  function FrameLen(eventType: bytes, payload: bytes): nat {
    PRELUDE_LEN + |EventHeaders(eventType)| + |payload| + 4
  }

  function Prelude(c: Codec, total: u32, headersLen: u32): bytes {
    var lengths := PutU32(total) + PutU32(headersLen);
    lengths + PutU32(c.crc(lengths))
  }

  /** A length cut down to 32 bits, as the encoder's casts do. */
  function Cast32(n: nat): u32 {
    n % 0x1_0000_0000
  }

  function EncodeEvent(c: Codec, eventType: bytes, payload: bytes): bytes {
    var headers := EventHeaders(eventType);
    var body := Prelude(c, Cast32(FrameLen(eventType, payload)), Cast32(|headers|)) + headers + payload;
    body + PutU32(c.crc(body))
  }

  function Drain(c: Codec, buf: bytes): (seq<SseEvent>, bytes)
    decreases |buf|
  {
    if |buf| < PRELUDE_LEN then ([], buf)
    else
      var total := GetU32(buf);
      if !(MIN_FRAME <= total <= MAX_FRAME) then ([], [])
      else if |buf| < total then ([], buf)
      else
        var (events, rest) := Drain(c, buf[total..]);
        (OptionSeq(DecodeFrame(c, buf[..total])) + events, rest)
  }

  function PushAll(c: Codec, buf: bytes, chunks: seq<bytes>): (seq<SseEvent>, bytes)
    decreases |chunks|
  {
    if chunks == [] then ([], buf)
    else
      var (events, rest) := Drain(c, buf + chunks[0]);
      var (more, last) := PushAll(c, rest, chunks[1..]);
      (events + more, last)
  }

  // ----- the parser and the encoder

  class EventStreamParser {
    const codec: Codec
    var buffer: bytes

    constructor (c: Codec)
      ensures codec == c && buffer == []
    {
      codec := c;
      buffer := [];
    }

    /** Feed a network chunk; frames whose checksums do not match are dropped, the stream goes on. */
    method Push(chunk: bytes) returns (events: seq<SseEvent>)
      modifies this
      ensures (events, buffer) == Drain(codec, old(buffer) + chunk)
    {
      hide DecodeFrame, GetU32, Drain;
      buffer := buffer + chunk;
      events := [];
      assert [] + Drain(codec, buffer).0 == Drain(codec, buffer).0;
      while true
        invariant Drain(codec, old(buffer) + chunk) == (events + Drain(codec, buffer).0, Drain(codec, buffer).1)
        decreases |buffer|
      {
        ghost var before := events;
        DrainStep(codec, buffer);
        if |buffer| < PRELUDE_LEN {
          assert events + [] == events;
          return;
        }
        var total := GetU32(buffer);
        if !(MIN_FRAME <= total <= MAX_FRAME) {
          assert events + [] == events;
          buffer := [];
          return;
        }
        if |buffer| < total {
          assert events + [] == events;
          return;
        }
        var frame := buffer[..total];
        buffer := buffer[total..];
        var event := DecodeFrameBytes(codec, frame);
        if event.Some? {
          events := events + [event.value];
        }
        assert events == before + OptionSeq(event);
        assert before + (OptionSeq(event) + Drain(codec, buffer).0) == events + Drain(codec, buffer).0;
      }
    }

    function Pending(): nat
      reads this
    {
      |buffer|
    }
  }

  lemma DrainStep(c: Codec, buf: bytes)
    ensures Drain(c, buf)
         == if |buf| < PRELUDE_LEN then ([], buf)
            else if !(MIN_FRAME <= GetU32(buf) <= MAX_FRAME) then ([], [])
            else if |buf| < GetU32(buf) then ([], buf)
            else (OptionSeq(DecodeFrame(c, buf[..GetU32(buf)])) + Drain(c, buf[GetU32(buf)..]).0, Drain(c, buf[GetU32(buf)..]).1)
  {
    hide DecodeFrame, GetU32;
  }

  lemma {:induction false} ReadHeadersStep(s: bytes, i: nat, h: Headers)
    requires i < |s|
    ensures ReadHeaders(s[i..], h)
         == match OneHeader(s[i..])
            case None => None
            case Some(p) => ReadHeaders(s[i + p.2..], Note(h, p.0, p.1))
  {
    hide OneHeader;
    if OneHeader(s[i..]).Some? {
      var n := OneHeader(s[i..]).value.2;
      assert s[i..][n..] == s[i + n..];
    }
  }

  /** Check a frame and read its headers with a cursor. */
  method DecodeFrameBytes(c: Codec, frame: bytes) returns (event: Option<SseEvent>)
    requires |frame| >= MIN_FRAME
    ensures event == DecodeFrame(c, frame)
  {
    hide OneHeader, ReadHeaders;
    var headersLen := GetU32(frame[4..]);
    if c.crc(frame[..8]) != GetU32(frame[8..]) {
      return None;
    }
    var payloadEnd := |frame| - 4;
    var headersEnd := PRELUDE_LEN + headersLen;
    if headersEnd > payloadEnd {
      return None;
    }
    if c.crc(frame[..payloadEnd]) != GetU32(frame[payloadEnd..]) {
      return None;
    }
    var headers := frame[PRELUDE_LEN..headersEnd];
    var seen := Headers(None, None);
    var i := 0;
    assert headers[0..] == headers;
    while i < |headers|
      invariant i <= |headers|
      invariant ReadHeaders(headers, Headers(None, None)) == ReadHeaders(headers[i..], seen)
      decreases |headers| - i
    {
      ReadHeadersStep(headers, i, seen);
      var header := OneHeader(headers[i..]);
      if header.None? {
        return None;
      }
      var (name, value, n) := header.value;
      seen := Note(seen, name, value);
      i := i + n;
    }
    assert headers[i..] == [];
    ReadHeadersEnd(seen);
    if seen.messageType == Some(EXCEPTION) {
      seen := seen.(eventType := Some(EXCEPTION));
    }
    event := Some(SseEvent(seen.eventType, c.lossy(frame[headersEnd..payloadEnd])));
  }

  lemma ReadHeadersEnd(h: Headers)
    ensures ReadHeaders([], h) == Some(h)
  {
  }

  /** Build one frame by appending to a buffer, checksumming what is there so far. */
  method EncodeEventBytes(c: Codec, eventType: bytes, payload: bytes) returns (out: bytes)
    ensures out == EncodeEvent(c, eventType, payload)
  {
    hide FromText;
    DifferentNames();
    var pairs := [(EVENT_TYPE, eventType), (MESSAGE_TYPE, EVENT_VALUE), (CONTENT_TYPE, JSON_VALUE)];
    var headers := [];
    headers := headers + Header(pairs[0].0, pairs[0].1);
    headers := headers + Header(pairs[1].0, pairs[1].1);
    headers := headers + Header(pairs[2].0, pairs[2].1);
    assert headers == EventHeaders(eventType);
    hide Header, PutU32;
    var total := PRELUDE_LEN + |headers| + |payload| + 4;
    out := PutU32(Cast32(total));
    out := out + PutU32(Cast32(|headers|));
    PutU32Long(Cast32(total));
    PutU32Long(Cast32(|headers|));
    assert out[0..8] == out;
    out := out + PutU32(c.crc(out[0..8]));
    assert out == Prelude(c, Cast32(total), Cast32(|headers|));
    out := out + headers;
    out := out + payload;
    assert out[..] == out;
    out := out + PutU32(c.crc(out[..]));
  }

  lemma PutU32Long(n: u32)
    ensures |PutU32(n)| == 4
  {
  }

  // ----- what one frame carries

  lemma {:induction false} HeaderReads(name: bytes, value: bytes, rest: bytes)
    requires |name| < 256 && |value| < 0x1_0000 && ValidUtf8(name) && ValidUtf8(value)
    ensures OneHeader(Header(name, value) + rest) == Some((name, value, |Header(name, value)|))
  {
    hide ValidUtf8;
    var s := Header(name, value) + rest;
    var n := |name|;
    assert s[1..1 + n] == name;
    assert s[2 + n..] == PutU16(|value|) + (value + rest);
    U16RoundTrip(|value|, value + rest);
    assert s[4 + n..4 + n + |value|] == value;
  }

  lemma HeadersRead(name: bytes, value: bytes, rest: bytes, h: Headers)
    requires |name| < 256 && |value| < 0x1_0000 && ValidUtf8(name) && ValidUtf8(value)
    ensures ReadHeaders(Header(name, value) + rest, h) == ReadHeaders(rest, Note(h, name, value))
  {
    hide OneHeader, ValidUtf8;
    HeaderReads(name, value, rest);
    Halves(Header(name, value), rest);
  }

  lemma DifferentNames()
    ensures EVENT_TYPE != MESSAGE_TYPE && CONTENT_TYPE != EVENT_TYPE && CONTENT_TYPE != MESSAGE_TYPE
    ensures |EVENT_TYPE| < 256 && |MESSAGE_TYPE| < 256 && |CONTENT_TYPE| < 256
    ensures |EVENT_VALUE| < 256 && |JSON_VALUE| < 256
  {
    assert |EVENT_TYPE| == 11 && |MESSAGE_TYPE| == 13;
    assert CONTENT_TYPE[1] != MESSAGE_TYPE[1];
  }

  lemma NamesAreText()
    ensures ValidUtf8(EVENT_TYPE) && ValidUtf8(MESSAGE_TYPE) && ValidUtf8(CONTENT_TYPE)
  {
    hide ValidUtf8;
    AsciiIsUtf8(EVENT_TYPE);
    AsciiIsUtf8(MESSAGE_TYPE);
    AsciiIsUtf8(CONTENT_TYPE);
  }

  lemma ValuesAreText()
    ensures ValidUtf8(EVENT_VALUE) && ValidUtf8(JSON_VALUE)
  {
    hide ValidUtf8;
    AsciiIsUtf8(EVENT_VALUE);
    AsciiIsUtf8(JSON_VALUE);
  }

  lemma {:induction false} EventHeadersRead(eventType: bytes)
    requires |eventType| < 0x1_0000 && ValidUtf8(eventType)
    ensures ReadHeaders(EventHeaders(eventType), Headers(None, None)) == Some(Headers(Some(eventType), Some(EVENT_VALUE)))
  {
    hide ReadHeaders, Header, ValidUtf8;
    NamesAreText();
    ValuesAreText();
    DifferentNames();
    hide FromText;
    var h2 := Header(MESSAGE_TYPE, EVENT_VALUE);
    var h3 := Header(CONTENT_TYPE, JSON_VALUE);
    assert h3 + [] == h3;
    HeadersRead(EVENT_TYPE, eventType, h2 + h3, Headers(None, None));
    HeadersRead(MESSAGE_TYPE, EVENT_VALUE, h3, Headers(Some(eventType), None));
    HeadersRead(CONTENT_TYPE, JSON_VALUE, [], Headers(Some(eventType), Some(EVENT_VALUE)));
    ReadHeadersEnd(Headers(Some(eventType), Some(EVENT_VALUE)));
  }

  /** The limits within which the encoder's casts lose nothing the decoder needs. */
  predicate Sendable(eventType: bytes, payload: bytes) {
    |eventType| < 0x1_0000 && FrameLen(eventType, payload) <= MAX_FRAME
  }

  /** Three words of four bytes, then the rest, read back by position. */
  lemma PreludeReads(a: u32, b: u32, k: u32, rest: bytes)
    ensures (var s := PutU32(a) + PutU32(b) + PutU32(k) + rest;
             && |s| == PRELUDE_LEN + |rest| && s[..8] == PutU32(a) + PutU32(b) && s[12..] == rest
             && GetU32(s) == a && GetU32(s[4..]) == b && GetU32(s[8..]) == k)
  {
    hide PutU32, GetU32;
    PutU32Long(a);
    PutU32Long(b);
    PutU32Long(k);
    var s := PutU32(a) + PutU32(b) + PutU32(k) + rest;
    assert s == PutU32(a) + (PutU32(b) + (PutU32(k) + rest));
    U32RoundTrip(a, PutU32(b) + (PutU32(k) + rest));
    assert s[4..] == PutU32(b) + (PutU32(k) + rest);
    U32RoundTrip(b, PutU32(k) + rest);
    assert s[8..] == PutU32(k) + rest;
    U32RoundTrip(k, rest);
  }

  lemma EncodedLayout(c: Codec, eventType: bytes, payload: bytes)
    requires FrameLen(eventType, payload) <= MAX_FRAME
    ensures (var f := EncodeEvent(c, eventType, payload);
             var headers := EventHeaders(eventType);
             var end := |f| - 4;
             && |f| == FrameLen(eventType, payload) && GetU32(f) == |f|
             && GetU32(f[4..]) == |headers|
             && GetU32(f[8..]) == c.crc(f[..8])
             && f[PRELUDE_LEN..PRELUDE_LEN + |headers|] == headers
             && f[PRELUDE_LEN + |headers|..end] == payload
             && GetU32(f[end..]) == c.crc(f[..end]))
  {
    hide EventHeaders, PutU32, GetU32;
    var headers := EventHeaders(eventType);
    var total := FrameLen(eventType, payload);
    var lengths := PutU32(total) + PutU32(|headers|);
    var body := lengths + PutU32(c.crc(lengths)) + headers + payload;
    var last := PutU32(c.crc(body));
    var f := body + last;
    assert EncodeEvent(c, eventType, payload) == f;
    PutU32Long(c.crc(body));
    var tail := headers + (payload + last);
    PreludeReads(total, |headers|, c.crc(lengths), tail);
    Assoc3(lengths + PutU32(c.crc(lengths)), headers, payload, last);
    Halves(body, last);
    U32RoundTrip(c.crc(body), []);
    assert last + [] == last;
    Middle(f, PRELUDE_LEN, headers, payload, last);
  }

  lemma Middle(f: bytes, i: nat, a: bytes, b: bytes, c: bytes)
    requires i <= |f| && f[i..] == a + (b + c)
    ensures |f| == i + |a| + |b| + |c|
    ensures f[i..i + |a|] == a && f[i + |a|..i + |a| + |b|] == b
  {
    assert |f[i..]| == |f| - i;
    assert f[i..i + |a|] == f[i..][..|a|];
    assert f[i + |a|..i + |a| + |b|] == f[i..][|a|..|a| + |b|];
  }

  /** An event too long for the decoder is encoded all the same, and lost with everything that follows it in its chunk. */
  lemma OversizeIsLost(c: Codec, eventType: bytes, payload: bytes, rest: bytes)
    requires MAX_FRAME < FrameLen(eventType, payload) < 0x1_0000_0000
    ensures Drain(c, EncodeEvent(c, eventType, payload) + rest) == ([], [])
  {
    hide EventHeaders, PutU32, GetU32;
    var headers := EventHeaders(eventType);
    var total := FrameLen(eventType, payload);
    var lengths := PutU32(total) + PutU32(Cast32(|headers|));
    var check := PutU32(c.crc(lengths));
    var body := lengths + check + headers + payload;
    var last := PutU32(c.crc(body));
    var f := body + last + rest;
    var tail := PutU32(Cast32(|headers|)) + check + headers + payload + last + rest;
    assert EncodeEvent(c, eventType, payload) + rest == f;
    assert f == PutU32(total) + tail;
    U32RoundTrip(total, tail);
  }

  /** No header carries a value of 65536 bytes. */
  lemma {:induction false} ReadTypeIsShort(s: bytes, h: Headers)
    requires ReadHeaders(s, h).Some?
    ensures ReadHeaders(s, h).value.eventType == h.eventType
         || (ReadHeaders(s, h).value.eventType.Some? && |ReadHeaders(s, h).value.eventType.value| < 0x1_0000)
    decreases |s|
  {
    hide OneHeader;
    if s != [] {
      var (name, value, n) := OneHeader(s).value;
      OneHeaderIsShort(s);
      ReadTypeIsShort(s[n..], Note(h, name, value));
    }
  }

  lemma OneHeaderIsShort(s: bytes)
    requires s != [] && OneHeader(s).Some?
    ensures |OneHeader(s).value.1| < 0x1_0000
  {
  }

  /** What the decoder makes of an encoded event depends on what it reads from the headers. */
  lemma DecodeEncoded(c: Codec, eventType: bytes, payload: bytes)
    requires FrameLen(eventType, payload) <= MAX_FRAME
    ensures |EncodeEvent(c, eventType, payload)| >= MIN_FRAME
    ensures DecodeFrame(c, EncodeEvent(c, eventType, payload))
         == match ReadHeaders(EventHeaders(eventType), Headers(None, None))
            case None => None
            case Some(h) =>
              Some(SseEvent(if h.messageType == Some(EXCEPTION) then Some(EXCEPTION) else h.eventType, c.lossy(payload)))
  {
    hide EncodeEvent, ReadHeaders, EventHeaders, GetU32;
    EncodedLayout(c, eventType, payload);
  }

  /**
   In a frame the decoder takes, an event comes back as it was sent exactly when its type's length fits the
   16 bits it is cast to, for any checksum function and any payload, read as the decoder's text.
   */
  lemma FrameRoundTripIff(c: Codec, eventType: bytes, payload: bytes)
    requires ValidUtf8(eventType) && FrameLen(eventType, payload) <= MAX_FRAME
    ensures |EncodeEvent(c, eventType, payload)| >= MIN_FRAME
    ensures DecodeFrame(c, EncodeEvent(c, eventType, payload)) == Some(SseEvent(Some(eventType), c.lossy(payload)))
        <==> |eventType| < 0x1_0000
  {
    hide EncodeEvent, ReadHeaders, EventHeaders, DecodeFrame, ValidUtf8;
    DecodeEncoded(c, eventType, payload);
    if |eventType| < 0x1_0000 {
      EventHeadersRead(eventType);
    } else if ReadHeaders(EventHeaders(eventType), Headers(None, None)).Some? {
      ReadTypeIsShort(EventHeaders(eventType), Headers(None, None));
    }
  }

  /** A type of 65536 letters: its length is sent as 0, the letters are read as a header, and the event vanishes. */
  lemma LongTypeIsLost(c: Codec, payload: bytes)
    requires FrameLen(seq(0x1_0000, _ => 0x61), payload) <= MAX_FRAME
    ensures DecodeFrame(c, EncodeEvent(c, seq(0x1_0000, _ => 0x61), payload)) == None
  {
    hide EncodeEvent, ReadHeaders, DecodeFrame, FrameLen, FromText, Header, ValidUtf8;
    DifferentNames();
    NamesAreText();
    var t: bytes := seq(0x1_0000, _ => 0x61);
    DecodeEncoded(c, t, payload);
    var rest := Header(MESSAGE_TYPE, EVENT_VALUE) + Header(CONTENT_TYPE, JSON_VALUE);
    LengthLost(t, rest);
    AsciiIsUtf8([]);
    HeadersRead(EVENT_TYPE, [], t + rest, Headers(None, None));
    LettersAreNoHeader(t, rest);
    ReadHeadersFails(t + rest, Note(Headers(None, None), EVENT_TYPE, []));
  }

  lemma LengthLost(t: bytes, rest: bytes)
    requires |t| == 0x1_0000
    ensures |EVENT_TYPE| < 256 && Header(EVENT_TYPE, t) + rest == Header(EVENT_TYPE, []) + (t + rest)
  {
    hide FromText;
    DifferentNames();
    assert PutU16(|t|) == [0, 0] == PutU16(0);
  }

  lemma LettersAreNoHeader(t: bytes, rest: bytes)
    requires |t| >= 0x63 && forall i :: 0 <= i < |t| ==> t[i] == 0x61
    ensures OneHeader(t + rest) == None
  {
  }

  lemma ReadHeadersFails(s: bytes, h: Headers)
    requires s != [] && OneHeader(s) == None
    ensures ReadHeaders(s, h) == None
  {
  }

  // ----- cuts do not matter, while the framing holds

  /** A frame boundary of `s` carries a length no frame can have, and at least one byte follows that prelude. */
  predicate Spoiled(s: bytes)
    decreases |s|
  {
    |s| >= PRELUDE_LEN &&
    (var total := GetU32(s);
     if !(MIN_FRAME <= total <= MAX_FRAME) then |s| > PRELUDE_LEN
     else |s| >= total && Spoiled(s[total..]))
  }

  lemma GetU32Stable(a: bytes, b: bytes)
    requires |a| >= 4
    ensures GetU32(a + b) == GetU32(a)
  {
  }

  lemma {:induction false} DrainSplit(c: Codec, a: bytes, b: bytes)
    requires !Spoiled(a + b)
    ensures (var (e1, r1) := Drain(c, a);
             var (e2, r2) := Drain(c, r1 + b);
             Drain(c, a + b) == (e1 + e2, r2) && !Spoiled(r1 + b))
    decreases |a|
  {
    hide DecodeFrame, GetU32;
    if |a| >= PRELUDE_LEN { GetU32Stable(a, b); }
    if |a| >= PRELUDE_LEN && !(MIN_FRAME <= GetU32(a) <= MAX_FRAME) {
      assert b == [];
    } else if |a| >= PRELUDE_LEN && |a| >= GetU32(a) {
      var total := GetU32(a);
      DropFront(a, b, total);
      DrainSplit(c, a[total..], b);
      var one := OptionSeq(DecodeFrame(c, a[..total]));
      var (e1, r1) := Drain(c, a[total..]);
      var (e2, r2) := Drain(c, r1 + b);
      assert one + (e1 + e2) == (one + e1) + e2;
    } else {
      assert [] + Drain(c, a + b).0 == Drain(c, a + b).0;
    }
  }

  lemma {:induction false} CutsDoNotMatter(c: Codec, buf: bytes, chunks: seq<bytes>)
    requires !Spoiled(buf + Concat(chunks)) && Drain(c, buf) == ([], buf)
    ensures PushAll(c, buf, chunks) == Drain(c, buf + Concat(chunks))
    decreases |chunks|
  {
    hide Drain, Spoiled;
    if chunks == [] {
      assert buf + [] == buf;
    } else {
      var (events, rest) := Drain(c, buf + chunks[0]);
      assert (buf + chunks[0]) + Concat(chunks[1..]) == buf + Concat(chunks);
      DrainSplit(c, buf + chunks[0], Concat(chunks[1..]));
      DrainIdle(c, buf + chunks[0]);
      CutsDoNotMatter(c, rest, chunks[1..]);
    }
  }

  lemma {:induction false} DrainIdle(c: Codec, buf: bytes)
    ensures Drain(c, Drain(c, buf).1) == ([], Drain(c, buf).1)
    decreases |buf|
  {
    hide DecodeFrame, GetU32;
    if |buf| >= PRELUDE_LEN && MIN_FRAME <= GetU32(buf) <= MAX_FRAME && |buf| >= GetU32(buf) {
      DrainIdle(c, buf[GetU32(buf)..]);
    }
  }

  lemma DrainNothing(c: Codec)
    ensures Drain(c, []) == ([], [])
  {
  }

  /** A spoiled stream is cleared to its end, whether or not its last byte has come. */
  lemma {:induction false} SpoiledClears(c: Codec, s: bytes)
    requires Spoiled(s)
    ensures |s| > PRELUDE_LEN && Drain(c, s).1 == [] && Drain(c, s[..|s| - 1]).1 == []
    decreases |s|
  {
    hide DecodeFrame, GetU32;
    var total := GetU32(s);
    var t := s[..|s| - 1];
    if MIN_FRAME <= total <= MAX_FRAME {
      SpoiledClears(c, s[total..]);
      assert |s[total..]| >= PRELUDE_LEN;
      assert t + [s[|s| - 1]] == s;
      GetU32Stable(t, [s[|s| - 1]]);
      assert t[total..] == s[total..][..|s| - total - 1];
    } else {
      assert t + [s[|s| - 1]] == s;
      GetU32Stable(t, [s[|s| - 1]]);
    }
  }

  /**
   The streams whose events and remainder do not depend on the cuts: exactly those in which no byte
   follows an impossible length.
   */
  lemma CutsDoNotMatterIff(c: Codec, s: bytes)
    ensures (forall chunks: seq<bytes> :: Concat(chunks) == s ==> PushAll(c, [], chunks) == Drain(c, s)) <==> !Spoiled(s)
  {
    hide Drain, Spoiled, PushAll, Concat;
    if !Spoiled(s) {
      forall chunks: seq<bytes> | Concat(chunks) == s
        ensures PushAll(c, [], chunks) == Drain(c, s)
      {
        assert [] + s == s;
        DrainNothing(c);
        CutsDoNotMatter(c, [], chunks);
      }
    } else {
      SpoiledDepends(c, s);
    }
  }

  /** Holding back the last byte of a spoiled stream leaves that byte in the buffer. */
  lemma SpoiledDepends(c: Codec, s: bytes)
    requires Spoiled(s)
    ensures exists chunks: seq<bytes> :: Concat(chunks) == s && PushAll(c, [], chunks) != Drain(c, s)
  {
    hide Drain, Spoiled, PushAll, Concat;
    SpoiledClears(c, s);
    var a, b := s[..|s| - 1], [s[|s| - 1]];
    OneByteWaits(c, b);
    TwoChunks(c, a, b);
    assert a + b == s;
    assert [] + b == b;
    assert PushAll(c, [], [a, b]) != Drain(c, s);
  }

  lemma OneByteWaits(c: Codec, b: bytes)
    requires |b| == 1
    ensures Drain(c, b) == ([], b)
  {
  }

  lemma TwoChunks(c: Codec, a: bytes, b: bytes)
    ensures Concat([a, b]) == a + b
    ensures (var (e, r) := Drain(c, a); PushAll(c, [], [a, b]).1 == Drain(c, r + b).1)
  {
    hide Drain;
    assert [a, b][1..] == [b] && [b][1..] == [];
    assert Concat([b]) == b + [];
    assert b + [] == b && [] + a == a;
    var (e, r) := Drain(c, a);
    assert PushAll(c, r, [b]).1 == Drain(c, r + b).1;
  }

  /** The shortest such stream: a length of zero and one byte after the prelude, whole and cut before that byte. */
  lemma ThirteenZeros(c: Codec)
    ensures (var s: bytes := [0, 0, 0, 0, 0, 0, 0, 0, 0, 0, 0, 0, 0];
             && Spoiled(s)
             && PushAll(c, [], [s]) == ([], [])
             && PushAll(c, [], [s[..PRELUDE_LEN], s[PRELUDE_LEN..]]) == ([], [0]))
  {
    var s: bytes := [0, 0, 0, 0, 0, 0, 0, 0, 0, 0, 0, 0, 0];
    var a, b := s[..PRELUDE_LEN], s[PRELUDE_LEN..];
    assert b == [0] && |a| == PRELUDE_LEN;
    assert Drain(c, s) == ([], []) && Drain(c, a) == ([], []) && Drain(c, b) == ([], b);
    hide Drain, Spoiled;
    assert [s][1..] == [] && [a, b][1..] == [b] && [b][1..] == [];
    assert [] + s == s && [] + a == a && [] + b == b;
    assert PushAll(c, [], []) == ([], []) && PushAll(c, b, []) == ([], b);
    var none: seq<SseEvent> := [];
    assert none + none == none;
    var one: seq<bytes> := [b];
    assert one[0] == b && one[1..] == [];
    assert PushAll(c, [], one) == ([], b);
  }

  // ----- streams of frames

  /** A frame the parser delimits as one, whatever is inside. */
  predicate Framed(f: bytes) {
    MIN_FRAME <= |f| <= MAX_FRAME && GetU32(f) == |f|
  }

  predicate AllFramed(fs: seq<bytes>) {
    forall i :: 0 <= i < |fs| ==> Framed(fs[i])
  }

  function Events(c: Codec, fs: seq<bytes>): seq<SseEvent>
    requires AllFramed(fs)
  {
    if fs == [] then [] else OptionSeq(DecodeFrame(c, fs[0])) + Events(c, fs[1..])
  }

  lemma {:induction false} DrainFrames(c: Codec, fs: seq<bytes>)
    requires AllFramed(fs)
    ensures Drain(c, Concat(fs)) == (Events(c, fs), []) && !Spoiled(Concat(fs))
  {
    hide DecodeFrame, GetU32;
    if fs != [] {
      DrainFrames(c, fs[1..]);
      GetU32Stable(fs[0], Concat(fs[1..]));
      Halves(fs[0], Concat(fs[1..]));
    }
  }

  /** However a stream of frames is cut, each frame yields its own event or none, in order, and nothing is left. */
  lemma FramesDecode(c: Codec, fs: seq<bytes>, chunks: seq<bytes>)
    requires AllFramed(fs) && Concat(chunks) == Concat(fs)
    ensures PushAll(c, [], chunks) == (Events(c, fs), [])
  {
    DrainFrames(c, fs);
    assert [] + Concat(chunks) == Concat(fs);
    CutsDoNotMatter(c, [], chunks);
  }

  lemma {:induction false} EventsAppend(c: Codec, a: seq<bytes>, b: seq<bytes>)
    requires AllFramed(a) && AllFramed(b)
    ensures AllFramed(a + b) && Events(c, a + b) == Events(c, a) + Events(c, b)
  {
    hide DecodeFrame, GetU32;
    if a == [] {
      assert a + b == b;
    } else {
      EventsAppend(c, a[1..], b);
      assert (a + b)[1..] == a[1..] + b;
      assert AllFramed(a + b);
      var one := OptionSeq(DecodeFrame(c, a[0]));
      assert one + (Events(c, a[1..]) + Events(c, b)) == (one + Events(c, a[1..])) + Events(c, b);
    }
  }

  /** A frame yields nothing unless both its checksums are those of the bytes before them. */
  lemma ChecksumsAgree(c: Codec, f: bytes)
    requires |f| >= MIN_FRAME && DecodeFrame(c, f).Some?
    ensures f[8..12] == BigEndian(c.crc(f[..8]), 4)
    ensures f[|f| - 4..] == BigEndian(c.crc(f[..|f| - 4]), 4)
  {
    hide ReadHeaders, GetU32;
    WordAt(f[8..]);
    WordAt(f[|f| - 4..]);
    assert f[8..][..4] == f[8..12] && f[|f| - 4..][..4] == f[|f| - 4..];
  }

  lemma WordAt(s: bytes)
    requires |s| >= 4
    ensures s[..4] == BigEndian(GetU32(s), 4)
  {
    var a, b, d := s[0] as nat, s[0] as nat * 256 + s[1] as nat, s[0] as nat * 0x1_0000 + s[1] as nat * 256 + s[2] as nat;
    LastByte(a, 0);
    LastByte(b, 1);
    LastByte(d, 2);
    LastByte(GetU32(s), 3);
    hide BigEndian;
    assert GetU32(s) / 0x100 == d && d / 0x100 == b && b / 0x100 == a;
  }

  lemma LastByte(n: nat, width: nat)
    ensures BigEndian(n, width + 1) == BigEndian(n / 0x100, width) + [(n % 0x100) as byte]
    ensures BigEndian(n, 0) == []
  {
  }

  lemma OneFrameChanged(c: Codec, fs: seq<bytes>, k: nat, bad: bytes, chunks: seq<bytes>)
    requires AllFramed(fs) && k < |fs|
    requires |bad| == |fs[k]| && bad[..4] == fs[k][..4]
    requires Concat(chunks) == Concat(fs[k := bad])
    ensures PushAll(c, [], chunks)
         == (Events(c, fs[..k]) + OptionSeq(DecodeFrame(c, bad)) + Events(c, fs[k + 1..]), [])
    ensures PushAll(c, [], [Concat(fs)]).0
         == Events(c, fs[..k]) + OptionSeq(DecodeFrame(c, fs[k])) + Events(c, fs[k + 1..])
  {
    SameLength(fs[k], bad);
    var gs := fs[k := bad];
    FramesDecode(c, gs, chunks);
    Around(c, gs, k);
    assert gs[..k] == fs[..k] && gs[k + 1..] == fs[k + 1..];
    Around(c, fs, k);
    assert Concat([Concat(fs)]) == Concat(fs) + [] == Concat(fs);
    FramesDecode(c, fs, [Concat(fs)]);
  }

  /**
   Corrupting one frame but for its length word changes at most that frame's event, and takes it away when
   either checksum no longer is that of the bytes before it.
   */
  lemma CorruptionIsLocal(c: Codec, fs: seq<bytes>, k: nat, bad: bytes, chunks: seq<bytes>)
    requires AllFramed(fs) && k < |fs|
    requires |bad| == |fs[k]| && bad[..4] == fs[k][..4]
    requires Concat(chunks) == Concat(fs[k := bad])
    ensures PushAll(c, [], chunks)
         == (Events(c, fs[..k]) + OptionSeq(DecodeFrame(c, bad)) + Events(c, fs[k + 1..]), [])
    ensures PushAll(c, [], [Concat(fs)]).0
         == Events(c, fs[..k]) + OptionSeq(DecodeFrame(c, fs[k])) + Events(c, fs[k + 1..])
    ensures bad[8..12] != BigEndian(c.crc(bad[..8]), 4) || bad[|bad| - 4..] != BigEndian(c.crc(bad[..|bad| - 4]), 4)
        ==> PushAll(c, [], chunks) == (Events(c, fs[..k]) + Events(c, fs[k + 1..]), [])
  {
    hide DecodeFrame, Events, Concat, PushAll, BigEndian, GetU32;
    OneFrameChanged(c, fs, k, bad, chunks);
    if DecodeFrame(c, bad).Some? {
      ChecksumsAgree(c, bad);
    } else {
      assert Events(c, fs[..k]) + [] == Events(c, fs[..k]);
    }
  }

  lemma SameLength(f: bytes, bad: bytes)
    requires Framed(f) && |bad| == |f| && bad[..4] == f[..4]
    ensures Framed(bad)
  {
    assert forall i :: 0 <= i < 4 ==> bad[i] == bad[..4][i] == f[..4][i] == f[i];
  }

  lemma Around(c: Codec, fs: seq<bytes>, k: nat)
    requires AllFramed(fs) && k < |fs|
    ensures Events(c, fs) == Events(c, fs[..k]) + OptionSeq(DecodeFrame(c, fs[k])) + Events(c, fs[k + 1..])
  {
    hide DecodeFrame, Framed;
    EventsAppend(c, fs[..k], fs[k..]);
    assert fs[..k] + fs[k..] == fs;
    assert fs[k..][1..] == fs[k + 1..];
  }

  datatype Sent = Sent(eventType: bytes, payload: bytes)

  function Encoded(c: Codec, es: seq<Sent>): seq<bytes> {
    if es == [] then [] else [EncodeEvent(c, es[0].eventType, es[0].payload)] + Encoded(c, es[1..])
  }

  /** What a receiver should see of them: every payload as the decoder's text. */
  function Received(c: Codec, es: seq<Sent>): seq<SseEvent> {
    if es == [] then [] else [SseEvent(Some(es[0].eventType), c.lossy(es[0].payload))] + Received(c, es[1..])
  }

  /** Payloads that are text are received as they are, given a decoder that leaves text alone. */
  lemma {:induction false} TextIsReceived(c: Codec, es: seq<Sent>)
    requires c.Faithful() && forall i :: 0 <= i < |es| ==> ValidUtf8(es[i].payload)
    ensures |Received(c, es)| == |es|
    ensures forall i :: 0 <= i < |es| ==> Received(c, es)[i] == SseEvent(Some(es[i].eventType), es[i].payload)
  {
    hide ValidUtf8;
    if es != [] {
      TextIsReceived(c, es[1..]);
    }
  }

  predicate AllSendable(es: seq<Sent>) {
    es == [] || (Sendable(es[0].eventType, es[0].payload) && AllSendable(es[1..]))
  }

  /** What the encoder can be handed: types that are Rust strings, frames whose length fits its 32-bit word. */
  predicate AllEncodable(es: seq<Sent>) {
    es == [] ||
    (ValidUtf8(es[0].eventType) && FrameLen(es[0].eventType, es[0].payload) < 0x1_0000_0000 && AllEncodable(es[1..]))
  }

  lemma {:induction false} EncodedFrames(c: Codec, es: seq<Sent>)
    requires AllEncodable(es) && AllSendable(es)
    ensures AllFramed(Encoded(c, es)) && Events(c, Encoded(c, es)) == Received(c, es)
  {
    hide DecodeFrame, EncodeEvent, ValidUtf8;
    if es != [] {
      EncodedFrames(c, es[1..]);
      var (t, p) := (es[0].eventType, es[0].payload);
      FrameRoundTripIff(c, t, p);
      EncodedLayout(c, t, p);
      var f := EncodeEvent(c, t, p);
      assert Encoded(c, es) == [f] + Encoded(c, es[1..]);
      assert Encoded(c, es)[1..] == Encoded(c, es[1..]);
    }
  }

  lemma DrainFront(c: Codec, e: Sent, rest: bytes)
    requires FrameLen(e.eventType, e.payload) <= MAX_FRAME
    ensures |EncodeEvent(c, e.eventType, e.payload)| >= MIN_FRAME
    ensures (var f := EncodeEvent(c, e.eventType, e.payload);
             Drain(c, f + rest) == (OptionSeq(DecodeFrame(c, f)) + Drain(c, rest).0, Drain(c, rest).1))
  {
    hide DecodeFrame, EncodeEvent, GetU32, Drain;
    var f := EncodeEvent(c, e.eventType, e.payload);
    EncodedLayout(c, e.eventType, e.payload);
    GetU32Stable(f, rest);
    Halves(f, rest);
    DrainStep(c, f + rest);
  }

  /** However badly it goes, no more events come out of one piece than went in. */
  lemma {:induction false} NoMoreThanSent(c: Codec, es: seq<Sent>)
    requires AllEncodable(es)
    ensures |Drain(c, Concat(Encoded(c, es))).0| <= |es|
  {
    hide DecodeFrame, EncodeEvent, Drain, ValidUtf8;
    if es == [] {
      DrainNothing(c);
    } else {
      var e, rest := es[0], Concat(Encoded(c, es[1..]));
      NoMoreThanSent(c, es[1..]);
      EncodedFirst(c, es);
      if FrameLen(e.eventType, e.payload) <= MAX_FRAME {
        DrainFront(c, e, rest);
      } else {
        OversizeIsLost(c, e.eventType, e.payload, rest);
      }
    }
  }

  lemma EncodedFirst(c: Codec, es: seq<Sent>)
    requires es != []
    ensures Concat(Encoded(c, es)) == EncodeEvent(c, es[0].eventType, es[0].payload) + Concat(Encoded(c, es[1..]))
  {
    hide EncodeEvent;
    var fs := Encoded(c, es);
    assert fs[0] == EncodeEvent(c, es[0].eventType, es[0].payload) && fs[1..] == Encoded(c, es[1..]);
  }

  /** Events that come out of one piece as they went in were all sendable. */
  lemma {:induction false} OnlySendableArrive(c: Codec, es: seq<Sent>)
    requires AllEncodable(es) && Drain(c, Concat(Encoded(c, es))).0 == Received(c, es)
    ensures AllSendable(es)
  {
    hide DecodeFrame, EncodeEvent, Drain, ValidUtf8;
    if es != [] {
      var e, rest := es[0], Concat(Encoded(c, es[1..]));
      EncodedFirst(c, es);
      if FrameLen(e.eventType, e.payload) <= MAX_FRAME {
        DrainFront(c, e, rest);
        FrameRoundTripIff(c, e.eventType, e.payload);
        NoMoreThanSent(c, es[1..]);
        ReceivedLength(c, es[1..]);
        var first := OptionSeq(DecodeFrame(c, EncodeEvent(c, e.eventType, e.payload)));
        var more := Received(c, es[1..]);
        assert |first| == 1;
        assert first[0] == Received(c, es)[0];
        assert (first + Drain(c, rest).0)[1..] == Drain(c, rest).0 && Received(c, es)[1..] == more;
        OnlySendableArrive(c, es[1..]);
      } else {
        OversizeIsLost(c, e.eventType, e.payload, rest);
      }
    }
  }

  lemma {:induction false} ReceivedLength(c: Codec, es: seq<Sent>)
    ensures |Received(c, es)| == |es|
  {
    if es != [] {
      ReceivedLength(c, es[1..]);
    }
  }

  /**
   Which events come back from every chunking of their frames, in order and with nothing left over: exactly
   those all of whose types are under 65536 bytes and whose frames are within 16 MiB.
   */
  lemma EventsRoundTripIff(c: Codec, es: seq<Sent>)
    requires AllEncodable(es)
    ensures (forall chunks: seq<bytes> :: Concat(chunks) == Concat(Encoded(c, es)) ==> PushAll(c, [], chunks) == (Received(c, es), []))
        <==> AllSendable(es)
  {
    hide Encoded, Received, PushAll, Concat, Drain, AllFramed, Events, AllSendable, AllEncodable;
    if AllSendable(es) {
      EncodedFrames(c, es);
      forall chunks: seq<bytes> | Concat(chunks) == Concat(Encoded(c, es))
        ensures PushAll(c, [], chunks) == (Received(c, es), [])
      {
        FramesDecode(c, Encoded(c, es), chunks);
      }
    } else {
      var whole := Concat(Encoded(c, es));
      OneChunk(c, whole);
      if PushAll(c, [], [whole]) == (Received(c, es), []) {
        OnlySendableArrive(c, es);
      }
    }
  }

  lemma OneChunk(c: Codec, s: bytes)
    ensures Concat([s]) == s && PushAll(c, [], [s]) == Drain(c, s)
  {
    hide Drain;
    assert [s][1..] == [] && s + [] == s && [] + s == s;
    var (events, rest) := Drain(c, s);
    assert PushAll(c, rest, []) == ([], rest) && events + [] == events;
  }
}
