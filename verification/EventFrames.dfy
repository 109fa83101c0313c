/**
 The event-stream frame as a grammar: what a frame is made of, written out field by field, and that the decoder
 of `eventstream.rs` takes exactly such frames.
 */
module EventFrames {
  import opened Wrappers
  import opened Bytes
  import opened SseShared
  import opened EventStream

  /** A header: a name and a string. */
  datatype Field = Field(name: bytes, value: bytes)

  predicate IsField(f: Field) {
    |f.name| < 256 && |f.value| < 65536 && ValidUtf8(f.name) && ValidUtf8(f.value)
  }

  predicate AllFields(fs: seq<Field>) {
    fs == [] || (IsField(fs[0]) && AllFields(fs[1..]))
  }

  /** Its name after one length byte, the kind of a string, its value after two length bytes. */
  function FieldText(f: Field): bytes {
    BigEndian(|f.name|, 1) + f.name + [7] + BigEndian(|f.value|, 2) + f.value
  }

  function FieldsText(fs: seq<Field>): bytes {
    if fs == [] then [] else FieldText(fs[0]) + FieldsText(fs[1..])
  }

  /** The last value under a name. */
  function LastOf(fs: seq<Field>, name: bytes): Option<bytes> {
    if fs == [] then None
    else if fs[|fs| - 1].name == name then Some(fs[|fs| - 1].value)
    else LastOf(fs[..|fs| - 1], name)
  }

  /** Both lengths and their checksum, the headers, the payload, and the checksum of all that. */
  function FrameText(c: Codec, fs: seq<Field>, payload: bytes): bytes {
    var headers := FieldsText(fs);
    var lengths := BigEndian(12 + |headers| + |payload| + 4, 4) + BigEndian(|headers|, 4);
    var body := lengths + BigEndian(c.crc(lengths), 4) + headers + payload;
    body + BigEndian(c.crc(body), 4)
  }

  /** What a frame says: an exception whatever its type, anything else by its type. */
  function FrameEvent(c: Codec, fs: seq<Field>, payload: bytes): SseEvent {
    SseEvent(if LastOf(fs, FromText(":message-type")) == Some(FromText("exception")) then Some(FromText("exception"))
             else LastOf(fs, FromText(":event-type")),
             c.lossy(payload))
  }

  // ----- words

  lemma WordIs(n: nat)
    requires n < 0x1_0000_0000
    ensures BigEndian(n, 4) == PutU32(n)
    ensures n < 0x1_0000 ==> BigEndian(n, 2) == PutU16(n)
    ensures n < 0x100 ==> BigEndian(n, 1) == [n as byte]
  {
    hide BigEndian;
    var a, b, c := n / 0x100, n / 0x1_0000, n / 0x100_0000;
    assert a / 0x100 == b && b / 0x100 == c;
    LastByte(n, 0);
    LastByte(n, 1);
    LastByte(n, 3);
    LastByte(a, 0);
    LastByte(a, 2);
    LastByte(b, 1);
    LastByte(c, 0);
  }

  lemma WordOf(s: bytes)
    requires |s| >= 4
    ensures GetU32(s) < 0x1_0000_0000 && s[..4] == PutU32(GetU32(s))
  {
    hide BigEndian, PutU32, GetU32;
    WordAt(s);
    WordIs(GetU32(s));
  }

  lemma HalfOf(s: bytes)
    requires |s| >= 2
    ensures GetU16(s) < 0x1_0000 && s[..2] == PutU16(GetU16(s))
  {
  }

  /** The names the decoder looks for and the encoder writes. */
  lemma Names()
    ensures EVENT_TYPE == FromText(":event-type") && MESSAGE_TYPE == FromText(":message-type")
    ensures CONTENT_TYPE == FromText(":content-type") && JSON_VALUE == FromText("application/json")
    ensures EVENT_VALUE == FromText("event") && EXCEPTION == FromText("exception")
    ensures EVENT_TYPE != MESSAGE_TYPE
  {
    assert |EVENT_TYPE| != |MESSAGE_TYPE|;
  }

  // ----- headers

  lemma FieldIs(f: Field)
    requires IsField(f)
    ensures FieldText(f) == Header(f.name, f.value)
  {
    WordIs(|f.name|);
    WordIs(|f.value|);
  }

  function Noted(fs: seq<Field>): Headers {
    Headers(LastOf(fs, EVENT_TYPE), LastOf(fs, MESSAGE_TYPE))
  }

  lemma {:induction false} NotedMore(fs: seq<Field>, f: Field)
    ensures Noted(fs + [f]) == Note(Noted(fs), f.name, f.value)
  {
    Names();
    assert (fs + [f])[..|fs|] == fs;
  }

  /** Headers written one after another are read as the last value under each name. */
  lemma {:induction false} FieldsRead(before: seq<Field>, fs: seq<Field>)
    requires AllFields(fs)
    ensures ReadHeaders(FieldsText(fs), Noted(before)) == Some(Noted(before + fs))
    decreases fs
  {
    hide ReadHeaders, Header, FieldText, IsField, Noted;
    if fs == [] {
      ReadHeadersEnd(Noted(before));
      assert before + fs == before;
    } else {
      var f := fs[0];
      FieldIs(f);
      FieldShort(f);
      HeadersRead(f.name, f.value, FieldsText(fs[1..]), Noted(before));
      NotedMore(before, f);
      FieldsRead(before + [f], fs[1..]);
      assert (before + [f]) + fs[1..] == before + fs;
    }
  }

  lemma FieldShort(f: Field)
    requires IsField(f)
    ensures |f.name| < 256 && |f.value| < 65536 && ValidUtf8(f.name) && ValidUtf8(f.value)
  {
  }

  /** The header that headers begin with. */
  lemma FirstField(s: bytes) returns (f: Field)
    requires s != [] && OneHeader(s).Some?
    ensures IsField(f) && OneHeader(s) == Some((f.name, f.value, |FieldText(f)|))
    ensures FieldText(f) <= s
  {
    var r := HeaderLayout(s);
    var (name, value, n) := r;
    f := Field(name, value);
    hide ValidUtf8, OneHeader, PutU16;
    FieldIs(f);
    assert s[..n] == Header(name, value);
  }

  lemma HeaderLayout(s: bytes) returns (r: (bytes, bytes, nat))
    requires s != [] && OneHeader(s).Some?
    ensures OneHeader(s) == Some(r)
    ensures (var (name, value, n) := r;
             var k := |name|;
             && k < 256 && |value| < 65536 && ValidUtf8(name) && ValidUtf8(value) && n == 4 + k + |value| <= |s|
             && s[..n] == [k as byte] + name + [STRING_KIND] + PutU16(|value|) + value)
  {
    hide ValidUtf8, PutU16, GetU16;
    r := OneHeader(s).value;
    var (name, value, n) := r;
    var k := |name|;
    HalfOf(s[2 + k..]);
    assert s[2 + k..][..2] == s[2 + k..4 + k];
    assert s[..n] == [s[0]] + s[1..1 + k] + [s[1 + k]] + s[2 + k..4 + k] + s[4 + k..n];
  }

  lemma {:induction false} HeadersAreFields(s: bytes, h: Headers) returns (fs: seq<Field>)
    requires ReadHeaders(s, h).Some?
    ensures AllFields(fs) && FieldsText(fs) == s
    decreases |s|
  {
    hide OneHeader, FieldText, IsField;
    fs := [];
    if s != [] {
      var f := FirstField(s);
      var (name, value, n) := OneHeader(s).value;
      var more := HeadersAreFields(s[n..], Note(h, name, value));
      fs := [f] + more;
      assert fs[1..] == more;
      assert s == FieldText(f) + s[n..];
    }
  }

  // ----- frames

  /** The parts of a frame, by position. */
  lemma FrameLayout(c: Codec, fs: seq<Field>, payload: bytes)
    requires |FrameText(c, fs, payload)| <= MAX_FRAME
    ensures (var f, headers := FrameText(c, fs, payload), FieldsText(fs);
             var end := |f| - 4;
             && |f| == PRELUDE_LEN + |headers| + |payload| + 4 && GetU32(f) == |f|
             && GetU32(f[4..]) == |headers|
             && GetU32(f[8..]) == c.crc(f[..8])
             && f[PRELUDE_LEN..PRELUDE_LEN + |headers|] == headers
             && f[PRELUDE_LEN + |headers|..end] == payload
             && GetU32(f[end..]) == c.crc(f[..end]))
  {
    hide FieldsText, PutU32, GetU32, BigEndian;
    var headers := FieldsText(fs);
    var total := PRELUDE_LEN + |headers| + |payload| + 4;
    WordSize(total);
    WordSize(|headers|);
    var lengths := BigEndian(total, 4) + BigEndian(|headers|, 4);
    WordSize(c.crc(lengths));
    var body := lengths + BigEndian(c.crc(lengths), 4) + headers + payload;
    WordSize(c.crc(body));
    var f := FrameText(c, fs, payload);
    assert |f| == total;
    WordIs(total);
    WordIs(|headers|);
    WordIs(c.crc(lengths));
    WordIs(c.crc(body));
    var last := PutU32(c.crc(body));
    var tail := headers + (payload + last);
    PreludeReads(total, |headers|, c.crc(lengths), tail);
    Assoc3(lengths + PutU32(c.crc(lengths)), headers, payload, last);
    Halves(body, last);
    U32RoundTrip(c.crc(body), []);
    assert last + [] == last;
    Middle(f, PRELUDE_LEN, headers, payload, last);
  }

  lemma {:induction false} WordSize(n: nat)
    ensures |BigEndian(n, 4)| == 4
  {
    assert |BigEndian(n / 256 / 256 / 256, 1)| == 1;
    assert |BigEndian(n / 256 / 256, 2)| == 2;
    assert |BigEndian(n / 256, 3)| == 3;
  }

  /** A frame written out is read as what it says. */
  lemma FrameIsRead(c: Codec, fs: seq<Field>, payload: bytes)
    requires AllFields(fs) && |FrameText(c, fs, payload)| <= MAX_FRAME
    ensures Framed(FrameText(c, fs, payload))
    ensures DecodeFrame(c, FrameText(c, fs, payload)) == Some(FrameEvent(c, fs, payload))
  {
    hide FrameText, ReadHeaders, GetU32, FieldsText;
    FrameLayout(c, fs, payload);
    Names();
    assert Noted([]) == Headers(None, None);
    assert [] + fs == fs;
    FieldsRead([], fs);
  }

  /** A frame that yields an event is one written out. */
  lemma ReadIsFrame(c: Codec, f: bytes) returns (fs: seq<Field>, payload: bytes)
    requires Framed(f) && DecodeFrame(c, f).Some?
    ensures AllFields(fs) && f == FrameText(c, fs, payload)
  {
    hide ReadHeaders, GetU32, BigEndian, FieldsText, FromText;
    var k := GetU32(f[4..]);
    var end := |f| - 4;
    fs := HeadersAreFields(f[12..12 + k], Headers(None, None));
    payload := f[12 + k..end];
    WordOf(f);
    WordOf(f[4..]);
    WordOf(f[8..]);
    WordOf(f[end..]);
    WordIs(|f|);
    WordIs(k);
    WordIs(c.crc(f[..8]));
    WordIs(c.crc(f[..end]));
    hide PutU32;
    assert f[..8] == f[..4] + f[4..][..4];
    assert f[8..12] == f[8..][..4];
    assert f[..end] == f[..8] + f[8..12] + f[12..12 + k] + payload;
    assert f[end..] == f[end..][..4];
    assert f == f[..end] + f[end..];
  }

  /**
   The frames that yield an event, and the event: exactly those that some headers and a payload spell, both
   checksums being those of the bytes before them.
   */
  lemma FrameYieldsIff(c: Codec, f: bytes, e: SseEvent)
    requires Framed(f)
    ensures DecodeFrame(c, f) == Some(e) <==>
              exists fs, payload :: AllFields(fs) && f == FrameText(c, fs, payload) && e == FrameEvent(c, fs, payload)
  {
    hide DecodeFrame, FrameText, FrameEvent, AllFields;
    forall fs, payload | AllFields(fs) && f == FrameText(c, fs, payload)
      ensures DecodeFrame(c, f) == Some(FrameEvent(c, fs, payload))
    {
      FrameIsRead(c, fs, payload);
    }
    if DecodeFrame(c, f) == Some(e) {
      var fs, payload := ReadIsFrame(c, f);
      FrameIsRead(c, fs, payload);
    }
  }

  /** An exception surfaces as the event `exception`, whatever its type and wherever the header stands. */
  lemma ExceptionSurfaces(c: Codec, before: seq<Field>, after: seq<Field>, payload: bytes)
    requires AllFields(before + [Field(FromText(":message-type"), FromText("exception"))] + after)
    requires forall k :: 0 <= k < |after| ==> after[k].name != FromText(":message-type")
    requires |FrameText(c, before + [Field(FromText(":message-type"), FromText("exception"))] + after, payload)| <= MAX_FRAME
    ensures (var f := FrameText(c, before + [Field(FromText(":message-type"), FromText("exception"))] + after, payload);
             Framed(f) && DecodeFrame(c, f) == Some(SseEvent(Some(FromText("exception")), c.lossy(payload))))
  {
    hide FrameText, DecodeFrame;
    var x := Field(FromText(":message-type"), FromText("exception"));
    FrameIsRead(c, before + [x] + after, payload);
    LastStays(before + [x], after, x.name);
    assert (before + [x])[|before|] == x;
  }

  lemma {:induction false} LastStays(fs: seq<Field>, after: seq<Field>, name: bytes)
    requires forall k :: 0 <= k < |after| ==> after[k].name != name
    ensures LastOf(fs + after, name) == LastOf(fs, name)
  {
    if after == [] {
      assert fs + after == fs;
    } else {
      LastStays(fs, after[..|after| - 1], name);
      assert (fs + after)[..|fs + after| - 1] == fs + after[..|after| - 1];
    }
  }

  /** An encoded event is the frame of its type, of the kind `event` and of JSON content. */
  lemma EncodedIsFrame(c: Codec, eventType: bytes, payload: bytes)
    requires ValidUtf8(eventType) && Sendable(eventType, payload)
    ensures (var fs := [Field(FromText(":event-type"), eventType), Field(FromText(":message-type"), FromText("event")),
                        Field(FromText(":content-type"), FromText("application/json"))];
             AllFields(fs) && EncodeEvent(c, eventType, payload) == FrameText(c, fs, payload))
  {
    hide FrameText, EncodeEvent, FieldsText, EventHeaders, AllFields;
    EventFields(eventType);
    Names();
    var fs := [Field(EVENT_TYPE, eventType), Field(MESSAGE_TYPE, EVENT_VALUE), Field(CONTENT_TYPE, JSON_VALUE)];
    SameFrame(c, eventType, fs, payload);
  }

  lemma EventFields(eventType: bytes)
    requires ValidUtf8(eventType) && |eventType| < 0x1_0000
    ensures (var fs := [Field(EVENT_TYPE, eventType), Field(MESSAGE_TYPE, EVENT_VALUE), Field(CONTENT_TYPE, JSON_VALUE)];
             AllFields(fs) && FieldsText(fs) == EventHeaders(eventType))
  {
    hide ValidUtf8, PutU32, Header, FieldText, IsField, FieldsText, AllFields;
    var a, b, d := Field(EVENT_TYPE, eventType), Field(MESSAGE_TYPE, EVENT_VALUE), Field(CONTENT_TYPE, JSON_VALUE);
    AreFields(eventType);
    FieldIs(a);
    FieldIs(b);
    FieldIs(d);
    ThreeFields(a, b, d);
  }

  lemma AreFields(eventType: bytes)
    requires ValidUtf8(eventType) && |eventType| < 0x1_0000
    ensures IsField(Field(EVENT_TYPE, eventType)) && IsField(Field(MESSAGE_TYPE, EVENT_VALUE))
    ensures IsField(Field(CONTENT_TYPE, JSON_VALUE))
  {
    hide ValidUtf8;
    NamesAreText();
    ValuesAreText();
  }

  lemma SameFrame(c: Codec, eventType: bytes, fs: seq<Field>, payload: bytes)
    requires FieldsText(fs) == EventHeaders(eventType) && FrameLen(eventType, payload) <= MAX_FRAME
    ensures EncodeEvent(c, eventType, payload) == FrameText(c, fs, payload)
  {
    hide FieldsText, EventHeaders, PutU32, BigEndian;
    var headers := EventHeaders(eventType);
    var lengths := PutU32(FrameLen(eventType, payload)) + PutU32(|headers|);
    WordIs(FrameLen(eventType, payload));
    WordIs(|headers|);
    WordIs(c.crc(lengths));
    WordIs(c.crc(lengths + PutU32(c.crc(lengths)) + headers + payload));
  }

  lemma ThreeFields(a: Field, b: Field, d: Field)
    ensures FieldsText([a, b, d]) == FieldText(a) + (FieldText(b) + FieldText(d))
    ensures IsField(a) && IsField(b) && IsField(d) ==> AllFields([a, b, d])
  {
    hide FieldText, IsField;
    assert [a, b, d][1..] == [b, d] && [b, d][1..] == [d] && [d][1..] == [];
    assert FieldsText([d]) == FieldText(d) + [] == FieldText(d);
    assert FieldsText([b, d]) == FieldText(b) + FieldText(d);
    assert AllFields([]);
    assert AllFields([d]) == IsField(d);
    assert AllFields([b, d]) == (IsField(b) && IsField(d));
  }
}
