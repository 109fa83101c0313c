/**
 What a JSON string says (section 7 of RFC 8259, section 3 of RFC 3629): characters written as themselves, as one
 of eight short escapes, as four hex digits or as two such units, and the scalar values they stand for.
 Nothing here is computed the way the reader computes it.
 */
module JsonMeaning {
  import opened Wrappers
  import opened Bytes
  import opened JsonStrings

  // ----- UTF-8, by the bits of its bytes

  /** The scalar value that a whole byte sequence encodes in its shortest form. */
  function CodePoint(x: bytes): Option<nat> {
    if |x| == 1 && x[0] < 0x80 then Some(x[0] as nat)
    else if |x| == 2 && Leads(x[0], 0xC0, 0x20) && Trails(x[1]) then
      InRange((x[0] as int - 0xC0) * 0x40 + Low(x[1]), 0x80, 0x800)
    else if |x| == 3 && Leads(x[0], 0xE0, 0x10) && Trails(x[1]) && Trails(x[2]) then
      InRange((x[0] as int - 0xE0) * 0x1000 + Low(x[1]) * 0x40 + Low(x[2]), 0x800, 0x10000)
    else if |x| == 4 && Leads(x[0], 0xF0, 0x08) && Trails(x[1]) && Trails(x[2]) && Trails(x[3]) then
      InRange((x[0] as int - 0xF0) * 0x40000 + Low(x[1]) * 0x1000 + Low(x[2]) * 0x40 + Low(x[3]), 0x10000, 0x110000)
    else None
  }

  predicate Leads(b: byte, from: nat, count: nat) {
    from <= b as int < from + count
  }

  predicate Trails(b: byte) {
    b as int / 0x40 == 2
  }

  function Low(b: byte): nat {
    b as int % 0x40
  }

  /** A value in its range and no surrogate. */
  function InRange(v: int, low: nat, high: nat): Option<nat> {
    if low <= v < high && !(0xD800 <= v <= 0xDFFF) then Some(v) else None
  }

  /** The length of the one sequence that `s` begins with. */
  function FirstLength(s: bytes): (n: nat)
    ensures n <= |s|
  {
    if |s| >= 1 && CodePoint(s[..1]).Some? then 1
    else if |s| >= 2 && CodePoint(s[..2]).Some? then 2
    else if |s| >= 3 && CodePoint(s[..3]).Some? then 3
    else if |s| >= 4 && CodePoint(s[..4]).Some? then 4
    else 0
  }

  /** The scalar values of a text; `None` when it is not UTF-8. */
  function Scalars(s: bytes): Option<seq<nat>> {
    if s == [] then Some([])
    else if FirstLength(s) == 0 then None
    else
      var rest :- Scalars(s[FirstLength(s)..]);
      Some([CodePoint(s[..FirstLength(s)]).GetOr(0)] + rest)
  }

  // ----- the characters of a string

  datatype ShortEscape = QuotationMark | ReverseSolidus | Solidus | Backspace | FormFeed | LineFeed | CarriageReturn | Tab

  /** The letter after the backslash, and the character it stands for. */
  function ShortPair(e: ShortEscape): (byte, nat) {
    match e
    case QuotationMark => (0x22, 0x22)
    case ReverseSolidus => (0x5C, 0x5C)
    case Solidus => (0x2F, 0x2F)
    case Backspace => (0x62, 0x08)
    case FormFeed => (0x66, 0x0C)
    case LineFeed => (0x6E, 0x0A)
    case CarriageReturn => (0x72, 0x0D)
    case Tab => (0x74, 0x09)
  }

  const LOWER_HEX: bytes :=
    [0x30, 0x31, 0x32, 0x33, 0x34, 0x35, 0x36, 0x37, 0x38, 0x39, 0x61, 0x62, 0x63, 0x64, 0x65, 0x66]
  const UPPER_HEX: bytes :=
    [0x30, 0x31, 0x32, 0x33, 0x34, 0x35, 0x36, 0x37, 0x38, 0x39, 0x41, 0x42, 0x43, 0x44, 0x45, 0x46]

  datatype Hex = Hex(value: nat, upper: bool)

  datatype CodeUnit = CodeUnit(a: Hex, b: Hex, c: Hex, d: Hex) {
    predicate Proper() {
      a.value < 16 && b.value < 16 && c.value < 16 && d.value < 16
    }

    function Number(): nat {
      ((a.value * 16 + b.value) * 16 + c.value) * 16 + d.value
    }

    function Text(): bytes
      requires Proper()
    {
      [0x5C, 0x75, HexText(a), HexText(b), HexText(c), HexText(d)]
    }
  }

  function HexText(h: Hex): byte
    requires h.value < 16
  {
    if h.upper then UPPER_HEX[h.value] else LOWER_HEX[h.value]
  }

  /** One character, however it is written. */
  datatype Char =
    | Plain(utf8: bytes)
    | Short(escape: ShortEscape)
    | Unit(unit: CodeUnit)
    | Pair(high: CodeUnit, low: CodeUnit)

  predicate Proper(c: Char) {
    match c
    case Plain(x) =>
      CodePoint(x).Some? && CodePoint(x).value >= 0x20 && CodePoint(x).value != 0x22 && CodePoint(x).value != 0x5C
    case Short(_) => true
    case Unit(u) => u.Proper() && !(0xD800 <= u.Number() <= 0xDFFF)
    case Pair(h, l) => h.Proper() && l.Proper() && 0xD800 <= h.Number() <= 0xDBFF && 0xDC00 <= l.Number() <= 0xDFFF
  }

  function Spelling(c: Char): bytes
    requires Proper(c)
  {
    match c
    case Plain(x) => x
    case Short(e) => [0x5C, ShortPair(e).0]
    case Unit(u) => u.Text()
    case Pair(h, l) => h.Text() + l.Text()
  }

  /** The scalar value a character stands for. */
  function Meaning(c: Char): nat
    requires Proper(c)
  {
    match c
    case Plain(x) => CodePoint(x).value
    case Short(e) => ShortPair(e).1
    case Unit(u) => u.Number()
    case Pair(h, l) => 0x10000 + (h.Number() - 0xD800) * 0x400 + (l.Number() - 0xDC00)
  }

  predicate AllProper(cs: seq<Char>) {
    cs == [] || (Proper(cs[0]) && AllProper(cs[1..]))
  }

  function Spell(cs: seq<Char>): bytes
    requires AllProper(cs)
  {
    if cs == [] then [] else Spelling(cs[0]) + Spell(cs[1..])
  }

  function Mean(cs: seq<Char>): seq<nat>
    requires AllProper(cs)
  {
    if cs == [] then [] else [Meaning(cs[0])] + Mean(cs[1..])
  }

  /** The string body spells characters whose scalar values are those of the text. */
  ghost predicate Says(body: bytes, text: bytes) {
    exists cs :: AllProper(cs) && Spell(cs) == body && Scalars(text) == Some(Mean(cs))
  }

  ghost predicate Readable(body: bytes) {
    exists text :: Says(body, text)
  }

  // ----- UTF-8 as the reader checks and writes it

  lemma EncodedIs(cp: nat)
    requires cp < 0x110000 && !(0xD800 <= cp <= 0xDFFF)
    ensures CodePoint(EncodeUtf8(cp)) == Some(cp) && EncodeUtf8(cp) != []
  {
    if cp < 0x800 {
    } else if cp < 0x10000 {
      ThreeEncoded(cp);
    } else {
      FourEncoded(cp);
    }
  }

  lemma ThreeEncoded(cp: nat)
    requires 0x800 <= cp < 0x10000 && !(0xD800 <= cp <= 0xDFFF)
    ensures CodePoint(EncodeUtf8(cp)) == Some(cp)
  {
    var x := EncodeUtf8(cp);
    assert Low(x[1]) == cp / 64 % 64 && Low(x[2]) == cp % 64;
    assert cp / 64 / 64 == cp / 4096;
  }

  lemma FourEncoded(cp: nat)
    requires 0x10000 <= cp < 0x110000
    ensures CodePoint(EncodeUtf8(cp)) == Some(cp)
  {
    var x := EncodeUtf8(cp);
    assert Low(x[1]) == cp / 4096 % 64 && Low(x[2]) == cp / 64 % 64 && Low(x[3]) == cp % 64;
    assert cp / 64 / 64 == cp / 4096 && cp / 4096 / 64 == cp / 262144;
  }

  lemma LeadIs(s: bytes)
    ensures FirstLength(s) == Utf8Lead(s)
  {
  }

  /** The check for UTF-8 accepts exactly the texts that have scalar values. */
  lemma {:induction false} Utf8Iff(s: bytes)
    ensures ValidUtf8(s) <==> Scalars(s).Some?
  {
    hide Utf8Lead, FirstLength, CodePoint;
    LeadIs(s);
    if s != [] && Utf8Lead(s) > 0 {
      Utf8Iff(s[Utf8Lead(s)..]);
    }
  }

  /** A sequence that encodes a value is the first one of every text it begins. */
  lemma FirstIs(x: bytes, rest: bytes)
    requires CodePoint(x).Some?
    ensures FirstLength(x + rest) == |x| > 0 && (x + rest)[..|x|] == x && (x + rest)[|x|..] == rest
  {
    var s := x + rest;
    assert s[..|x|] == x;
    assert |x| >= 1 ==> s[..1] == x[..1];
  }

  lemma ScalarsFirst(x: bytes, rest: bytes)
    requires CodePoint(x).Some?
    ensures Scalars(x + rest).Some? <==> Scalars(rest).Some?
    ensures Scalars(rest).Some? ==> Scalars(x + rest) == Some([CodePoint(x).value] + Scalars(rest).value)
  {
    hide CodePoint, FirstLength;
    FirstIs(x, rest);
  }

  /** A value has one encoding. */
  lemma SameCode(x: bytes, y: bytes)
    requires CodePoint(x).Some? && CodePoint(x) == CodePoint(y)
    ensures x == y
  {
    hide CodePoint;
    CodeLength(x);
    CodeLength(y);
    SameDigits(x, y);
  }

  lemma CodeLength(x: bytes)
    requires CodePoint(x).Some?
    ensures (var v := CodePoint(x).value; |x| == if v < 0x80 then 1 else if v < 0x800 then 2 else if v < 0x10000 then 3 else 4)
  {
  }

  /** The last six bits of a value are its last byte's, and so on. */
  lemma SameDigits(x: bytes, y: bytes)
    requires CodePoint(x).Some? && CodePoint(x) == CodePoint(y) && |x| == |y|
    ensures x == y
  {
    if |x| == 4 {
      FourDigits(x);
      FourDigits(y);
    } else if |x| == 3 {
      ThreeDigits(x);
      ThreeDigits(y);
    }
  }

  lemma ThreeDigits(x: bytes)
    requires CodePoint(x).Some? && |x| == 3
    ensures (var v := CodePoint(x).value;
             x[2] as int == 0x80 + v % 64 && x[1] as int == 0x80 + v / 64 % 64 && x[0] as int == 0xE0 + v / 4096)
  {
    var v := CodePoint(x).value;
    assert v / 64 == (x[0] as int - 0xE0) * 64 + Low(x[1]);
    assert v / 64 / 64 == v / 4096;
  }

  lemma FourDigits(x: bytes)
    requires CodePoint(x).Some? && |x| == 4
    ensures (var v := CodePoint(x).value;
             && x[3] as int == 0x80 + v % 64 && x[2] as int == 0x80 + v / 64 % 64
             && x[1] as int == 0x80 + v / 4096 % 64 && x[0] as int == 0xF0 + v / 262144)
  {
    var v := CodePoint(x).value;
    assert v / 64 == (x[0] as int - 0xF0) * 4096 + Low(x[1]) * 64 + Low(x[2]);
    assert v / 64 / 64 == v / 4096 == (x[0] as int - 0xF0) * 64 + Low(x[1]);
    assert v / 4096 / 64 == v / 262144;
  }

  /** Scalar values have one text. */
  lemma {:induction false} SameScalars(s: bytes, t: bytes)
    requires Scalars(s).Some? && Scalars(s) == Scalars(t)
    ensures s == t
  {
    hide CodePoint;
    if s != [] && t != [] {
      var m, n := FirstLength(s), FirstLength(t);
      var x, y := Scalars(s[m..]).value, Scalars(t[n..]).value;
      assert ([CodePoint(s[..m]).GetOr(0)] + x)[1..] == x && ([CodePoint(t[..n]).GetOr(0)] + y)[1..] == y;
      assert Scalars(s).value[0] == Scalars(t).value[0];
      SameCode(s[..m], t[..n]);
      SameScalars(s[m..], t[n..]);
      assert s == s[..m] + s[m..] && t == t[..n] + t[n..];
    }
  }

  // ----- every spelling is read as what it says

  lemma HexIs(h: Hex)
    requires h.value < 16
    ensures HexDigit(HexText(h)) == Some(h.value)
  {
  }

  lemma UnitIs(u: CodeUnit, rest: bytes)
    requires u.Proper()
    ensures UnicodeEscape(u.Text() + rest) == Some(u.Number()) && SimpleEscape(u.Text()[1]).None?
    ensures (u.Text() + rest)[6..] == rest
  {
    hide HexDigit, HexText;
    HexIs(u.a);
    HexIs(u.b);
    HexIs(u.c);
    HexIs(u.d);
  }

  /** The UTF-8 of a character's meaning. */
  function Utf8Of(c: Char): bytes
    requires Proper(c)
  {
    match c
    case Plain(x) => x
    case Short(_) => EncodeUtf8(Meaning(c))
    case Unit(_) => EncodeUtf8(Meaning(c))
    case Pair(_, _) => EncodeUtf8(Meaning(c))
  }

  lemma Utf8OfIs(c: Char)
    requires Proper(c)
    ensures CodePoint(Utf8Of(c)) == Some(Meaning(c))
  {
    hide CodePoint, EncodeUtf8;
    if !c.Plain? { EncodedIs(Meaning(c)); }
  }

  lemma ShortIs(e: ShortEscape)
    ensures (var (letter, v) := ShortPair(e); SimpleEscape(letter).Some? && EncodeUtf8(v) == [SimpleEscape(letter).value])
  {
  }

  lemma PrependTwice(a: bytes, b: bytes, r: Option<bytes>)
    ensures Prepend(a, Prepend(b, r)) == Prepend(a + b, r)
  {
    if r.Some? { assert a + (b + r.value) == (a + b) + r.value; }
  }

  lemma {:induction false} PlainBytes(x: bytes, rest: bytes)
    requires forall i :: 0 <= i < |x| ==> x[i] >= 0x20 && x[i] != QUOTE && x[i] != BACKSLASH
    ensures Unescape(x + rest) == Prepend(x, Unescape(rest))
  {
    var s := x + rest;
    if x == [] {
      assert s == rest;
      assert Unescape(rest).Some? ==> [] + Unescape(rest).value == Unescape(rest).value;
    } else {
      PlainBytes(x[1..], rest);
      assert s[1..] == x[1..] + rest;
      PrependTwice([x[0]], x[1..], Unescape(rest));
      assert [x[0]] + x[1..] == x;
    }
  }

  lemma PlainIsPlain(x: bytes)
    requires Proper(Plain(x))
    ensures forall i :: 0 <= i < |x| ==> x[i] >= 0x20 && x[i] != QUOTE && x[i] != BACKSLASH
  {
  }

  lemma UnitDecodes(u: CodeUnit, rest: bytes)
    requires Proper(Unit(u))
    ensures Unescape(u.Text() + rest) == Prepend(EncodeUtf8(u.Number()), Unescape(rest))
  {
    hide EncodeUtf8, UnicodeEscape, SimpleEscape;
    UnitIs(u, rest);
  }

  lemma PairDecodes(h: CodeUnit, l: CodeUnit, rest: bytes)
    requires Proper(Pair(h, l))
    ensures Unescape(h.Text() + l.Text() + rest) == Prepend(EncodeUtf8(Meaning(Pair(h, l))), Unescape(rest))
  {
    hide EncodeUtf8, UnicodeEscape, SimpleEscape;
    UnitIs(h, l.Text() + rest);
    UnitIs(l, rest);
    var s := h.Text() + l.Text() + rest;
    assert s == h.Text() + (l.Text() + rest);
    assert s[12..] == rest;
  }

  lemma CharDecodes(c: Char, rest: bytes)
    requires Proper(c)
    ensures Unescape(Spelling(c) + rest) == Prepend(Utf8Of(c), Unescape(rest))
  {
    hide Unescape, EncodeUtf8, SimpleEscape, CodePoint;
    match c
    case Plain(x) =>
      PlainIsPlain(x);
      PlainBytes(x, rest);
    case Short(e) => ShortDecodes(e, rest);
    case Unit(u) => UnitDecodes(u, rest);
    case Pair(h, l) => PairDecodes(h, l, rest);
  }

  lemma ShortDecodes(e: ShortEscape, rest: bytes)
    ensures Unescape(Spelling(Short(e)) + rest) == Prepend(EncodeUtf8(ShortPair(e).1), Unescape(rest))
  {
    hide EncodeUtf8, SimpleEscape;
    ShortIs(e);
    var s := Spelling(Short(e)) + rest;
    assert s[2..] == rest;
  }

  function Utf8OfAll(cs: seq<Char>): bytes
    requires AllProper(cs)
  {
    if cs == [] then [] else Utf8Of(cs[0]) + Utf8OfAll(cs[1..])
  }

  lemma {:induction false} SpelledDecodes(cs: seq<Char>)
    requires AllProper(cs)
    ensures Unescape(Spell(cs)) == Some(Utf8OfAll(cs))
    ensures Scalars(Utf8OfAll(cs)) == Some(Mean(cs))
  {
    hide Unescape, Utf8Of, Spelling, Proper, Meaning, CodePoint, Scalars;
    if cs == [] {
      NothingDecodes();
    } else {
      SpelledDecodes(cs[1..]);
      CharDecodes(cs[0], Spell(cs[1..]));
      Utf8OfIs(cs[0]);
      ScalarsFirst(Utf8Of(cs[0]), Utf8OfAll(cs[1..]));
    }
  }

  lemma NothingDecodes()
    ensures Unescape([]) == Some([]) && Scalars([]) == Some([])
  {
  }

  // ----- and what is read is said by some spelling

  function HexOf(c: byte): Hex
    requires HexDigit(c).Some?
  {
    Hex(HexDigit(c).value, 0x41 <= c <= 0x46)
  }

  lemma HexOfIs(c: byte)
    requires HexDigit(c).Some?
    ensures HexOf(c).value < 16 && HexText(HexOf(c)) == c
  {
  }

  /** The unit that a six-byte escape writes. */
  lemma UnitOf(s: bytes) returns (u: CodeUnit)
    requires UnicodeEscape(s).Some?
    ensures u.Proper() && u.Number() == UnicodeEscape(s).value && s == u.Text() + s[6..]
  {
    hide HexDigit, HexText, HexOf;
    HexOfIs(s[2]);
    HexOfIs(s[3]);
    HexOfIs(s[4]);
    HexOfIs(s[5]);
    HexOfValue(s[2]);
    HexOfValue(s[3]);
    HexOfValue(s[4]);
    HexOfValue(s[5]);
    u := CodeUnit(HexOf(s[2]), HexOf(s[3]), HexOf(s[4]), HexOf(s[5]));
    assert s[..6] == u.Text();
  }

  lemma HexOfValue(c: byte)
    requires HexDigit(c).Some?
    ensures HexOf(c).value == HexDigit(c).value
  {
  }

  lemma ShortOf(letter: byte) returns (e: ShortEscape)
    requires SimpleEscape(letter).Some?
    ensures ShortPair(e).0 == letter
  {
    e := if letter == 0x22 then QuotationMark else if letter == 0x5C then ReverseSolidus
         else if letter == 0x2F then Solidus else if letter == 0x62 then Backspace
         else if letter == 0x66 then FormFeed else if letter == 0x6E then LineFeed
         else if letter == 0x72 then CarriageReturn else Tab;
  }

  /** A byte inside a sequence can only have been written as itself. */
  lemma TrailWritten(body: bytes)
    requires Unescape(body).Some? && Unescape(body).value != [] && Trails(Unescape(body).value[0])
    ensures body != [] && body[0] == Unescape(body).value[0]
    ensures Unescape(body[1..]) == Some(Unescape(body).value[1..])
  {
    if body[0] == BACKSLASH {
    } else {
      var rest := Unescape(body[1..]).value;
      assert ([body[0]] + rest)[1..] == rest;
    }
  }

  /** Bytes of one sequence were written as themselves, one after another. */
  lemma {:induction false} TrailsWritten(body: bytes, n: nat)
    requires Unescape(body).Some? && n <= |Unescape(body).value|
    requires forall i :: 0 <= i < n ==> Trails(Unescape(body).value[i])
    ensures n <= |body| && body[..n] == Unescape(body).value[..n]
    ensures Unescape(body[n..]) == Some(Unescape(body).value[n..])
    decreases n
  {
    hide Unescape, Trails;
    var t := Unescape(body).value;
    if n == 0 {
      assert body[0..] == body && t[0..] == t;
    } else {
      TrailWritten(body);
      TrailsWritten(body[1..], n - 1);
      assert body[1..][n - 1..] == body[n..] && t[1..][n - 1..] == t[n..];
      assert body[..n] == [body[0]] + body[1..][..n - 1] && t[..n] == [t[0]] + t[1..][..n - 1];
    }
  }

  lemma SequenceTrails(x: bytes)
    requires CodePoint(x).Some?
    ensures |x| > 0 && forall i :: 1 <= i < |x| ==> Trails(x[i])
    ensures |x| > 1 ==> CodePoint(x).value >= 0x80
  {
  }

  lemma PlainFirst(body: bytes)
    requires body != [] && body[0] != BACKSLASH && Unescape(body).Some?
    ensures body[0] >= 0x20 && body[0] != QUOTE && Unescape(body[1..]).Some?
    ensures (var t := Unescape(body).value; t != [] && t[0] == body[0] && t[1..] == Unescape(body[1..]).value)
  {
  }

  lemma SequenceFirst(t: bytes)
    requires t != [] && Scalars(t).Some?
    ensures (var n := FirstLength(t); n > 0 && CodePoint(t[..n]).Some? && Scalars(t[n..]).Some?)
  {
    hide CodePoint;
  }

  /** A body that begins with a plain byte begins with a plain character. */
  lemma PlainWritten(body: bytes) returns (n: nat)
    requires body != [] && body[0] != BACKSLASH
    requires Unescape(body).Some? && Scalars(Unescape(body).value).Some?
    ensures 0 < n <= |body| && n <= |Unescape(body).value|
    ensures Proper(Plain(body[..n])) && Unescape(body[n..]) == Some(Unescape(body).value[n..])
    ensures Scalars(Unescape(body).value[n..]).Some?
  {
    hide CodePoint, Trails, Unescape, Scalars, FirstLength;
    PlainFirst(body);
    var t, rest := Unescape(body).value, Unescape(body[1..]).value;
    SequenceFirst(t);
    n := FirstLength(t);
    var x := t[..n];
    SequenceTrails(x);
    forall i | 0 <= i < n - 1
      ensures Trails(rest[i])
    {
      assert rest[i] == x[i + 1];
    }
    TrailsWritten(body[1..], n - 1);
    RunIs(body, t, n);
    OneByte(x);
  }

  lemma RunIs(body: bytes, t: bytes, n: nat)
    requires 0 < n <= |body| && n <= |t| && body[0] == t[0] && body[1..][..n - 1] == t[1..][..n - 1]
    ensures body[..n] == t[..n] && body[1..][n - 1..] == body[n..] && t[1..][n - 1..] == t[n..]
  {
    assert body[..n] == [body[0]] + body[1..][..n - 1];
    assert t[..n] == [t[0]] + t[1..][..n - 1];
  }

  lemma OneByte(x: bytes)
    ensures |x| == 1 && CodePoint(x).Some? ==> CodePoint(x).value == x[0] as nat
  {
  }

  lemma {:induction false} DecodedIsSpelled(body: bytes) returns (cs: seq<Char>)
    requires Unescape(body).Some? && Scalars(Unescape(body).value).Some?
    ensures AllProper(cs) && Spell(cs) == body
    decreases |body|
  {
    var c: Char;
    if body == [] {
      cs := [];
      return;
    } else if body[0] == BACKSLASH {
      c := EscapedFirst(body);
    } else {
      var n := PlainWritten(body);
      c := Plain(body[..n]);
      assert body == body[..n] + body[n..];
    }
    hide Unescape, Scalars, Proper, Spelling;
    var k := |Spelling(c)|;
    var more := DecodedIsSpelled(body[k..]);
    cs := [c] + more;
    assert cs[1..] == more;
  }

  /** A body that begins with a backslash begins with an escaped character. */
  lemma EscapedFirst(body: bytes) returns (c: Char)
    requires body != [] && body[0] == BACKSLASH
    requires Unescape(body).Some? && Scalars(Unescape(body).value).Some?
    ensures Proper(c) && 0 < |Spelling(c)| <= |body| && body == Spelling(c) + body[|Spelling(c)|..]
    ensures Unescape(body[|Spelling(c)|..]).Some? && Scalars(Unescape(body[|Spelling(c)|..]).value).Some?
  {
    c := EscapeFirst(body);
    hide Unescape, Scalars, Proper, Spelling, CodePoint;
    var rest := body[|Spelling(c)|..];
    assert body == Spelling(c) + rest;
    CharDecodes(c, rest);
    Utf8OfIs(c);
    ScalarsFirst(Utf8Of(c), Unescape(rest).value);
  }

  lemma EscapeFirst(body: bytes) returns (c: Char)
    requires body != [] && body[0] == BACKSLASH && Unescape(body).Some?
    ensures Proper(c) && 0 < |Spelling(c)| && Spelling(c) <= body
  {
    hide EncodeUtf8, CodePoint, SimpleEscape, UnicodeEscape;
    if |body| >= 2 && SimpleEscape(body[1]).Some? {
      var e := ShortOf(body[1]);
      c := Short(e);
      assert body[..2] == [BACKSLASH, body[1]] == Spelling(c);
    } else {
      var u := UnitOf(body);
      if u.Number() < 0xD800 || u.Number() > 0xDFFF {
        c := Unit(u);
      } else {
        var l := UnitOf(body[6..]);
        c := Pair(u, l);
        assert body[..12] == u.Text() + body[6..][..6] == u.Text() + l.Text();
      }
    }
  }

  /** A string body is read as a text exactly when it spells characters of that text's scalar values. */
  lemma DecodeStringIff(body: bytes, text: bytes)
    ensures DecodeString(body) == Some(text) <==> Says(body, text)
  {
    hide Unescape, Scalars, Mean, Spell, AllProper;
    if DecodeString(body) == Some(text) {
      Utf8Iff(text);
      var cs := DecodedIsSpelled(body);
      SpelledDecodes(cs);
    }
    if Says(body, text) {
      var cs :| AllProper(cs) && Spell(cs) == body && Scalars(text) == Some(Mean(cs));
      SpelledDecodes(cs);
      SameScalars(text, Utf8OfAll(cs));
      Utf8Iff(text);
    }
  }

  lemma ReadableIff(body: bytes)
    ensures DecodeString(body).Some? <==> Readable(body)
    ensures DecodeString(body).Some? ==> Says(body, DecodeString(body).value)
  {
    hide DecodeString, Says;
    forall text
      ensures DecodeString(body) == Some(text) <==> Says(body, text)
    {
      DecodeStringIff(body, text);
    }
  }

  // ----- what is a string body at all

  /** A character of the grammar: a byte as itself, a short escape or a code unit of any value. */
  datatype Mark = Bare(b: byte) | Escaped(escape: ShortEscape) | Coded(unit: CodeUnit)

  predicate Legal(m: Mark) {
    match m
    case Bare(b) => b >= 0x20 && b != 0x22 && b != 0x5C
    case Escaped(_) => true
    case Coded(u) => u.Proper()
  }

  function MarkText(m: Mark): bytes
    requires Legal(m)
  {
    match m
    case Bare(b) => [b]
    case Escaped(e) => [0x5C, ShortPair(e).0]
    case Coded(u) => u.Text()
  }

  predicate AllLegal(ms: seq<Mark>) {
    ms == [] || (Legal(ms[0]) && AllLegal(ms[1..]))
  }

  function MarksText(ms: seq<Mark>): bytes
    requires AllLegal(ms)
  {
    if ms == [] then [] else MarkText(ms[0]) + MarksText(ms[1..])
  }

  ghost predicate Spelled(body: bytes) {
    exists ms :: AllLegal(ms) && MarksText(ms) == body
  }

  lemma {:induction false} MarksAreBody(ms: seq<Mark>)
    requires AllLegal(ms)
    ensures IsStringBody(MarksText(ms))
  {
    if ms != [] {
      MarksAreBody(ms[1..]);
      MarkBegins(ms[0], MarksText(ms[1..]));
    }
  }

  lemma MarkBegins(m: Mark, rest: bytes)
    requires Legal(m) && IsStringBody(rest)
    ensures IsStringBody(MarkText(m) + rest)
  {
    hide UnicodeEscape, SimpleEscape;
    var s := MarkText(m) + rest;
    match m
    case Bare(_) => assert s[1..] == rest;
    case Escaped(e) =>
      ShortIs(e);
      assert s[2..] == rest;
    case Coded(u) => UnitIs(u, rest);
  }

  /** The mark that a string body begins with. */
  lemma FirstMark(body: bytes) returns (m: Mark)
    requires IsStringBody(body) && body != []
    ensures Legal(m) && 0 < |MarkText(m)| <= |body| && body == MarkText(m) + body[|MarkText(m)|..]
    ensures IsStringBody(body[|MarkText(m)|..])
  {
    hide UnicodeEscape, SimpleEscape;
    if body[0] != BACKSLASH {
      m := Bare(body[0]);
    } else if |body| >= 2 && SimpleEscape(body[1]).Some? && IsStringBody(body[2..]) {
      var e := ShortOf(body[1]);
      m := Escaped(e);
    } else {
      var u := UnitOf(body);
      m := Coded(u);
    }
  }

  lemma {:induction false} BodyIsMarks(body: bytes) returns (ms: seq<Mark>)
    requires IsStringBody(body)
    ensures AllLegal(ms) && MarksText(ms) == body
    decreases |body|
  {
    ms := [];
    hide IsStringBody, Legal, MarkText;
    if body != [] {
      var m := FirstMark(body);
      var more := BodyIsMarks(body[|MarkText(m)|..]);
      ms := [m] + more;
      assert ms[1..] == more;
    }
  }

  /** The string bodies of the grammar are those made of such characters. */
  lemma StringBodyIff(body: bytes)
    ensures IsStringBody(body) <==> Spelled(body)
  {
    hide IsStringBody, AllLegal, MarksText;
    if IsStringBody(body) {
      var ms := BodyIsMarks(body);
    }
    forall ms | AllLegal(ms) && MarksText(ms) == body
      ensures IsStringBody(body)
    {
      MarksAreBody(ms);
    }
  }
}
