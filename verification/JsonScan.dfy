/**
 What the routing scanner does, as functions on the unread bytes: each returns how many
 bytes it consumes. `JsonProbe` holds the scanner itself.
 */
module JsonScan {
  import opened Wrappers
  import opened Bytes
  import opened JsonStrings
  import opened JsonGrammar

  /** Where the two routing fields were last seen. */
  datatype Found = Found(model: Option<(nat, nat)>, stream: Option<bool>)

  datatype Probed = Probed(model: bytes, span: (nat, nat), stream: Option<bool>)

  const MODEL_KEY: bytes := FromText("model")
  const STREAM_KEY: bytes := FromText("stream")

  function Plus(n: nat, more: Option<nat>): Option<nat> {
    match more
    case Some(k) => Some(n + k)
    case None => None
  }

  function Ws(s: bytes): (n: nat)
    ensures n <= |s|
  {
    if s != [] && IsWs(s[0]) then 1 + Ws(s[1..]) else 0
  }

  /** From just after an opening quote to just after the closing one. */
  function StringRest(s: bytes): (r: Option<nat>)
    ensures r.Some? ==> 0 < r.value <= |s| && s[r.value - 1] == QUOTE
  {
    if s == [] then None
    else if s[0] == QUOTE then Some(1)
    else if s[0] == BACKSLASH then
      if |s| < 2 then None else Plus(2, StringRest(s[2..]))
    else Plus(1, StringRest(s[1..]))
  }

  function StringToken(s: bytes): (r: Option<nat>)
    ensures r.Some? ==> 2 <= r.value <= |s| && s[0] == QUOTE && s[r.value - 1] == QUOTE
  {
    if s == [] || s[0] != QUOTE then None else Plus(1, StringRest(s[1..]))
  }

  function LiteralToken(s: bytes, lit: bytes): (r: Option<nat>)
    ensures r.Some? ==> r.value <= |s|
  {
    if lit <= s then Some(|lit|) else None
  }

  predicate NumberByte(c: byte) {
    c == MINUS || c == PLUS || c == DOT || c == EXP_LOWER || c == EXP_UPPER || IsDigit(c)
  }

  function NumberRun(s: bytes): (n: nat)
    ensures n <= |s|
  {
    if s != [] && NumberByte(s[0]) then 1 + NumberRun(s[1..]) else 0
  }

  predicate Opens(c: byte) {
    c == LBRACE || c == LBRACKET
  }

  predicate Closes(c: byte) {
    c == RBRACE || c == RBRACKET
  }

  /** The bracket-counting loop, entered at `depth`; at depth 0 the next byte must open something. */
  function Nested(s: bytes, depth: nat): (r: Option<nat>)
    requires depth == 0 ==> s != [] && Opens(s[0])
    ensures r.Some? ==> r.value <= |s|
  {
    if s == [] then None
    else if Opens(s[0]) then Plus(1, Nested(s[1..], depth + 1))
    else if Closes(s[0]) then
      if depth == 1 then Some(1) else Plus(1, Nested(s[1..], depth - 1))
    else if s[0] == QUOTE then
      var n :- StringToken(s);
      Plus(n, Nested(s[n..], depth))
    else Plus(1, Nested(s[1..], depth))
  }

  function SkipValue(s: bytes): (r: Option<nat>)
    ensures r.Some? ==> r.value <= |s|
  {
    if s == [] then None
    else if s[0] == QUOTE then StringToken(s)
    else if Opens(s[0]) then Nested(s, 0)
    else if s[0] == 0x74 then LiteralToken(s, TRUE_TEXT)
    else if s[0] == 0x66 then LiteralToken(s, FALSE_TEXT)
    else if s[0] == 0x6E then LiteralToken(s, NULL_TEXT)
    else if s[0] == MINUS || IsDigit(s[0]) then Some(NumberRun(s))
    else None
  }

  function StreamValue(s: bytes): (r: Option<(nat, Option<bool>)>)
    ensures r.Some? ==> r.value.0 <= |s|
  {
    if s == [] then None
    else if s[0] == 0x74 then (var n :- LiteralToken(s, TRUE_TEXT); Some((n, Some(true))))
    else if s[0] == 0x66 then (var n :- LiteralToken(s, FALSE_TEXT); Some((n, Some(false))))
    else if s[0] == 0x6E then (var n :- LiteralToken(s, NULL_TEXT); Some((n, None)))
    else None
  }

  /** The value of a member whose key is `key`, the value starting at offset `at` of the body. */
  function MemberValue(key: bytes, s: bytes, at: nat, f: Found): (r: Option<(nat, Found)>)
    ensures r.Some? ==> r.value.0 <= |s|
  {
    if key == MODEL_KEY then
      var n :- StringToken(s);
      Some((n, f.(model := Some((at, at + n)))))
    else if key == STREAM_KEY then
      var (n, b) :- StreamValue(s);
      Some((n, f.(stream := b)))
    else
      var n :- SkipValue(s);
      Some((n, f))
  }

  /** An unescaped key, whitespace before it included: `(key, where it ends)`. */
  function KeyPart(s: bytes): (r: Option<(bytes, nat)>)
    ensures r.Some? ==> 0 < r.value.1 <= |s|
  {
    var w := Ws(s);
    var k :- StringToken(s[w..]);
    var key := s[w + 1..w + k - 1];
    if BACKSLASH in key then None else Some((key, w + k))
  }

  /** The colon after a key that ends at `n`, and where the value after it starts. */
  function ColonPart(s: bytes, n: nat): (r: Option<nat>)
    requires n <= |s|
    ensures r.Some? ==> n < r.value <= |s|
  {
    var c := n + Ws(s[n..]);
    if c >= |s| || s[c] != COLON then None else Some(c + 1 + Ws(s[c + 1..]))
  }

  /** A key and everything up to its value: `(key, where the value starts)`. */
  function KeyAndColon(s: bytes): (r: Option<(bytes, nat)>)
    ensures r.Some? ==> 0 < r.value.1 <= |s|
  {
    var (key, n) :- KeyPart(s);
    var v :- ColonPart(s, n);
    Some((key, v))
  }

  function OneMember(s: bytes, at: nat, f: Found): (r: Option<(nat, Found)>)
    ensures r.Some? ==> 0 < r.value.0 <= |s|
  {
    var (key, v) :- KeyAndColon(s);
    var (n, g) :- MemberValue(key, s[v..], at + v, f);
    Some((v + n, g))
  }

  /** The separator after a value that ends at `n`: its offset, and whether another member follows. */
  function SeparatorAfter(s: bytes, n: nat): (r: Option<(nat, bool)>)
    requires n <= |s|
    ensures r.Some? ==> n <= r.value.0 < |s|
  {
    var w := n + Ws(s[n..]);
    if w >= |s| then None
    else if s[w] == COMMA then Some((w, true))
    else if s[w] == RBRACE && w + 1 + Ws(s[w + 1..]) == |s| then Some((w, false))
    else None
  }

  /** One turn of the member loop: how far it went, and whether the loop goes on. */
  function Turn(s: bytes, at: nat, f: Found): (r: Option<(nat, bool, Found)>)
    ensures r.Some? ==> 0 < r.value.0 <= |s|
  {
    var (n, g) :- OneMember(s, at, f);
    var (w, more) :- SeparatorAfter(s, n);
    Some((w + 1, more, g))
  }

  /** The member loop, from just after `{` or `,` at offset `at` to the end of the body. */
  function AllMembers(s: bytes, at: nat, f: Found): (r: Option<Found>)
    decreases |s|
  {
    var (k, more, g) :- Turn(s, at, f);
    if more then AllMembers(s[k..], at + k, g) else Some(g)
  }

  /** Where the first member of a top-level object starts; `None` for an empty object or anything else. */
  function ObjectStart(body: bytes): (r: Option<nat>)
    ensures r.Some? ==> 0 < r.value <= |body|
  {
    var w := Ws(body);
    if w >= |body| || body[w] != LBRACE then None
    else
      var v := w + 1 + Ws(body[w + 1..]);
      if v < |body| && body[v] == RBRACE then None else Some(v)
  }

  function FoundIn(body: bytes): Option<Found> {
    var v :- ObjectStart(body);
    AllMembers(body[v..], v, Found(None, None))
  }

  /** Spans that a scan may report: string tokens inside the body. */
  predicate SpanOf(body: bytes, span: (nat, nat)) {
    span.0 + 2 <= span.1 <= |body| && StringToken(body[span.0..]) == Some(span.1 - span.0)
  }

  function TokenBody(body: bytes, span: (nat, nat)): bytes
    requires SpanOf(body, span)
  {
    body[span.0 + 1..span.1 - 1]
  }

  lemma OneMemberSpan(body: bytes, at: nat, f: Found)
    requires at <= |body|
    requires f.model.Some? ==> SpanOf(body, f.model.value)
    requires OneMember(body[at..], at, f).Some?
    ensures (var g := OneMember(body[at..], at, f).value.1; g.model.Some? ==> SpanOf(body, g.model.value))
  {
    hide Nested, StringRest, Ws, NumberRun, SkipValue, StreamValue, KeyAndColon;
    var (key, v) := KeyAndColon(body[at..]).value;
    assert body[at..][v..] == body[at + v..];
  }

  lemma {:induction false} AllMembersSpan(body: bytes, at: nat, f: Found)
    requires at <= |body|
    requires f.model.Some? ==> SpanOf(body, f.model.value)
    requires AllMembers(body[at..], at, f).Some?
    ensures (var g := AllMembers(body[at..], at, f).value; g.model.Some? ==> SpanOf(body, g.model.value))
    decreases |body| - at
  {
    hide OneMember, SeparatorAfter, SpanOf;
    OneMemberSpan(body, at, f);
    var (k, more, g) := Turn(body[at..], at, f).value;
    if more {
      assert body[at..][k..] == body[at + k..];
      AllMembersSpan(body, at + k, g);
    }
  }

  lemma FoundSpan(body: bytes)
    requires FoundIn(body).Some? && FoundIn(body).value.model.Some?
    ensures SpanOf(body, FoundIn(body).value.model.value)
  {
    hide ObjectStart, AllMembers;
    AllMembersSpan(body, ObjectStart(body).value, Found(None, None));
  }

  function Probe(body: bytes): (r: Option<Probed>)
    ensures r.Some? ==> SpanOf(body, r.value.span)
  {
    var f :- FoundIn(body);
    var span :- f.model;
    FoundSpan(body);
    var m :- DecodeString(TokenBody(body, span));
    Some(Probed(m, span, f.stream))
  }

  function Splice(body: bytes, span: (nat, nat), model: bytes): bytes
    requires span.0 <= span.1 <= |body|
  {
    body[..span.0] + Quoted(model) + body[span.1..]
  }
}
