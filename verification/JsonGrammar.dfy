/**
 The JSON grammar of RFC 8259 as derivation trees. A text is valid JSON exactly when
 some well-formed tree spells it; nothing here knows about the scanner or the parser.
 */
module JsonGrammar {
  import opened Wrappers
  import opened Bytes
  import opened JsonStrings

  datatype Literal = True | False | Null

  /** One derivation of a value; `gap`, `pre` and `post` hold optional whitespace (section 2). */
  datatype Tree =
    | Lit(lit: Literal)
    | Num(digits: bytes)
    | Str(body: bytes)
    | Arr(items: Items)
    | Obj(members: Members)

  datatype Items =
    | NoItems(gap: bytes)
    | Item(pre: bytes, value: Tree, post: bytes, rest: Items)

  datatype Members =
    | NoMembers(gap: bytes)
    | Member(pre: bytes, key: bytes, beforeColon: bytes, afterColon: bytes, value: Tree, post: bytes, rest: Members)

  predicate IsWs(c: byte) {
    c == SPACE || c == TAB || c == LF || c == CR
  }

  predicate AllWs(s: bytes) {
    forall i :: 0 <= i < |s| ==> IsWs(s[i])
  }

  const TRUE_TEXT: bytes := [0x74, 0x72, 0x75, 0x65]
  const FALSE_TEXT: bytes := [0x66, 0x61, 0x6C, 0x73, 0x65]
  const NULL_TEXT: bytes := [0x6E, 0x75, 0x6C, 0x6C]

  function LiteralText(l: Literal): bytes {
    match l
    case True => TRUE_TEXT
    case False => FALSE_TEXT
    case Null => NULL_TEXT
  }

  predicate IsDigit(c: byte) {
    0x30 <= c <= 0x39
  }

  /** How many digits lead `s`. */
  function Digits(s: bytes): (n: nat)
    ensures n <= |s|
    ensures forall i :: 0 <= i < n ==> IsDigit(s[i])
    ensures n < |s| ==> !IsDigit(s[n])
  {
    if s == [] || !IsDigit(s[0]) then 0 else 1 + Digits(s[1..])
  }

  const EXP_LOWER: byte := 0x65
  const EXP_UPPER: byte := 0x45

  /** The length of the integer part at the front of `s`: optional minus, then `0` or digits without a leading zero. */
  function IntPart(s: bytes): Option<nat> {
    var sign := if s != [] && s[0] == MINUS then 1 else 0;
    var n := Digits(s[sign..]);
    if n == 0 then None
    else if s[sign] == 0x30 then Some(sign + 1)
    else Some(sign + n)
  }

  /** The length of an optional fraction at the front of `s`; `None` when a point has no digit after it. */
  function FracPart(s: bytes): Option<nat> {
    if s != [] && s[0] == DOT then
      if Digits(s[1..]) == 0 then None else Some(1 + Digits(s[1..]))
    else Some(0)
  }

  /** The length of an optional exponent at the front of `s`. */
  function ExpPart(s: bytes): Option<nat> {
    if s != [] && (s[0] == EXP_LOWER || s[0] == EXP_UPPER) then
      var sign := if |s| >= 2 && (s[1] == PLUS || s[1] == MINUS) then 1 else 0;
      if Digits(s[1 + sign..]) == 0 then None else Some(1 + sign + Digits(s[1 + sign..]))
    else Some(0)
  }

  /** The length of the longest number reading of `s` from its front (section 6). */
  function NumberLength(s: bytes): (r: Option<nat>)
    ensures r.Some? ==> 0 < r.value <= |s|
  {
    var a :- IntPart(s);
    var b :- FracPart(s[a..]);
    var c :- ExpPart(s[a + b..]);
    Some(a + b + c)
  }

  predicate IsNumber(s: bytes) {
    NumberLength(s) == Some(|s|)
  }

  ghost predicate WellFormed(t: Tree) {
    match t
    case Lit(_) => true
    case Num(d) => IsNumber(d)
    case Str(b) => IsStringBody(b)
    case Arr(items) => WellFormedItems(items, true)
    case Obj(members) => WellFormedMembers(members, true)
  }

  /** `gap` is the whitespace of an empty array; after an item, the whitespace belongs to the item. */
  ghost predicate WellFormedItems(it: Items, first: bool) {
    match it
    case NoItems(gap) => AllWs(gap) && (first || gap == [])
    case Item(pre, v, post, rest) => AllWs(pre) && WellFormed(v) && AllWs(post) && WellFormedItems(rest, false)
  }

  ghost predicate WellFormedMembers(ms: Members, first: bool) {
    match ms
    case NoMembers(gap) => AllWs(gap) && (first || gap == [])
    case Member(pre, key, bc, ac, v, post, rest) =>
      AllWs(pre) && IsStringBody(key) && AllWs(bc) && AllWs(ac) && WellFormed(v) && AllWs(post)
      && WellFormedMembers(rest, false)
  }

  /** The bytes a derivation spells. */
  function Text(t: Tree): (s: bytes)
    decreases t, 0
  {
    match t
    case Lit(l) => LiteralText(l)
    case Num(d) => d
    case Str(b) => StringText(b)
    case Arr(items) => [LBRACKET] + ItemsText(items, true) + [RBRACKET]
    case Obj(members) => [LBRACE] + MembersText(members, true) + [RBRACE]
  }

  function StringText(body: bytes): bytes {
    [QUOTE] + body + [QUOTE]
  }

  function Separator(first: bool): bytes {
    if first then [] else [COMMA]
  }

  function ItemsText(it: Items, first: bool): bytes
    decreases it, 1
  {
    match it
    case NoItems(gap) => gap
    case Item(pre, v, post, rest) => Separator(first) + (pre + Text(v) + post) + ItemsText(rest, false)
  }

  /** One member, from the whitespace before its key to the whitespace after its value. */
  function MemberText(pre: bytes, key: bytes, bc: bytes, ac: bytes, v: Tree, post: bytes): bytes
    decreases v, 1
  {
    pre + StringText(key) + bc + [COLON] + ac + Text(v) + post
  }

  function MembersText(ms: Members, first: bool): bytes
    decreases ms, 1
  {
    match ms
    case NoMembers(gap) => gap
    case Member(pre, key, bc, ac, v, post, rest) =>
      Separator(first) + MemberText(pre, key, bc, ac, v, post) + MembersText(rest, false)
  }

  /** A whole JSON text: one value with whitespace around it. */
  datatype Document = Document(before: bytes, root: Tree, after: bytes) {
    ghost predicate Valid() {
      AllWs(before) && WellFormed(root) && AllWs(after)
    }

    function Spelling(): bytes {
      before + Text(root) + after
    }
  }

  /** The first byte of a value decides its kind; none starts with whitespace or punctuation. */
  predicate StartsValue(s: bytes) {
    s != [] && (s[0] == QUOTE || s[0] == LBRACE || s[0] == LBRACKET || s[0] == 0x74 || s[0] == 0x66 || s[0] == 0x6E
                || s[0] == MINUS || IsDigit(s[0]))
  }

  lemma TextStartsValue(t: Tree)
    requires WellFormed(t)
    ensures StartsValue(Text(t))
    ensures Text(t)[0] == LBRACE <==> t.Obj?
    ensures Text(t)[0] == LBRACKET <==> t.Arr?
    ensures Text(t)[0] == QUOTE <==> t.Str?
    ensures Text(t)[0] == MINUS || IsDigit(Text(t)[0]) <==> t.Num?
  {
    match t
    case Num(d) =>
      assert IntPart(d).Some?;
      if d[0] != MINUS { assert d[0..] == d; assert IsDigit(d[0]); }
    case Lit(_) =>
    case Str(_) =>
    case Arr(_) =>
    case Obj(_) =>
  }
}
