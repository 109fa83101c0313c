/**
 The scanner agrees with the grammar: on valid JSON, counting brackets consumes exactly one
 value, and the probe reports exactly the last `model` and the last `stream`.
 */
module JsonAgreement {
  import opened Wrappers
  import opened Bytes
  import opened JsonStrings
  import opened JsonMeaning
  import opened JsonGrammar
  import opened JsonScan

  lemma {:induction false} WsRun(ws: bytes, rest: bytes)
    requires AllWs(ws) && (rest == [] || !IsWs(rest[0]))
    ensures Ws(ws + rest) == |ws|
  {
    if ws == [] {
      assert ws + rest == rest;
    } else {
      WsRun(ws[1..], rest);
      assert (ws + rest)[1..] == ws[1..] + rest;
    }
  }

  /** The escape-aware search passes over a whole string body. */
  lemma {:induction false} StringBodyRest(body: bytes, rest: bytes)
    requires IsStringBody(body)
    ensures StringRest(body + rest) == Plus(|body|, StringRest(rest))
    decreases |body|
  {
    hide StringRest, UnicodeEscape, SimpleEscape;
    if body == [] {
      assert body + rest == rest;
    } else if body[0] == BACKSLASH {
      if |body| >= 2 && SimpleEscape(body[1]).Some? && IsStringBody(body[2..]) {
        StringBodyRest(body[2..], rest);
        StringRestStep(body, rest);
      } else {
        StringBodyRest(body[6..], rest);
        SkipUnicodeEscape(body, rest);
      }
    } else {
      StringBodyRest(body[1..], rest);
      StringRestStep(body, rest);
    }
  }

  lemma StringRestStep(body: bytes, rest: bytes)
    requires body != [] && body[0] != QUOTE && (body[0] == BACKSLASH ==> |body| >= 2)
    ensures (var k := if body[0] == BACKSLASH then 2 else 1;
             StringRest(body + rest) == Plus(k, StringRest(body[k..] + rest)))
  {
    DropFront(body, rest, if body[0] == BACKSLASH then 2 else 1);
  }

  lemma SkipUnicodeEscape(body: bytes, rest: bytes)
    requires UnicodeEscape(body).Some?
    ensures StringRest(body + rest) == Plus(6, StringRest(body[6..] + rest))
  {
    hide StringRest, HexDigit;
    var s := body + rest;
    StringRestStep(body, rest);
    HexRun(body[2..], rest, 4);
    assert body[2..][4..] == body[6..];
  }

  lemma {:induction false} HexRun(s: bytes, rest: bytes, n: nat)
    requires n <= |s| && forall i :: 0 <= i < n ==> HexDigit(s[i]).Some?
    ensures StringRest(s + rest) == Plus(n, StringRest(s[n..] + rest))
  {
    hide StringRest;
    if n > 0 {
      assert HexDigit(s[0]).Some?;
      StringRestStep(s, rest);
      HexRun(s[1..], rest, n - 1);
      assert s[1..][n - 1..] == s[n..];
    }
  }

  lemma {:induction false} TokenExact(body: bytes, rest: bytes)
    requires IsStringBody(body)
    ensures StringToken(StringText(body) + rest) == Some(|body| + 2)
  {
    hide IsStringBody;
    var s := StringText(body) + rest;
    StringBodyRest(body, [QUOTE] + rest);
    assert s[1..] == body + ([QUOTE] + rest);
  }

  // ----- numbers

  predicate NumberBytesOnly(s: bytes) {
    forall i :: 0 <= i < |s| ==> NumberByte(s[i])
  }

  lemma IntBytes(s: bytes)
    requires IntPart(s).Some?
    ensures IntPart(s).value <= |s| && NumberBytesOnly(s[..IntPart(s).value])
  {
    var sign := if s[0] == MINUS then 1 else 0;
    var n := IntPart(s).value;
    forall i | 0 <= i < n
      ensures NumberByte(s[i])
    {
      if i >= sign { assert s[i] == s[sign..][i - sign]; }
    }
  }

  lemma FracBytes(s: bytes)
    requires FracPart(s).Some?
    ensures FracPart(s).value <= |s| && NumberBytesOnly(s[..FracPart(s).value])
  {
    forall i | 0 <= i < FracPart(s).value
      ensures NumberByte(s[i])
    {
      if i >= 1 { assert s[i] == s[1..][i - 1]; }
    }
  }

  lemma ExpBytes(s: bytes)
    requires ExpPart(s).Some?
    ensures ExpPart(s).value <= |s| && NumberBytesOnly(s[..ExpPart(s).value])
  {
    var sign := if |s| >= 2 && (s[1] == PLUS || s[1] == MINUS) then 1 else 0;
    forall i | 0 <= i < ExpPart(s).value
      ensures NumberByte(s[i])
    {
      if i >= 1 + sign { assert s[i] == s[1 + sign..][i - 1 - sign]; }
    }
  }

  lemma NumberBytes(d: bytes)
    requires IsNumber(d)
    ensures NumberBytesOnly(d)
  {
    hide IntPart, FracPart, ExpPart, NumberByte;
    var a := IntPart(d).value;
    IntBytes(d);
    var b := FracPart(d[a..]).value;
    FracBytes(d[a..]);
    var c := ExpPart(d[a + b..]).value;
    ExpBytes(d[a + b..]);
    forall i | 0 <= i < |d|
      ensures NumberByte(d[i])
    {
      if i < a { assert d[i] == d[..a][i]; }
      else if i < a + b { assert d[i] == d[a..][..b][i - a]; }
      else { assert d[i] == d[a + b..][..c][i - a - b]; }
    }
  }

  lemma {:induction false} NumberRunExact(d: bytes, rest: bytes)
    requires NumberBytesOnly(d)
    requires rest == [] || !NumberByte(rest[0])
    ensures NumberRun(d + rest) == |d|
  {
    if d == [] {
      assert d + rest == rest;
    } else {
      NumberRunExact(d[1..], rest);
      assert (d + rest)[1..] == d[1..] + rest;
    }
  }

  // ----- counting brackets

  predicate Plain(s: bytes) {
    forall i :: 0 <= i < |s| ==> !Opens(s[i]) && !Closes(s[i]) && s[i] != QUOTE
  }

  lemma {:induction false} NestedPlain(p: bytes, rest: bytes, depth: nat)
    requires Plain(p) && depth > 0
    ensures Nested(p + rest, depth) == Plus(|p|, Nested(rest, depth))
  {
    if p == [] {
      assert p + rest == rest;
    } else {
      NestedPlain(p[1..], rest, depth);
      assert (p + rest)[1..] == p[1..] + rest;
    }
  }

  lemma NestedString(body: bytes, rest: bytes, depth: nat)
    requires IsStringBody(body) && depth > 0
    ensures Nested(StringText(body) + rest, depth) == Plus(|body| + 2, Nested(rest, depth))
  {
    TokenExact(body, rest);
    assert (StringText(body) + rest)[|body| + 2..] == rest;
  }

  /** Inside brackets, a whole value leaves the depth as it found it. */
  lemma {:induction false} NestedTree(t: Tree, rest: bytes, depth: nat)
    requires WellFormed(t) && depth > 0
    ensures Nested(Text(t) + rest, depth) == Plus(|Text(t)|, Nested(rest, depth))
    decreases t, 0
  {
    match t
    case Lit(l) =>
      NestedPlain(Text(t), rest, depth);
    case Num(d) =>
      NumberBytes(d);
      NestedPlain(d, rest, depth);
    case Str(b) =>
      NestedString(b, rest, depth);
    case Arr(items) =>
      NestedArray(items, rest, depth);
    case Obj(members) =>
      NestedObject(members, rest, depth);
  }

  lemma NestedBracket(c: byte, rest: bytes, depth: nat)
    ensures Opens(c) ==> Nested([c] + rest, depth) == Plus(1, Nested(rest, depth + 1))
    ensures Closes(c) && depth > 0 ==>
              Nested([c] + rest, depth) == Plus(1, if depth == 1 then Some(0) else Nested(rest, depth - 1))
  {
    assert ([c] + rest)[1..] == rest;
  }

  lemma {:induction false} NestedArray(items: Items, rest: bytes, depth: nat)
    requires WellFormedItems(items, true)
    ensures Nested(Text(Arr(items)) + rest, depth)
         == Plus(|Text(Arr(items))|, if depth == 0 then Some(0) else Nested(rest, depth))
    decreases items, 2
  {
    hide Nested;
    var inner := ItemsText(items, true);
    assert Text(Arr(items)) + rest == [LBRACKET] + (inner + ([RBRACKET] + rest));
    NestedBracket(LBRACKET, inner + ([RBRACKET] + rest), depth);
    NestedItems(items, true, [RBRACKET] + rest, depth + 1);
    NestedBracket(RBRACKET, rest, depth + 1);
  }

  lemma {:induction false} NestedObject(members: Members, rest: bytes, depth: nat)
    requires WellFormedMembers(members, true)
    ensures Nested(Text(Obj(members)) + rest, depth)
         == Plus(|Text(Obj(members))|, if depth == 0 then Some(0) else Nested(rest, depth))
    decreases members, 2
  {
    hide Nested;
    var inner := MembersText(members, true);
    assert Text(Obj(members)) + rest == [LBRACE] + (inner + ([RBRACE] + rest));
    NestedBracket(LBRACE, inner + ([RBRACE] + rest), depth);
    NestedMembers(members, true, [RBRACE] + rest, depth + 1);
    NestedBracket(RBRACE, rest, depth + 1);
  }

  lemma ItemsUnfold(it: Items, first: bool, rest: bytes)
    requires it.Item?
    ensures ItemsText(it, first) + rest
         == ((Separator(first) + it.pre) + Text(it.value) + it.post) + (ItemsText(it.rest, false) + rest)
    ensures |ItemsText(it, first)|
         == |(Separator(first) + it.pre) + Text(it.value) + it.post| + |ItemsText(it.rest, false)|
  {
    assert ItemsText(it, first) == Separator(first) + (it.pre + Text(it.value) + it.post) + ItemsText(it.rest, false);
  }

  lemma {:induction false} NestedItem(pre: bytes, v: Tree, post: bytes, rest: bytes, depth: nat)
    requires Plain(pre) && WellFormed(v) && AllWs(post) && depth > 0
    ensures Nested((pre + Text(v) + post) + rest, depth) == Plus(|pre| + |Text(v)| + |post|, Nested(rest, depth))
    decreases v, 1
  {
    hide Nested, Text, WellFormed;
    Assoc3(pre, Text(v), post, rest);
    NestedPlain(post, rest, depth);
    NestedTree(v, post + rest, depth);
    NestedPlain(pre, Text(v) + (post + rest), depth);
  }

  lemma {:induction false} NestedItems(it: Items, first: bool, rest: bytes, depth: nat)
    requires WellFormedItems(it, first) && depth > 0
    ensures Nested(ItemsText(it, first) + rest, depth) == Plus(|ItemsText(it, first)|, Nested(rest, depth))
    decreases it, 1
  {
    hide Nested, Text;
    match it
    case NoItems(gap) =>
      NestedPlain(gap, rest, depth);
    case Item(pre, v, post, more) =>
      NestedItems(more, false, rest, depth);
      NestedItem(Separator(first) + pre, v, post, ItemsText(more, false) + rest, depth);
      ItemsUnfold(it, first, rest);
  }

  lemma HeadRegroup(pre: bytes, key: bytes, bc: bytes, ac: bytes, t: bytes)
    ensures pre + StringText(key) + bc + [COLON] + ac + t == pre + (StringText(key) + (bc + ([COLON] + (ac + t))))
  {
  }

  lemma {:induction false} NestedMember(pre: bytes, key: bytes, bc: bytes, ac: bytes, v: Tree, post: bytes, rest: bytes, depth: nat)
    requires Plain(pre) && IsStringBody(key) && AllWs(bc) && AllWs(ac) && WellFormed(v) && AllWs(post) && depth > 0
    ensures Nested(pre + StringText(key) + bc + [COLON] + ac + (Text(v) + (post + rest)), depth)
         == Plus(|pre| + |key| + 2 + |bc| + 1 + |ac| + |Text(v)| + |post|, Nested(rest, depth))
    decreases v, 1
  {
    hide Nested, Text, WellFormed, IsStringBody, StringText;
    var r2 := Text(v) + (post + rest);
    HeadRegroup(pre, key, bc, ac, r2);
    NestedPlain(post, rest, depth);
    NestedTree(v, post + rest, depth);
    NestedPlain(ac, r2, depth);
    NestedPlain([COLON], ac + r2, depth);
    NestedPlain(bc, [COLON] + (ac + r2), depth);
    NestedString(key, bc + ([COLON] + (ac + r2)), depth);
    NestedPlain(pre, StringText(key) + (bc + ([COLON] + (ac + r2))), depth);
  }

  lemma MembersUnfold(ms: Members, first: bool, rest: bytes)
    requires ms.Member?
    ensures (var head := Separator(first) + ms.pre + StringText(ms.key) + ms.beforeColon + [COLON] + ms.afterColon;
             && MembersText(ms, first) + rest
                == head + (Text(ms.value) + (ms.post + (MembersText(ms.rest, false) + rest)))
             && |MembersText(ms, first)|
                == |head| + |Text(ms.value)| + |ms.post| + |MembersText(ms.rest, false)|)
  {
    hide Text;
    var text := MemberText(ms.pre, ms.key, ms.beforeColon, ms.afterColon, ms.value, ms.post);
    var head := Separator(first) + ms.pre + StringText(ms.key) + ms.beforeColon + [COLON] + ms.afterColon;
    assert MembersText(ms, first) == Separator(first) + text + MembersText(ms.rest, false);
    assert Separator(first) + text == head + Text(ms.value) + ms.post;
    Assoc3(head, Text(ms.value), ms.post, MembersText(ms.rest, false) + rest);
    assert MembersText(ms, first) + rest == (Separator(first) + text) + (MembersText(ms.rest, false) + rest);
  }

  lemma {:induction false} NestedMembers(ms: Members, first: bool, rest: bytes, depth: nat)
    requires WellFormedMembers(ms, first) && depth > 0
    ensures Nested(MembersText(ms, first) + rest, depth) == Plus(|MembersText(ms, first)|, Nested(rest, depth))
    decreases ms, 1
  {
    hide Nested, Text, IsStringBody;
    match ms
    case NoMembers(gap) =>
      NestedPlain(gap, rest, depth);
    case Member(pre, key, bc, ac, v, post, more) =>
      NestedMembers(more, false, rest, depth);
      NestedMember(Separator(first) + pre, key, bc, ac, v, post, MembersText(more, false) + rest, depth);
      MembersUnfold(ms, first, rest);
  }

  /** Bytes after which no number can go on. */
  predicate EndsNumber(rest: bytes) {
    rest == [] || !NumberByte(rest[0])
  }

  /** Skipping, from the front of any valid value, consumes that value and nothing else. */
  lemma SkipValueExact(t: Tree, rest: bytes)
    requires WellFormed(t)
    requires t.Num? ==> EndsNumber(rest)
    ensures SkipValue(Text(t) + rest) == Some(|Text(t)|)
  {
    TextStartsValue(t);
    var s := Text(t) + rest;
    assert s[0] == Text(t)[0];
    match t
    case Lit(l) =>
      assert LiteralText(l) <= s;
    case Num(d) =>
      NumberBytes(d);
      NumberRunExact(d, rest);
    case Str(b) =>
      TokenExact(b, rest);
    case Arr(items) =>
      NestedArray(items, rest, 0);
    case Obj(members) =>
      NestedObject(members, rest, 0);
  }

  // ----- the probe against the grammar

  /** A member the scanner takes: no escaped key, a string if it is the `model`, a literal if it is the `stream`. */
  predicate MemberRoutable(key: bytes, v: Tree) {
    && BACKSLASH !in key
    && (key == MODEL_KEY ==> v.Str?)
    && (key == STREAM_KEY ==> v.Lit?)
  }

  /** What a caller may send for the scanner to take it. */
  predicate Routable(ms: Members) {
    match ms
    case NoMembers(_) => true
    case Member(_, key, _, _, v, _, rest) => MemberRoutable(key, v) && Routable(rest)
  }

  /** The string body of the last `model` member, or `earlier` if there is none. */
  function LastModel(ms: Members, earlier: Option<bytes>): Option<bytes> {
    match ms
    case NoMembers(_) => earlier
    case Member(_, key, _, _, v, _, rest) =>
      LastModel(rest, if key == MODEL_KEY && v.Str? then Some(v.body) else earlier)
  }

  function Flag(l: Literal): Option<bool> {
    match l
    case True => Some(true)
    case False => Some(false)
    case Null => None
  }

  /** The reading of the last `stream` member, or `earlier` if there is none; `null` reads as absent. */
  function LastStream(ms: Members, earlier: Option<bool>): Option<bool> {
    match ms
    case NoMembers(_) => earlier
    case Member(_, key, _, _, v, _, rest) =>
      LastStream(rest, if key == STREAM_KEY && v.Lit? then Flag(v.lit) else earlier)
  }

  function Record(f: Found, key: bytes, v: Tree, at: nat): Found {
    if key == MODEL_KEY then f.(model := Some((at, at + |Text(v)|)))
    else if key == STREAM_KEY && v.Lit? then f.(stream := Flag(v.lit))
    else f
  }

  lemma {:induction false} KeyPartExact(pre: bytes, key: bytes, rest: bytes)
    requires AllWs(pre) && IsStringBody(key)
    ensures (var s := pre + (StringText(key) + rest);
             var n := |pre| + |key| + 2;
             && KeyPart(s) == (if BACKSLASH in key then None else Some((key, n)))
             && s[n..] == rest)
  {
    hide Ws, StringToken;
    var t := StringText(key) + rest;
    var s := pre + t;
    WsRun(pre, t);
    Halves(pre, t);
    TokenExact(key, rest);
    var w := |pre|;
    assert t[1..|key| + 1] == key;
    assert s[w + 1..w + |key| + 1] == s[w..][1..|key| + 1];
    Halves(StringText(key), rest);
    assert s[w + |key| + 2..] == s[w..][|key| + 2..];
  }

  lemma ColonPartExact(s: bytes, n: nat, bc: bytes, ac: bytes, tail: bytes)
    requires AllWs(bc) && AllWs(ac) && tail != [] && !IsWs(tail[0])
    requires n <= |s| && s[n..] == bc + ([COLON] + (ac + tail))
    ensures (var v := n + |bc| + 1 + |ac|; ColonPart(s, n) == Some(v) && s[v..] == tail)
  {
    hide Ws;
    var t3 := [COLON] + (ac + tail);
    WsRun(bc, t3);
    Halves(bc, t3);
    Halves([COLON], ac + tail);
    Halves(ac, tail);
    var c := n + |bc|;
    assert s[c..] == s[n..][|bc|..];
    assert s[c] == s[c..][0];
    assert s[c + 1..] == s[c..][1..];
    WsRun(ac, tail);
    assert s[c + 1 + |ac|..] == s[c + 1..][|ac|..];
  }

  lemma {:induction false} KeyAndColonExact(pre: bytes, key: bytes, bc: bytes, ac: bytes, tail: bytes)
    requires AllWs(pre) && IsStringBody(key) && AllWs(bc) && AllWs(ac)
    requires tail != [] && !IsWs(tail[0])
    ensures KeyAndColon(pre + StringText(key) + bc + [COLON] + ac + tail)
         == if BACKSLASH in key then None else Some((key, |pre| + |key| + 2 + |bc| + 1 + |ac|))
  {
    hide KeyPart, ColonPart;
    HeadRegroup(pre, key, bc, ac, tail);
    var s := pre + StringText(key) + bc + [COLON] + ac + tail;
    KeyPartExact(pre, key, bc + ([COLON] + (ac + tail)));
    ColonPartExact(s, |pre| + |key| + 2, bc, ac, tail);
  }

  lemma MemberValueExact(key: bytes, v: Tree, tail: bytes, at: nat, f: Found)
    requires WellFormed(v) && EndsNumber(tail) && BACKSLASH !in key
    ensures MemberValue(key, Text(v) + tail, at, f)
         == if MemberRoutable(key, v) then Some((|Text(v)|, Record(f, key, v, at))) else None
  {
    TextStartsValue(v);
    var s := Text(v) + tail;
    assert s[0] == Text(v)[0];
    if key == MODEL_KEY {
      if v.Str? { TokenExact(v.body, tail); }
    } else if key == STREAM_KEY {
      if v.Lit? { assert LiteralText(v.lit) <= s; }
    } else {
      SkipValueExact(v, tail);
    }
  }

  lemma {:induction false} OneMemberExact(pre: bytes, key: bytes, bc: bytes, ac: bytes, v: Tree, tail: bytes, at: nat, f: Found)
    requires AllWs(pre) && IsStringBody(key) && AllWs(bc) && AllWs(ac) && WellFormed(v) && EndsNumber(tail)
    ensures (var v0 := |pre| + |key| + 2 + |bc| + 1 + |ac|;
             OneMember(pre + StringText(key) + bc + [COLON] + ac + (Text(v) + tail), at, f)
             == if MemberRoutable(key, v) then Some((v0 + |Text(v)|, Record(f, key, v, at + v0))) else None)
  {
    hide KeyAndColon, MemberValue;
    TextStartsValue(v);
    var t := Text(v) + tail;
    assert t[0] == Text(v)[0];
    KeyAndColonExact(pre, key, bc, ac, t);
    var s := pre + StringText(key) + bc + [COLON] + ac + t;
    var v0 := |pre| + |key| + 2 + |bc| + 1 + |ac|;
    assert s[v0..] == t;
    if BACKSLASH !in key {
      MemberValueExact(key, v, tail, at + v0, f);
    }
  }

  /** Skipping never takes nothing, and takes only what begins as a value of the grammar does. */
  lemma SkipBegins(s: bytes)
    requires SkipValue(s).Some?
    ensures SkipValue(s).value > 0
    ensures s[0] in FromText("\"{[tfn-") || '0' as int <= s[0] as int <= '9' as int
  {
    hide Nested, StringToken, LiteralToken;
    var first := FromText("\"{[tfn-");
    assert first[0] == QUOTE && first[1] == LBRACE && first[2] == LBRACKET && first[6] == MINUS;
    assert first[3] == 0x74 && first[4] == 0x66 && first[5] == 0x6E;
    SkipTakes(s);
  }

  lemma SkipTakes(s: bytes)
    requires SkipValue(s).Some?
    ensures SkipValue(s).value > 0
  {
    if Opens(s[0]) { NestedTakes(s, 0); }
  }

  lemma {:induction false} NestedTakes(s: bytes, depth: nat)
    requires depth == 0 ==> s != [] && Opens(s[0])
    requires Nested(s, depth).Some?
    ensures Nested(s, depth).value > 0
  {
  }

  /** `span` delimits, in `whole`, the token spelled by `body`; or both are absent. */
  predicate Points(whole: bytes, span: Option<(nat, nat)>, body: Option<bytes>) {
    match (span, body)
    case (Some(s), Some(b)) => s.0 <= s.1 <= |whole| && whole[s.0..s.1] == StringText(b)
    case (None, None) => true
    case _ => false
  }

  /** Where the value of the last `model` member stands in a text whose members start at `at`. */
  function LastSpan(ms: Members, at: nat, earlier: Option<(nat, nat)>): Option<(nat, nat)> {
    match ms
    case NoMembers(_) => earlier
    case Member(_, key, _, _, v, _, rest) =>
      var from := at + ValueAt(ms);
      LastSpan(rest, at + MemberSpan(ms) + 1, if key == MODEL_KEY then Some((from, from + |Text(v)|)) else earlier)
  }

  /** Where it stands in the text of a document. */
  function ModelSpan(doc: Document): Option<(nat, nat)>
    requires doc.root.Obj?
  {
    LastSpan(doc.root.members, |doc.before| + 1, None)
  }

  /** The offset of the value within a member's text. */
  function ValueAt(ms: Members): nat
    requires ms.Member?
  {
    |ms.pre| + |ms.key| + 2 + |ms.beforeColon| + 1 + |ms.afterColon|
  }

  function MemberSpan(ms: Members): nat
    requires ms.Member?
  {
    ValueAt(ms) + |Text(ms.value)| + |ms.post|
  }

  function MemberHead(ms: Members): bytes
    requires ms.Member?
  {
    ms.pre + StringText(ms.key) + ms.beforeColon + [COLON] + ms.afterColon
  }

  lemma {:induction false} MembersLayout(ms: Members, close: bytes)
    requires ms.Member?
    ensures MembersText(ms, true) + close
         == MemberHead(ms) + (Text(ms.value) + (ms.post + (MembersText(ms.rest, false) + close)))
    ensures |MemberHead(ms)| == ValueAt(ms)
    ensures ms.rest.Member? ==> MembersText(ms.rest, false) + close == [COMMA] + (MembersText(ms.rest, true) + close)
    ensures ms.rest.NoMembers? ==> MembersText(ms.rest, false) == ms.rest.gap
  {
    hide Text, StringText, MembersText;
    var Member(pre, key, bc, ac, v, post, rest) := ms;
    MembersTextCases(ms);
    HeadLength(ms);
    var tail := MembersText(rest, false);
    assert MemberText(pre, key, bc, ac, v, post) == MemberHead(ms) + Text(v) + post;
    assert [] + MemberText(pre, key, bc, ac, v, post) == MemberText(pre, key, bc, ac, v, post);
    Assoc3(MemberHead(ms) + Text(v), post, tail, close);
    Assoc3(MemberHead(ms), Text(v), [], post + (tail + close));
    assert Text(v) + ([] + (post + (tail + close))) == Text(v) + (post + (tail + close));
    assert MemberHead(ms) + Text(v) + [] == MemberHead(ms) + Text(v);
    if rest.Member? {
      assert ([COMMA] + MembersText(rest, true)) + close == [COMMA] + (MembersText(rest, true) + close);
    }
  }

  /** One member's text and the rest's, and what starting first changes. */
  lemma MembersTextCases(ms: Members)
    requires ms.Member?
    ensures MembersText(ms, true)
         == [] + MemberText(ms.pre, ms.key, ms.beforeColon, ms.afterColon, ms.value, ms.post) + MembersText(ms.rest, false)
    ensures ms.rest.Member? ==> MembersText(ms.rest, false) == [COMMA] + MembersText(ms.rest, true)
    ensures ms.rest.NoMembers? ==> MembersText(ms.rest, false) == ms.rest.gap
  {
    hide Text, MemberText;
    var rest := ms.rest;
    if rest.Member? {
      var m := MemberText(rest.pre, rest.key, rest.beforeColon, rest.afterColon, rest.value, rest.post);
      assert [COMMA] + m + MembersText(rest.rest, false) == [COMMA] + ([] + m + MembersText(rest.rest, false));
    }
  }

  lemma HeadLength(ms: Members)
    requires ms.Member?
    ensures |MemberHead(ms)| == ValueAt(ms)
  {
  }

  lemma SeparatorClose(s: bytes, n: nat, gap: bytes, after: bytes)
    requires n <= |s| && AllWs(gap) && AllWs(after) && s[n..] == gap + ([RBRACE] + after)
    ensures SeparatorAfter(s, n) == Some((n + |gap|, false))
  {
    hide Ws;
    WsRun(gap, [RBRACE] + after);
    var w := n + |gap|;
    assert s[n..][|gap|..] == s[w..];
    assert s[w] == RBRACE && s[w + 1..] == after;
    WsRun(after, []);
    assert after + [] == after;
  }

  lemma SeparatorComma(s: bytes, n: nat, post: bytes, next: bytes)
    requires n <= |s| && AllWs(post) && s[n..] == post + ([COMMA] + next)
    ensures SeparatorAfter(s, n) == Some((n + |post|, true))
    ensures s[n + |post| + 1..] == next
  {
    hide Ws;
    WsRun(post, [COMMA] + next);
    var w := n + |post|;
    assert s[n..][|post|..] == s[w..];
    assert s[w] == COMMA && s[w + 1..] == next;
  }

  /** One turn of the member loop on valid JSON. */
  lemma {:induction false} TurnExact(ms: Members, after: bytes, at: nat, f: Found)
    requires ms.Member? && WellFormedMembers(ms, true) && AllWs(after)
    ensures (var s := MembersText(ms, true) + ([RBRACE] + after);
             var g := Record(f, ms.key, ms.value, at + ValueAt(ms));
             if !MemberRoutable(ms.key, ms.value) then Turn(s, at, f).None?
             else if ms.rest.NoMembers? then
               Turn(s, at, f).Some? && Turn(s, at, f).value.1 == false && Turn(s, at, f).value.2 == g
             else
               Turn(s, at, f) == Some((MemberSpan(ms) + 1, true, g)))
  {
    hide OneMember, MembersText, Text, SeparatorAfter, FromText;
    var v, post, rest := ms.value, ms.post, ms.rest;
    var close := [RBRACE] + after;
    MembersLayout(ms, close);
    var s := MembersText(ms, true) + close;
    var tail := post + (MembersText(rest, false) + close);
    EndOfMember(post, rest, close);
    OneMemberExact(ms.pre, ms.key, ms.beforeColon, ms.afterColon, v, tail, at, f);
    if MemberRoutable(ms.key, v) {
      var n := ValueAt(ms) + |Text(v)|;
      assert s[n..] == tail;
      if rest.NoMembers? {
        assert tail == (post + rest.gap) + close;
        SeparatorClose(s, n, post + rest.gap, after);
      } else {
        SeparatorComma(s, n, post, MembersText(rest, true) + close);
      }
    }
  }

  lemma EndOfMember(post: bytes, rest: Members, close: bytes)
    requires AllWs(post) && WellFormedMembers(rest, false) && close != [] && close[0] == RBRACE
    ensures EndsNumber(post + (MembersText(rest, false) + close))
  {
    match rest
    case NoMembers(gap) =>
    case Member(_, _, _, _, _, _, _) =>
      assert MembersText(rest, false)[0] == COMMA;
  }

  lemma PointsAfter(whole: bytes, at: nat, ms: Members, close: bytes, f: Found, m: Option<bytes>)
    requires ms.Member? && at <= |whole| && whole[at..] == MembersText(ms, true) + close
    requires MemberRoutable(ms.key, ms.value)
    requires Points(whole, f.model, m)
    ensures Points(whole, Record(f, ms.key, ms.value, at + ValueAt(ms)).model,
                   if ms.key == MODEL_KEY then Some(ms.value.body) else m)
    ensures ms.rest.Member? ==>
              at + MemberSpan(ms) < |whole| && whole[at + MemberSpan(ms) + 1..] == MembersText(ms.rest, true) + close
  {
    hide MembersText;
    MembersLayout(ms, close);
    var s := whole[at..];
    var v0 := ValueAt(ms);
    var n := v0 + |Text(ms.value)|;
    assert s[v0..n] == Text(ms.value);
    assert whole[at + v0..at + n] == s[v0..n];
    if ms.rest.Member? {
      var next := MembersText(ms.rest, true) + close;
      assert s[MemberSpan(ms) + 1..] == next;
      assert whole[at + MemberSpan(ms) + 1..] == s[MemberSpan(ms) + 1..];
    }
  }

  lemma {:induction false} AllMembersExact(whole: bytes, at: nat, ms: Members, after: bytes, f: Found, m: Option<bytes>)
    requires ms.Member? && WellFormedMembers(ms, true) && AllWs(after)
    requires at <= |whole| && whole[at..] == MembersText(ms, true) + ([RBRACE] + after)
    requires Points(whole, f.model, m)
    ensures AllMembers(whole[at..], at, f).Some? <==> Routable(ms)
    ensures Routable(ms) ==>
              (var g := AllMembers(whole[at..], at, f).value;
               && Points(whole, g.model, LastModel(ms, m)) && g.stream == LastStream(ms, f.stream)
               && g.model == LastSpan(ms, at, f.model))
    decreases ms
  {
    hide Turn, MembersText, Text, Points, LastSpan, LastModel, LastStream, Routable, MemberSpan, ValueAt;
    TurnExact(ms, after, at, f);
    MemberStep(ms, at, f, m);
    if MemberRoutable(ms.key, ms.value) {
      var g := Record(f, ms.key, ms.value, at + ValueAt(ms));
      PointsAfter(whole, at, ms, [RBRACE] + after, f, m);
      if ms.rest.Member? {
        assert whole[at..][MemberSpan(ms) + 1..] == whole[at + MemberSpan(ms) + 1..];
        AllMembersExact(whole, at + MemberSpan(ms) + 1, ms.rest, after, g,
                        if ms.key == MODEL_KEY then Some(ms.value.body) else m);
      }
    }
  }

  /** One member's part in what the members say. */
  lemma MemberStep(ms: Members, at: nat, f: Found, m: Option<bytes>)
    requires ms.Member?
    ensures Routable(ms) <==> MemberRoutable(ms.key, ms.value) && Routable(ms.rest)
    ensures MemberRoutable(ms.key, ms.value) ==>
              (var g := Record(f, ms.key, ms.value, at + ValueAt(ms));
               && LastSpan(ms, at, f.model) == LastSpan(ms.rest, at + MemberSpan(ms) + 1, g.model)
               && LastModel(ms, m) == LastModel(ms.rest, if ms.key == MODEL_KEY then Some(ms.value.body) else m)
               && LastStream(ms, f.stream) == LastStream(ms.rest, g.stream))
    ensures ms.rest.NoMembers? ==>
              && Routable(ms.rest)
              && (forall n: nat, earlier :: LastSpan(ms.rest, n, earlier) == earlier)
              && (forall earlier :: LastModel(ms.rest, earlier) == earlier)
              && (forall earlier :: LastStream(ms.rest, earlier) == earlier)
  {
    hide Text;
  }

  /**
   The probe on a valid JSON text. It answers exactly when the text is an object whose members are
   routable and whose last `model` spells scalar values, and then reports the text of those values, where
   that very member's value stands, and the last `stream`.
   */
  lemma ProbeExact(doc: Document)
    requires doc.Valid()
    ensures Probe(doc.Spelling()).Some? <==>
              && doc.root.Obj?
              && Routable(doc.root.members)
              && LastModel(doc.root.members, None).Some?
              && Readable(LastModel(doc.root.members, None).value)
    ensures Probe(doc.Spelling()).Some? ==>
              (var p := Probe(doc.Spelling()).value;
               var body := LastModel(doc.root.members, None).value;
               && Says(body, p.model)
               && Some(p.span) == ModelSpan(doc)
               && Points(doc.Spelling(), Some(p.span), Some(body))
               && p.stream == LastStream(doc.root.members, None))
  {
    hide FoundIn, DecodeString, StringToken, Text, Points, Says, Readable;
    var whole := doc.Spelling();
    if doc.root.Obj? {
      ObjectFound(doc);
      if LastModel(doc.root.members, None).Some? {
        ReadableIff(LastModel(doc.root.members, None).value);
      }
      if FoundIn(whole).Some? && FoundIn(whole).value.model.Some? {
        FoundSpan(whole);
        PointsSome(whole, FoundIn(whole).value.model, LastModel(doc.root.members, None));
      } else if FoundIn(whole).Some? {
        PointsNone(whole, LastModel(doc.root.members, None));
      }
    } else {
      NotAnObject(doc);
    }
  }

  lemma PointsSome(whole: bytes, span: Option<(nat, nat)>, body: Option<bytes>)
    requires Points(whole, span, body) && span.Some? && SpanOf(whole, span.value)
    ensures body.Some? && TokenBody(whole, span.value) == body.value
  {
    hide StringToken;
    var token := whole[span.value.0..span.value.1];
    assert token[1..|token| - 1] == body.value;
    assert token[1..|token| - 1] == TokenBody(whole, span.value);
  }

  lemma PointsNone(whole: bytes, body: Option<bytes>)
    requires Points(whole, None, body)
    ensures body.None?
  {
  }

  lemma NotAnObject(doc: Document)
    requires doc.Valid() && !doc.root.Obj?
    ensures FoundIn(doc.Spelling()).None?
  {
    hide AllMembers, Ws, Text;
    TextStartsValue(doc.root);
    var t := Text(doc.root) + doc.after;
    assert doc.Spelling() == doc.before + t;
    assert t[0] == Text(doc.root)[0];
    WsRun(doc.before, t);
    assert doc.Spelling()[|doc.before|] == t[0];
  }

  lemma BareMember(pre: bytes, ms: Members)
    requires ms.Member? && ms.pre == []
    ensures MembersText(ms.(pre := pre), true) == pre + MembersText(ms, true)
    ensures MembersText(ms, true) != [] && MembersText(ms, true)[0] == QUOTE
  {
    var Member(_, key, bc, ac, v, post, rest) := ms;
    assert MembersText(ms, true) == [] + MemberText([], key, bc, ac, v, post) + MembersText(rest, false);
    assert MembersText(ms.(pre := pre), true) == [] + MemberText(pre, key, bc, ac, v, post) + MembersText(rest, false);
    assert MemberText(pre, key, bc, ac, v, post) == pre + MemberText([], key, bc, ac, v, post);
  }

  /** An object's text: what is before its members, and they. */
  lemma ObjectInside(doc: Document)
    requires doc.Valid() && doc.root.Obj?
    ensures (var whole, w := doc.Spelling(), |doc.before|;
             && w < |whole| && Ws(whole) == w && whole[w] == LBRACE
             && whole[w + 1..] == MembersText(doc.root.members, true) + ([RBRACE] + doc.after))
    ensures WellFormedMembers(doc.root.members, true)
  {
    hide Ws, MembersText, WellFormedMembers;
    var t := [LBRACE] + (MembersText(doc.root.members, true) + ([RBRACE] + doc.after));
    assert doc.Spelling() == doc.before + t;
    WsRun(doc.before, t);
    assert (doc.before + t)[|doc.before| + 1..] == t[1..];
  }

  lemma NothingFoundIn(doc: Document)
    requires doc.Valid() && doc.root.Obj? && doc.root.members.NoMembers?
    ensures FoundIn(doc.Spelling()).None?
  {
    hide AllMembers, Ws;
    ObjectInside(doc);
    var whole, w, gap := doc.Spelling(), |doc.before|, doc.root.members.gap;
    WsRun(gap, [RBRACE] + doc.after);
    assert whole[w + 1..][|gap|] == RBRACE;
  }

  /** Where the first member's key is, and everything after it. */
  lemma FirstKey(doc: Document)
    requires doc.Valid() && doc.root.Obj? && doc.root.members.Member?
    ensures (var whole, ms := doc.Spelling(), doc.root.members;
             var at := |doc.before| + 1 + |ms.pre|;
             && at < |whole| && whole[at..] == MembersText(ms.(pre := []), true) + ([RBRACE] + doc.after)
             && FoundIn(whole) == AllMembers(whole[at..], at, Found(None, None))
             && WellFormedMembers(ms.(pre := []), true))
  {
    hide AllMembers, Ws, MembersText, Text, IsStringBody;
    ObjectInside(doc);
    var whole, ms := doc.Spelling(), doc.root.members;
    var w := |doc.before|;
    var bare := ms.(pre := []);
    var tail := MembersText(bare, true) + ([RBRACE] + doc.after);
    BareMember(ms.pre, bare);
    assert bare.(pre := ms.pre) == ms;
    assert whole[w + 1..] == ms.pre + tail;
    assert tail[0] == QUOTE;
    WsRun(ms.pre, tail);
    Halves(ms.pre, tail);
    assert whole[w + 1..][|ms.pre|..] == whole[w + 1 + |ms.pre|..];
  }

  lemma ObjectFound(doc: Document)
    requires doc.Valid() && doc.root.Obj?
    ensures FoundIn(doc.Spelling()).Some? <==> doc.root.members.Member? && Routable(doc.root.members)
    ensures FoundIn(doc.Spelling()).Some? ==>
              (var g := FoundIn(doc.Spelling()).value;
               && Points(doc.Spelling(), g.model, LastModel(doc.root.members, None))
               && g.model == ModelSpan(doc)
               && g.stream == LastStream(doc.root.members, None))
  {
    hide AllMembers, FoundIn, MembersText, WellFormedMembers, LastSpan, AllWs;
    var ms := doc.root.members;
    if ms.NoMembers? {
      NothingFoundIn(doc);
    } else {
      FirstKey(doc);
      var at := |doc.before| + 1 + |ms.pre|;
      var bare := ms.(pre := []);
      AllMembersExact(doc.Spelling(), at, bare, doc.after, Found(None, None), None);
      BareSpan(ms.pre, bare, |doc.before| + 1);
      assert bare.(pre := ms.pre) == ms;
    }
  }

  /** Whitespace before the first key counts towards where the members start or towards the first of them. */
  lemma BareSpan(pre: bytes, ms: Members, at: nat)
    requires ms.Member? && ms.pre == []
    ensures LastSpan(ms.(pre := pre), at, None) == LastSpan(ms, at + |pre|, None)
  {
    hide Text;
  }
}
