/**
 A full reading of JSON text, as the general-purpose parser behind the gateway gives it, and what
 it says about derivations: it inverts `Text`, so the grammar is unambiguous.
 */
module JsonParse {
  import opened Wrappers
  import opened Bytes
  import opened JsonStrings
  import opened JsonGrammar
  import opened JsonScan
  import opened JsonAgreement

  /** The value a text stands for; numbers keep their spelling and members their order. */
  datatype Json =
    | JNull
    | JBool(b: bool)
    | JNumber(digits: bytes)
    | JString(s: bytes)
    | JArray(items: seq<Json>)
    | JObject(members: seq<Entry>)

  datatype Entry = Entry(key: bytes, value: Json)

  /** The value of a derivation; `None` if a string in it cannot be decoded. */
  function Denote(t: Tree): Option<Json> {
    match t
    case Lit(True) => Some(JBool(true))
    case Lit(False) => Some(JBool(false))
    case Lit(Null) => Some(JNull)
    case Num(d) => Some(JNumber(d))
    case Str(b) => (var s :- DecodeString(b); Some(JString(s)))
    case Arr(items) => (var js :- DenoteItems(items); Some(JArray(js)))
    case Obj(members) => (var ms :- DenoteMembers(members); Some(JObject(ms)))
  }

  function DenoteItems(it: Items): Option<seq<Json>> {
    match it
    case NoItems(_) => Some([])
    case Item(_, v, _, rest) =>
      var j :- Denote(v);
      var js :- DenoteItems(rest);
      Some([j] + js)
  }

  function DenoteMembers(ms: Members): Option<seq<Entry>> {
    match ms
    case NoMembers(_) => Some([])
    case Member(_, key, _, _, v, _, rest) =>
      var k :- DecodeString(key);
      var j :- Denote(v);
      var js :- DenoteMembers(rest);
      Some([Entry(k, j)] + js)
  }

  // ----- recursive descent; each function returns what it read and how many bytes that took

  function ParseTree(s: bytes): (r: Option<(Tree, nat)>)
    ensures r.Some? ==> 0 < r.value.1 <= |s|
    decreases |s|, 0
  {
    if s == [] then None
    else if s[0] == QUOTE then
      var n :- StringToken(s);
      if IsStringBody(s[1..n - 1]) then Some((Str(s[1..n - 1]), n)) else None
    else if s[0] == LBRACKET then
      var (items, n) :- ParseItems(s[1..], true);
      Some((Arr(items), 1 + n))
    else if s[0] == LBRACE then
      var (members, n) :- ParseMembers(s[1..], true);
      Some((Obj(members), 1 + n))
    else if TRUE_TEXT <= s then Some((Lit(True), |TRUE_TEXT|))
    else if FALSE_TEXT <= s then Some((Lit(False), |FALSE_TEXT|))
    else if NULL_TEXT <= s then Some((Lit(Null), |NULL_TEXT|))
    else
      var n :- NumberLength(s);
      Some((Num(s[..n]), n))
  }

  /** What follows an item or member that ends at `n`: the whitespace, and whether it is a comma or `close`. */
  function After(s: bytes, n: nat, close: byte): (r: Option<(bytes, bool)>)
    requires n <= |s|
    ensures r.Some? ==> n + |r.value.0| < |s|
  {
    var k := Ws(s[n..]);
    if n + k >= |s| then None
    else if s[n + k] == COMMA then Some((s[n..n + k], true))
    else if s[n + k] == close then Some((s[n..n + k], false))
    else None
  }

  /** One item and what follows it: the item alone, whether another comes, and how far this went. */
  function ParseItem(s: bytes): (r: Option<(Items, bool, nat)>)
    ensures r.Some? ==> 0 < r.value.2 <= |s| && r.value.0.Item?
    decreases |s|, 1
  {
    var w := Ws(s);
    var (v, k) :- ParseTree(s[w..]);
    var (post, more) :- After(s, w + k, RBRACKET);
    Some((Item(s[..w], v, post, NoItems([])), more, w + k + |post| + 1))
  }

  predicate ClosesAtOnce(s: bytes, close: byte) {
    Ws(s) < |s| && s[Ws(s)] == close
  }

  function ParseItems(s: bytes, first: bool): (r: Option<(Items, nat)>)
    ensures r.Some? ==> 0 < r.value.1 <= |s|
    decreases |s|, 2
  {
    if first && ClosesAtOnce(s, RBRACKET) then Some((NoItems(s[..Ws(s)]), Ws(s) + 1))
    else
      var (item, more, e) :- ParseItem(s);
      if more then
        var (rest, n) :- ParseItems(s[e..], false);
        Some((item.(rest := rest), e + n))
      else Some((item, e))
  }

  /** Whitespace, a key's body, and where the key ends. */
  function ParseKey(s: bytes): (r: Option<(bytes, bytes, nat)>)
    ensures r.Some? ==> 0 < r.value.2 <= |s|
  {
    var w := Ws(s);
    var k :- StringToken(s[w..]);
    var body := s[w..][1..k - 1];
    if IsStringBody(body) then Some((s[..w], body, w + k)) else None
  }

  /** A colon with the whitespace around it, and where the value starts. */
  function ParseColon(s: bytes, n: nat): (r: Option<(bytes, bytes, nat)>)
    requires n <= |s|
    ensures r.Some? ==> n < r.value.2 <= |s|
  {
    var c := n + Ws(s[n..]);
    if c >= |s| || s[c] != COLON then None
    else
      var v := c + 1 + Ws(s[c + 1..]);
      Some((s[n..c], s[c + 1..v], v))
  }

  function ParseMember(s: bytes): (r: Option<(Members, bool, nat)>)
    ensures r.Some? ==> 0 < r.value.2 <= |s| && r.value.0.Member?
    decreases |s|, 1
  {
    var (pre, key, n) :- ParseKey(s);
    var (bc, ac, at) :- ParseColon(s, n);
    var (v, k) :- ParseTree(s[at..]);
    var (post, more) :- After(s, at + k, RBRACE);
    Some((Member(pre, key, bc, ac, v, post, NoMembers([])), more, at + k + |post| + 1))
  }

  function ParseMembers(s: bytes, first: bool): (r: Option<(Members, nat)>)
    ensures r.Some? ==> 0 < r.value.1 <= |s|
    decreases |s|, 2
  {
    if first && ClosesAtOnce(s, RBRACE) then Some((NoMembers(s[..Ws(s)]), Ws(s) + 1))
    else
      var (member, more, e) :- ParseMember(s);
      if more then
        var (rest, n) :- ParseMembers(s[e..], false);
        Some((member.(rest := rest), e + n))
      else Some((member, e))
  }

  function ParseDocument(s: bytes): Option<Document> {
    var w := Ws(s);
    var (t, n) :- ParseTree(s[w..]);
    var e := w + n;
    if e + Ws(s[e..]) == |s| then Some(Document(s[..w], t, s[e..])) else None
  }

  /** The value of a whole JSON text. */
  function Parse(s: bytes): Option<Json> {
    var doc :- ParseDocument(s);
    Denote(doc.root)
  }

  // ----- numbers

  lemma {:induction false} DigitsAppend(a: bytes, rest: bytes)
    requires rest == [] || !IsDigit(rest[0])
    ensures Digits(a + rest) == Digits(a)
  {
    if a == [] {
      assert a + rest == rest;
    } else if IsDigit(a[0]) {
      DigitsAppend(a[1..], rest);
      assert (a + rest)[1..] == a[1..] + rest;
    }
  }

  lemma IntPartAppend(a: bytes, rest: bytes)
    requires rest == [] || !IsDigit(rest[0])
    requires IntPart(a).Some?
    ensures IntPart(a + rest) == IntPart(a)
  {
    var sign := if a[0] == MINUS then 1 else 0;
    DigitsAppend(a[sign..], rest);
    assert (a + rest)[sign..] == a[sign..] + rest;
  }

  lemma FracPartAppend(a: bytes, rest: bytes)
    requires EndsNumber(rest) && FracPart(a).Some?
    ensures FracPart(a + rest) == FracPart(a)
  {
    if a == [] {
      assert a + rest == rest;
    } else if a[0] == DOT {
      DigitsAppend(a[1..], rest);
      assert (a + rest)[1..] == a[1..] + rest;
    }
  }

  lemma ExpPartAppend(a: bytes, rest: bytes)
    requires EndsNumber(rest) && ExpPart(a).Some?
    ensures ExpPart(a + rest) == ExpPart(a)
  {
    if a == [] {
      assert a + rest == rest;
    } else if a[0] == EXP_LOWER || a[0] == EXP_UPPER {
      assert |a| >= 2;
      var sign := if a[1] == PLUS || a[1] == MINUS then 1 else 0;
      DigitsAppend(a[1 + sign..], rest);
      assert (a + rest)[1 + sign..] == a[1 + sign..] + rest;
    }
  }

  /** A number is read to its end when nothing after it could continue it. */
  lemma NumberAppend(d: bytes, rest: bytes)
    requires IsNumber(d) && EndsNumber(rest)
    ensures NumberLength(d + rest) == Some(|d|)
  {
    hide IntPart, FracPart, ExpPart;
    var a := IntPart(d).value;
    var b := FracPart(d[a..]).value;
    IntPartAppend(d, rest);
    assert (d + rest)[a..] == d[a..] + rest;
    FracPartAppend(d[a..], rest);
    assert (d + rest)[a + b..] == d[a + b..] + rest;
    ExpPartAppend(d[a + b..], rest);
  }

  lemma {:induction false} DigitsPrefix(s: bytes, n: nat)
    requires Digits(s) <= n <= |s|
    ensures Digits(s[..n]) == Digits(s)
  {
    if s != [] && IsDigit(s[0]) {
      DigitsPrefix(s[1..], n - 1);
      assert s[..n][1..] == s[1..][..n - 1];
    }
  }

  /** What was read as a number is one. */
  lemma NumberPrefix(s: bytes)
    requires NumberLength(s).Some?
    ensures IsNumber(s[..NumberLength(s).value])
  {
    hide IntPart, FracPart, ExpPart;
    var a := IntPart(s).value;
    var b := FracPart(s[a..]).value;
    var c := ExpPart(s[a + b..]).value;
    var n := a + b + c;
    var t := s[..n];
    IntPrefix(s, n);
    assert t[a..] == s[a..][..n - a];
    FracPrefix(s[a..], n - a);
    assert t[a + b..] == s[a + b..][..c];
    ExpPrefix(s[a + b..], c);
  }

  lemma IntPrefix(s: bytes, n: nat)
    requires IntPart(s).Some? && IntPart(s).value <= n <= |s|
    ensures IntPart(s[..n]) == IntPart(s)
  {
    var sign := if s[0] == MINUS then 1 else 0;
    assert s[..n][sign..] == s[sign..][..n - sign];
    var u := s[sign..];
    if u[0] == 0x30 {
      assert u[..n - sign][0] == 0x30;
    } else {
      DigitsPrefix(u, n - sign);
    }
  }

  lemma FracPrefix(s: bytes, n: nat)
    requires FracPart(s).Some? && FracPart(s).value <= n <= |s|
    ensures FracPart(s[..n]) == FracPart(s)
  {
    if s != [] && s[0] == DOT {
      assert s[..n][1..] == s[1..][..n - 1];
      DigitsPrefix(s[1..], n - 1);
    }
  }

  lemma ExpPrefix(s: bytes, n: nat)
    requires ExpPart(s) == Some(n)
    ensures ExpPart(s[..n]) == ExpPart(s)
  {
    if s != [] && (s[0] == EXP_LOWER || s[0] == EXP_UPPER) {
      var sign := if |s| >= 2 && (s[1] == PLUS || s[1] == MINUS) then 1 else 0;
      assert s[..n][1 + sign..] == s[1 + sign..][..n - 1 - sign];
      DigitsPrefix(s[1 + sign..], n - 1 - sign);
    }
  }

  // ----- completeness: the parser finds every derivation

  lemma AfterExact(s: bytes, n: nat, post: bytes, c: byte, rest: bytes, close: byte)
    requires n <= |s| && s[n..] == post + ([c] + rest)
    requires AllWs(post) && (c == COMMA || c == close) && !IsWs(c)
    ensures After(s, n, close) == Some((post, c == COMMA))
    ensures s[n + |post| + 1..] == rest
  {
    hide Ws;
    WsRun(post, [c] + rest);
    var w := n + |post|;
    assert s[n..][|post|..] == s[w..];
    assert s[n..w] == s[n..][..|post|] == post;
    assert s[w] == c && s[w + 1..] == rest;
  }

  lemma ParseNumberText(d: bytes, rest: bytes)
    requires IsNumber(d) && EndsNumber(rest) && d != [] && (d[0] == MINUS || IsDigit(d[0]))
    ensures ParseTree(d + rest) == Some((Num(d), |d|))
  {
    hide NumberLength;
    NumberAppend(d, rest);
    Halves(d, rest);
    assert (d + rest)[0] == d[0];
  }

  lemma ParseStringText(b: bytes, rest: bytes)
    requires IsStringBody(b)
    ensures ParseTree(StringText(b) + rest) == Some((Str(b), |b| + 2))
  {
    hide StringToken, IsStringBody;
    TokenExact(b, rest);
    assert (StringText(b) + rest)[1..|b| + 1] == b;
  }

  lemma {:induction false} ParseBracket(inner: bytes)
    ensures ParseTree([LBRACKET] + inner)
         == match ParseItems(inner, true)
            case Some(r) => Some((Arr(r.0), 1 + r.1))
            case None => None
    ensures ParseTree([LBRACE] + inner)
         == match ParseMembers(inner, true)
            case Some(r) => Some((Obj(r.0), 1 + r.1))
            case None => None
  {
    hide ParseItems, ParseMembers;
    Halves([LBRACKET], inner);
    Halves([LBRACE], inner);
  }

  lemma ParseLiteralText(l: Literal, rest: bytes)
    ensures ParseTree(LiteralText(l) + rest) == Some((Lit(l), |LiteralText(l)|))
  {
    hide NumberLength, StringToken;
    assert LiteralText(l) <= LiteralText(l) + rest;
  }

  lemma ParseArrText(items: Items, rest: bytes)
    requires ParseItems(ItemsText(items, true) + ([RBRACKET] + rest), true) == Some((items, |ItemsText(items, true)| + 1))
    ensures ParseTree(Text(Arr(items)) + rest) == Some((Arr(items), |Text(Arr(items))|))
  {
    hide ParseItems, ParseTree, ItemsText;
    var inner := ItemsText(items, true) + ([RBRACKET] + rest);
    assert Text(Arr(items)) + rest == [LBRACKET] + inner;
    ParseBracket(inner);
  }

  lemma ParseObjText(members: Members, rest: bytes)
    requires ParseMembers(MembersText(members, true) + ([RBRACE] + rest), true) == Some((members, |MembersText(members, true)| + 1))
    ensures ParseTree(Text(Obj(members)) + rest) == Some((Obj(members), |Text(Obj(members))|))
  {
    hide ParseMembers, ParseTree, MembersText;
    var inner := MembersText(members, true) + ([RBRACE] + rest);
    assert Text(Obj(members)) + rest == [LBRACE] + inner;
    ParseBracket(inner);
  }

  /** Text from the front of any well-formed derivation parses back to that derivation. */
  lemma {:induction false} ParseTreeText(t: Tree, rest: bytes)
    requires WellFormed(t) && (t.Num? ==> EndsNumber(rest))
    ensures ParseTree(Text(t) + rest) == Some((t, |Text(t)|))
    decreases t, 0
  {
    hide ParseTree, ParseItems, ParseMembers, IsStringBody, ItemsText, MembersText;
    match t
    case Lit(l) => ParseLiteralText(l, rest);
    case Num(d) =>
      TextStartsValue(t);
      ParseNumberText(d, rest);
    case Str(b) => ParseStringText(b, rest);
    case Arr(items) =>
      ParseItemsText(items, true, rest);
      ParseArrText(items, rest);
    case Obj(members) =>
      ParseMembersText(members, true, rest);
      ParseObjText(members, rest);
  }

  lemma ItemsLayout(it: Items, close: bytes)
    requires it.Item?
    ensures ItemsText(it, true) + close
         == it.pre + (Text(it.value) + (it.post + (ItemsText(it.rest, false) + close)))
    ensures |ItemsText(it, true)| == ItemSpan(it) + |ItemsText(it.rest, false)|
    ensures it.rest.Item? ==> ItemsText(it.rest, false) + close == [COMMA] + (ItemsText(it.rest, true) + close)
    ensures it.rest.Item? ==> |ItemsText(it.rest, false)| == 1 + |ItemsText(it.rest, true)|
    ensures it.rest.NoItems? ==> ItemsText(it.rest, false) == it.rest.gap
  {
    ItemsUnfold(it, true, close);
    Assoc3(it.pre, Text(it.value), it.post, ItemsText(it.rest, false) + close);
    assert [] + it.pre == it.pre;
    if it.rest.Item? {
      CommaFirst(it.rest);
      assert ([COMMA] + ItemsText(it.rest, true)) + close == [COMMA] + (ItemsText(it.rest, true) + close);
    }
  }

  lemma CommaFirst(it: Items)
    requires it.Item?
    ensures ItemsText(it, false) == [COMMA] + ItemsText(it, true)
  {
    var m, rest := it.pre + Text(it.value) + it.post, ItemsText(it.rest, false);
    assert ItemsText(it, false) == [COMMA] + m + rest && ItemsText(it, true) == [] + m + rest;
  }

  function ItemSpan(it: Items): nat
    requires it.Item?
  {
    |it.pre| + |Text(it.value)| + |it.post|
  }

  lemma {:induction false} ParseItemsText(it: Items, first: bool, rest: bytes)
    requires WellFormedItems(it, first) && (first || it.Item?)
    ensures ParseItems(ItemsText(it, true) + ([RBRACKET] + rest), first) == Some((it, |ItemsText(it, true)| + 1))
    decreases it, 1
  {
    hide ParseItem, ParseItems, Text, ClosesAtOnce, ItemsText, AllWs;
    match it
    case NoItems(gap) =>
      EmptyItems(gap, rest);
      ParseNoItems(gap, rest);
    case Item(pre, v, post, more) =>
      ItemsRestEnds(it, rest);
      ParseTreeText(v, post + ItemsRest(it, rest));
      if more.Item? {
        ParseItemsText(more, false, rest);
      }
      ParseItemsCons(it, first, rest);
  }

  /** What follows an item: its separator and everything after it. */
  function ItemsRest(it: Items, rest: bytes): bytes
    requires it.Item?
  {
    if it.rest.Item? then [COMMA] + (ItemsText(it.rest, true) + ([RBRACKET] + rest)) else [RBRACKET] + rest
  }

  /** No number goes on into what follows an item. */
  lemma ItemsRestEnds(it: Items, rest: bytes)
    requires it.Item? && AllWs(it.post)
    ensures EndsNumber(it.post + ItemsRest(it, rest))
  {
  }

  lemma ParseNoItems(gap: bytes, rest: bytes)
    requires (var s := ItemsText(NoItems(gap), true) + ([RBRACKET] + rest);
              ClosesAtOnce(s, RBRACKET) && Ws(s) == |gap| && s[..|gap|] == gap)
    requires |ItemsText(NoItems(gap), true)| == |gap|
    ensures ParseItems(ItemsText(NoItems(gap), true) + ([RBRACKET] + rest), true) == Some((NoItems(gap), |gap| + 1))
  {
    hide ParseItem, ClosesAtOnce, ItemsText;
  }

  /** An item, its separator, and the items after it. */
  lemma ParseItemsCons(it: Items, first: bool, rest: bytes)
    requires it.Item? && WellFormedItems(it, first)
    requires ParseTree(Text(it.value) + (it.post + ItemsRest(it, rest))) == Some((it.value, |Text(it.value)|))
    requires it.rest.Item? ==>
               ParseItems(ItemsText(it.rest, true) + ([RBRACKET] + rest), false) == Some((it.rest, |ItemsText(it.rest, true)| + 1))
    ensures ParseItems(ItemsText(it, true) + ([RBRACKET] + rest), first) == Some((it, |ItemsText(it, true)| + 1))
  {
    hide ParseItem, ParseTree, Text, ClosesAtOnce, ItemsText, WellFormed;
    var close := [RBRACKET] + rest;
    var s := ItemsText(it, true) + close;
    ItemsLayout(it, close);
    var more := it.rest;
    var next := if more.Item? then ItemsText(more, true) + close else rest;
    var c := if more.Item? then COMMA else RBRACKET;
    assert more.NoItems? ==> more.gap == [] && [] + close == close;
    ParseOneItem(s, it, c, next);
  }

  lemma EmptyItems(gap: bytes, rest: bytes)
    requires AllWs(gap)
    ensures (var s := ItemsText(NoItems(gap), true) + ([RBRACKET] + rest);
             ClosesAtOnce(s, RBRACKET) && Ws(s) == |gap| && s[..|gap|] == gap && |ItemsText(NoItems(gap), true)| == |gap|)
  {
    hide Ws;
    WsRun(gap, [RBRACKET] + rest);
  }

  lemma ParseOneItem(s: bytes, it: Items, c: byte, next: bytes)
    requires it.Item? && AllWs(it.pre) && AllWs(it.post) && WellFormed(it.value) && (c == COMMA || c == RBRACKET)
    requires s == it.pre + (Text(it.value) + (it.post + ([c] + next)))
    requires ParseTree(Text(it.value) + (it.post + ([c] + next))) == Some((it.value, |Text(it.value)|))
    ensures !ClosesAtOnce(s, RBRACKET)
    ensures ParseItem(s) == Some((it.(rest := NoItems([])), c == COMMA, ItemSpan(it) + 1))
    ensures s[ItemSpan(it) + 1..] == next
  {
    hide Ws, ParseTree, After, Text, WellFormed;
    TextStartsValue(it.value);
    var t := Text(it.value) + (it.post + ([c] + next));
    assert t[0] == Text(it.value)[0];
    WsRun(it.pre, t);
    Halves(it.pre, t);
    var w := |it.pre|;
    assert s[w] == t[0];
    TailAfter(s, w, Text(it.value), it.post + ([c] + next));
    AfterExact(s, w + |Text(it.value)|, it.post, c, next, RBRACKET);
  }

  lemma {:induction false} ParseKeyExact(pre: bytes, key: bytes, rest: bytes)
    requires AllWs(pre) && IsStringBody(key)
    ensures (var s := pre + (StringText(key) + rest);
             var n := |pre| + |key| + 2;
             ParseKey(s) == Some((pre, key, n)) && s[n..] == rest && !ClosesAtOnce(s, RBRACE))
  {
    hide Ws, StringToken;
    var t := StringText(key) + rest;
    var s := pre + t;
    WsRun(pre, t);
    var w := |pre|;
    assert s[w..] == t && s[..w] == pre && s[w] == t[0];
    TokenExact(key, rest);
    assert t[1..|key| + 1] == key;
    assert s[w + |key| + 2..] == rest;
  }

  lemma ParseColonExact(s: bytes, n: nat, bc: bytes, ac: bytes, tail: bytes)
    requires AllWs(bc) && AllWs(ac) && tail != [] && !IsWs(tail[0])
    requires n <= |s| && s[n..] == bc + ([COLON] + (ac + tail))
    ensures (var v := n + |bc| + 1 + |ac|;
             ParseColon(s, n) == Some((bc, ac, v)) && s[v..] == tail)
  {
    hide Ws;
    var t3 := [COLON] + (ac + tail);
    WsRun(bc, t3);
    var c := n + |bc|;
    assert s[c..] == s[n..][|bc|..] == t3;
    assert s[n..c] == s[n..][..|bc|] == bc;
    assert s[c] == COLON && s[c + 1..] == t3[1..] == ac + tail;
    WsRun(ac, tail);
    var v := c + 1 + |ac|;
    assert s[c + 1..v] == s[c + 1..][..|ac|] == ac;
    assert s[v..] == s[c + 1..][|ac|..] == tail;
  }

  lemma {:induction false} ParseMembersText(ms: Members, first: bool, rest: bytes)
    requires WellFormedMembers(ms, first) && (first || ms.Member?)
    ensures ParseMembers(MembersText(ms, true) + ([RBRACE] + rest), first) == Some((ms, |MembersText(ms, true)| + 1))
    decreases ms, 1
  {
    hide ParseMember, ParseMembers, Text, ClosesAtOnce, MembersText, AllWs, IsStringBody;
    match ms
    case NoMembers(gap) =>
      EmptyMembers(gap, rest);
      ParseNoMembers(gap, rest);
    case Member(pre, key, bc, ac, v, post, more) =>
      MembersRestEnds(ms, rest);
      ParseTreeText(v, post + MembersRest(ms, rest));
      if more.Member? {
        ParseMembersText(more, false, rest);
      }
      ParseMembersCons(ms, first, rest);
  }

  /** What follows a member: its separator and everything after it. */
  function MembersRest(ms: Members, rest: bytes): bytes
    requires ms.Member?
  {
    if ms.rest.Member? then [COMMA] + (MembersText(ms.rest, true) + ([RBRACE] + rest)) else [RBRACE] + rest
  }

  lemma MembersRestEnds(ms: Members, rest: bytes)
    requires ms.Member? && AllWs(ms.post)
    ensures EndsNumber(ms.post + MembersRest(ms, rest))
  {
  }

  lemma ParseNoMembers(gap: bytes, rest: bytes)
    requires (var s := MembersText(NoMembers(gap), true) + ([RBRACE] + rest);
              ClosesAtOnce(s, RBRACE) && Ws(s) == |gap| && s[..|gap|] == gap)
    requires |MembersText(NoMembers(gap), true)| == |gap|
    ensures ParseMembers(MembersText(NoMembers(gap), true) + ([RBRACE] + rest), true) == Some((NoMembers(gap), |gap| + 1))
  {
    hide ParseMember, ClosesAtOnce, MembersText;
  }

  /** A member, its separator, and the members after it. */
  lemma ParseMembersCons(ms: Members, first: bool, rest: bytes)
    requires ms.Member? && WellFormedMembers(ms, first)
    requires ParseTree(Text(ms.value) + (ms.post + MembersRest(ms, rest))) == Some((ms.value, |Text(ms.value)|))
    requires ms.rest.Member? ==>
               ParseMembers(MembersText(ms.rest, true) + ([RBRACE] + rest), false)
               == Some((ms.rest, |MembersText(ms.rest, true)| + 1))
    ensures ParseMembers(MembersText(ms, true) + ([RBRACE] + rest), first) == Some((ms, |MembersText(ms, true)| + 1))
  {
    hide ParseMember, ParseTree, Text, ClosesAtOnce, MembersText, WellFormed, IsStringBody;
    var close := [RBRACE] + rest;
    var s := MembersText(ms, true) + close;
    MembersLayout(ms, close);
    MembersSize(ms);
    var more := ms.rest;
    var next := if more.Member? then MembersText(more, true) + close else rest;
    var c := if more.Member? then COMMA else RBRACE;
    assert more.NoMembers? ==> more.gap == [] && [] + close == close;
    ParseOneMember(s, ms, c, next);
  }

  lemma EmptyMembers(gap: bytes, rest: bytes)
    requires AllWs(gap)
    ensures (var s := MembersText(NoMembers(gap), true) + ([RBRACE] + rest);
             ClosesAtOnce(s, RBRACE) && Ws(s) == |gap| && s[..|gap|] == gap && |MembersText(NoMembers(gap), true)| == |gap|)
  {
    hide Ws;
    WsRun(gap, [RBRACE] + rest);
  }

  lemma MembersSize(ms: Members)
    requires ms.Member? && (ms.rest.NoMembers? ==> ms.rest.gap == [])
    ensures |MembersText(ms, true)|
         == MemberSpan(ms) + (if ms.rest.Member? then 1 + |MembersText(ms.rest, true)| else 0)
  {
    hide Text;
    MembersLayout(ms, []);
    assert forall m: bytes :: m + [] == m;
  }

  lemma TailAfter(s: bytes, at: nat, front: bytes, tail: bytes)
    requires at <= |s| && s[at..] == front + tail
    ensures at + |front| <= |s| && s[at + |front|..] == tail
  {
    assert s[at..][|front|..] == s[at + |front|..];
  }

  lemma ParseMemberHead(m: Members, t: bytes)
    requires m.Member? && AllWs(m.pre) && IsStringBody(m.key) && AllWs(m.beforeColon) && AllWs(m.afterColon)
    requires t != [] && !IsWs(t[0])
    ensures (var s := MemberHead(m) + t;
             var n := |m.pre| + |m.key| + 2;
             && !ClosesAtOnce(s, RBRACE)
             && ParseKey(s) == Some((m.pre, m.key, n))
             && ParseColon(s, n) == Some((m.beforeColon, m.afterColon, ValueAt(m)))
             && s[ValueAt(m)..] == t)
  {
    hide ClosesAtOnce, ParseKey, ParseColon, StringText, IsStringBody;
    HeadRegroup(m.pre, m.key, m.beforeColon, m.afterColon, t);
    ParseKeyExact(m.pre, m.key, m.beforeColon + ([COLON] + (m.afterColon + t)));
    ParseColonExact(MemberHead(m) + t, |m.pre| + |m.key| + 2, m.beforeColon, m.afterColon, t);
  }

  lemma {:induction false} ParseOneMember(s: bytes, m: Members, c: byte, next: bytes)
    requires m.Member? && WellFormedMembers(m, true) && (c == COMMA || c == RBRACE)
    requires s == MemberHead(m) + (Text(m.value) + (m.post + ([c] + next)))
    requires ParseTree(Text(m.value) + (m.post + ([c] + next))) == Some((m.value, |Text(m.value)|))
    ensures !ClosesAtOnce(s, RBRACE)
    ensures ParseMember(s) == Some((m.(rest := NoMembers([])), c == COMMA, MemberSpan(m) + 1))
    ensures s[MemberSpan(m) + 1..] == next
  {
    hide ClosesAtOnce, ParseTree, After, ParseKey, ParseColon, Text, StringText, IsStringBody, MemberHead, WellFormed;
    var t := Text(m.value) + (m.post + ([c] + next));
    TextStartsValue(m.value);
    assert t[0] == Text(m.value)[0];
    ParseMemberHead(m, t);
    TailAfter(s, ValueAt(m), Text(m.value), m.post + ([c] + next));
    AfterExact(s, ValueAt(m) + |Text(m.value)|, m.post, c, next, RBRACE);
  }
}
