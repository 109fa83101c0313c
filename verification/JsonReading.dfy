/**
 What a parse means: the parser accepts exactly the grammar, printing is undone by parsing, and
 only a number can be complete JSON before it is finished.
 */
module JsonReading {
  import opened Wrappers
  import opened Bytes
  import opened JsonStrings
  import opened JsonGrammar
  import opened JsonScan
  import opened JsonAgreement
  import opened JsonSplice
  import opened JsonParse

  // ----- soundness: everything the parser accepts is in the grammar

  lemma {:induction false} WsFront(s: bytes)
    ensures AllWs(s[..Ws(s)])
    ensures Ws(s) < |s| ==> !IsWs(s[Ws(s)])
  {
    if s != [] && IsWs(s[0]) {
      WsFront(s[1..]);
      assert s[..Ws(s)] == [s[0]] + s[1..][..Ws(s[1..])];
    }
  }

  lemma TokenText(s: bytes)
    requires StringToken(s).Some?
    ensures StringText(s[1..StringToken(s).value - 1]) == s[..StringToken(s).value]
  {
  }

  lemma {:induction false} ScalarSound(s: bytes)
    requires ParseTree(s).Some? && s[0] != QUOTE && s[0] != LBRACKET && s[0] != LBRACE
    ensures (var (t, n) := ParseTree(s).value; WellFormed(t) && Text(t) == s[..n])
  {
    hide ParseItems, ParseMembers, StringToken, NumberLength, IsStringBody;
    if TRUE_TEXT <= s {
      assert s[..|TRUE_TEXT|] == TRUE_TEXT;
    } else if FALSE_TEXT <= s {
      assert s[..|FALSE_TEXT|] == FALSE_TEXT;
    } else if NULL_TEXT <= s {
      assert s[..|NULL_TEXT|] == NULL_TEXT;
    } else {
      NumberPrefix(s);
    }
  }

  lemma {:induction false} ParseTreeSound(s: bytes)
    requires ParseTree(s).Some?
    ensures (var (t, n) := ParseTree(s).value; WellFormed(t) && Text(t) == s[..n])
    decreases |s|, 0
  {
    hide ParseItems, ParseMembers, StringToken, NumberLength, IsStringBody;
    var (t, n) := ParseTree(s).value;
    if s[0] == QUOTE {
      TokenText(s);
    } else if s[0] == LBRACKET {
      ParseItemsSound(s[1..], true);
      assert Text(t) == [LBRACKET] + (ItemsText(t.items, true) + [RBRACKET]);
      assert s[..n] == [s[0]] + s[1..][..n - 1];
    } else if s[0] == LBRACE {
      ParseMembersSound(s[1..], true);
      assert Text(t) == [LBRACE] + (MembersText(t.members, true) + [RBRACE]);
      assert s[..n] == [s[0]] + s[1..][..n - 1];
    } else {
      ScalarSound(s);
    }
  }

  lemma AfterSound(s: bytes, n: nat, close: byte)
    requires n <= |s| && After(s, n, close).Some?
    ensures (var (post, more) := After(s, n, close).value;
             && AllWs(post)
             && s[n..n + |post| + 1] == post + [if more then COMMA else close])
  {
    hide Ws;
    WsFront(s[n..]);
    var k := Ws(s[n..]);
    assert s[n..][..k] == s[n..n + k];
    assert s[n..n + k + 1] == s[n..n + k] + [s[n + k]];
  }

  /** `s[..c]` is `s[..a]` followed by what stands from `a` to `c`. */
  lemma Cut(s: bytes, a: nat, c: nat)
    requires a <= c <= |s|
    ensures s[..c] == s[..a] + s[a..c]
    ensures s[a..][..c - a] == s[a..c]
  {
  }

  lemma {:induction false} ParseItemSound(s: bytes)
    requires ParseItem(s).Some?
    ensures (var (it, more, e) := ParseItem(s).value;
             && AllWs(it.pre) && WellFormed(it.value) && AllWs(it.post)
             && it.rest == NoItems([])
             && s[..e] == it.pre + (Text(it.value) + (it.post + [if more then COMMA else RBRACKET])))
    decreases |s|, 1
  {
    hide Ws, ParseTree, After, Text, AllWs;
    var w := Ws(s);
    var (v, k) := ParseTree(s[w..]).value;
    var (post, more) := After(s, w + k, RBRACKET).value;
    var e := w + k + |post| + 1;
    ParseTreeSound(s[w..]);
    AfterSound(s, w + k, RBRACKET);
    WsFront(s);
    assert s[..e] == s[..w] + (s[w..w + k] + s[w + k..e]) by {
      Cut(s, w, e);
      Cut(s[w..], k, e - w);
      assert s[w..][k..e - w] == s[w + k..e];
    }
    assert s[w..w + k] == s[w..][..k];
  }

  lemma {:induction false} ParseItemsSound(s: bytes, first: bool)
    requires ParseItems(s, first).Some?
    ensures (var (it, n) := ParseItems(s, first).value;
             && WellFormedItems(it, first) && (first || it.Item?)
             && ItemsText(it, true) + [RBRACKET] == s[..n])
    decreases |s|, 2
  {
    hide Ws, ParseItem, Text;
    var (it, n) := ParseItems(s, first).value;
    if it.NoItems? {
      WsFront(s);
      assert s[..n] == s[..Ws(s)] + [RBRACKET];
    } else {
      ParseItemSound(s);
      var (one, more, e) := ParseItem(s).value;
      ItemsLayout(it, [RBRACKET]);
      if more {
        ParseItemsSound(s[e..], false);
        var (rest, k) := ParseItems(s[e..], false).value;
        Cut(s, e, e + k);
        assert s[..n] == s[..e] + (ItemsText(rest, true) + [RBRACKET]);
        Reassociate(it.pre, Text(it.value), it.post, [COMMA], ItemsText(rest, true) + [RBRACKET]);
      } else {
        assert [] + [RBRACKET] == [RBRACKET];
      }
    }
  }

  lemma Reassociate(a: bytes, b: bytes, c: bytes, d: bytes, e: bytes)
    ensures (a + (b + (c + d))) + e == a + (b + (c + (d + e)))
  {
  }

  lemma ParseKeySound(s: bytes)
    requires ParseKey(s).Some?
    ensures (var (pre, key, n) := ParseKey(s).value;
             AllWs(pre) && IsStringBody(key) && s[..n] == pre + StringText(key))
  {
    hide Ws, StringToken, IsStringBody;
    WsFront(s);
    var w := Ws(s);
    TokenText(s[w..]);
    var n := ParseKey(s).value.2;
    Cut(s, w, n);
  }

  lemma ParseColonSound(s: bytes, n: nat)
    requires n <= |s| && ParseColon(s, n).Some?
    ensures (var (bc, ac, v) := ParseColon(s, n).value;
             AllWs(bc) && AllWs(ac) && s[n..v] == bc + [COLON] + ac)
  {
    hide Ws;
    WsFront(s[n..]);
    var k := Ws(s[n..]);
    var c := n + k;
    assert s[n..][..k] == s[n..c];
    WsFront(s[c + 1..]);
    var v := c + 1 + Ws(s[c + 1..]);
    assert s[c + 1..][..v - c - 1] == s[c + 1..v];
    assert s[n..v] == s[n..c] + [s[c]] + s[c + 1..v];
  }

  lemma {:induction false} ParseMemberSound(s: bytes)
    requires ParseMember(s).Some?
    ensures (var (m, more, e) := ParseMember(s).value;
             && AllWs(m.pre) && IsStringBody(m.key) && AllWs(m.beforeColon) && AllWs(m.afterColon)
             && WellFormed(m.value) && AllWs(m.post) && m.rest == NoMembers([])
             && s[..e] == MemberHead(m) + (Text(m.value) + (m.post + [if more then COMMA else RBRACE])))
    decreases |s|, 1
  {
    hide ParseKey, ParseColon, ParseTree, After, Text, AllWs, IsStringBody;
    var (pre, key, n) := ParseKey(s).value;
    ParseKeySound(s);
    ParseColonSound(s, n);
    var (bc, ac, at) := ParseColon(s, n).value;
    ParseTreeSound(s[at..]);
    var (v, k) := ParseTree(s[at..]).value;
    AfterSound(s, at + k, RBRACE);
    var (m, more, e) := ParseMember(s).value;
    assert s[..at] == MemberHead(m) by {
      Cut(s, n, at);
      assert (pre + StringText(key)) + (bc + [COLON] + ac) == MemberHead(m);
    }
    Cut(s, at, e);
    Cut(s[at..], k, e - at);
    assert s[at..][k..e - at] == s[at + k..e];
  }

  lemma {:induction false} ParseMembersSound(s: bytes, first: bool)
    requires ParseMembers(s, first).Some?
    ensures (var (ms, n) := ParseMembers(s, first).value;
             && WellFormedMembers(ms, first) && (first || ms.Member?)
             && MembersText(ms, true) + [RBRACE] == s[..n])
    decreases |s|, 2
  {
    hide Ws, ParseMember, Text, MembersText, MemberHead;
    var (ms, n) := ParseMembers(s, first).value;
    if ms.NoMembers? {
      WsFront(s);
      EmptyMembers(ms.gap, []);
      EmptyMembersText(ms.gap);
      assert s[..n] == s[..Ws(s)] + [RBRACE];
    } else {
      ParseMemberSound(s);
      var (one, more, e) := ParseMember(s).value;
      assert MemberHead(ms) == MemberHead(one) by { SameHead(ms, one); }
      MembersLayout(ms, [RBRACE]);
      if more {
        ParseMembersSound(s[e..], false);
        var (rest, k) := ParseMembers(s[e..], false).value;
        Cut(s, e, e + k);
        assert s[..n] == s[..e] + (MembersText(rest, true) + [RBRACE]);
        Reassociate(MemberHead(ms), Text(ms.value), ms.post, [COMMA], MembersText(rest, true) + [RBRACE]);
      } else {
        assert [] + [RBRACE] == [RBRACE];
      }
    }
  }

  lemma SameHead(a: Members, b: Members)
    requires a.Member? && b.Member? && a.(rest := b.rest) == b
    ensures MemberHead(a) == MemberHead(b)
  {
  }

  lemma EmptyMembersText(gap: bytes)
    ensures MembersText(NoMembers(gap), true) == gap
  {
  }

  lemma ParsedIsSpelled(s: bytes)
    requires ParseDocument(s).Some?
    ensures (var doc := ParseDocument(s).value; doc.Valid() && doc.Spelling() == s)
  {
    hide Ws, ParseTree, Text;
    var w := Ws(s);
    WsFront(s);
    ParseTreeSound(s[w..]);
    var (t, n) := ParseTree(s[w..]).value;
    var e := w + n;
    WsFront(s[e..]);
    assert s[e..][..|s| - e] == s[e..];
    Cut(s, w, e);
    assert s == s[..e] + s[e..];
    assert s[..w] + Text(t) + s[e..] == s;
  }

  lemma SpelledParses(doc: Document)
    requires doc.Valid()
    ensures ParseDocument(doc.Spelling()) == Some(doc)
  {
    hide Ws, ParseTree, Text;
    var s := doc.Spelling();
    var t := Text(doc.root) + doc.after;
    assert s == doc.before + t;
    TextStartsValue(doc.root);
    assert t[0] == Text(doc.root)[0];
    WsRun(doc.before, t);
    assert s[|doc.before|..] == t && s[..|doc.before|] == doc.before;
    ParseTreeText(doc.root, doc.after);
    var e := |doc.before| + |Text(doc.root)|;
    assert s[e..] == doc.after;
    WsRun(doc.after, []);
    assert doc.after + [] == doc.after;
  }

  /** A text parses to a document exactly when that document is valid and spells it. */
  lemma ParseDocumentIff(s: bytes, doc: Document)
    ensures ParseDocument(s) == Some(doc) <==> doc.Valid() && doc.Spelling() == s
  {
    hide ParseDocument;
    if ParseDocument(s).Some? {
      ParsedIsSpelled(s);
    }
    if doc.Valid() {
      SpelledParses(doc);
    }
  }

  /** A text has a value exactly when some derivation with that value spells it. */
  lemma ParseIff(s: bytes, j: Json)
    ensures Parse(s) == Some(j)
       <==> exists doc: Document :: doc.Valid() && doc.Spelling() == s && Denote(doc.root) == Some(j)
  {
    if Parse(s) == Some(j) {
      var doc := ParseDocument(s).value;
      ParseDocumentIff(s, doc);
    }
    if doc: Document :| doc.Valid() && doc.Spelling() == s && Denote(doc.root) == Some(j) {
      ParseDocumentIff(s, doc);
    }
  }

  // ----- printing

  /** A value the writer can be handed: spelled numbers and UTF-8 strings throughout. */
  ghost predicate Printable(j: Json)
    decreases j, 0
  {
    match j
    case JNumber(d) => IsNumber(d)
    case JString(s) => ValidUtf8(s)
    case JArray(js) => forall i :: 0 <= i < |js| ==> Printable(js[i])
    case JObject(ms) => forall i :: 0 <= i < |ms| ==> ValidUtf8(ms[i].key) && Printable(ms[i].value)
    case _ => true
  }

  /** The derivation the writer spells: no optional whitespace. */
  function Compact(j: Json): Tree
    decreases j, 0
  {
    match j
    case JNull => Lit(Null)
    case JBool(b) => Lit(if b then True else False)
    case JNumber(d) => Num(d)
    case JString(s) => Str(Escape(s))
    case JArray(js) => Arr(CompactItems(js))
    case JObject(ms) => Obj(CompactMembers(ms))
  }

  function CompactItems(js: seq<Json>): Items
    decreases js, 0
  {
    if js == [] then NoItems([]) else Item([], Compact(js[0]), [], CompactItems(js[1..]))
  }

  function CompactMembers(ms: seq<Entry>): Members
    decreases ms, 0
  {
    if ms == [] then NoMembers([])
    else
      var m := ms[0];
      Member([], Escape(m.key), [], [], Compact(m.value), [], CompactMembers(ms[1..]))
  }

  /** The compact text of a value. */
  function Print(j: Json): bytes {
    Text(Compact(j))
  }

  lemma {:induction false} CompactDenotes(j: Json)
    requires Printable(j)
    ensures WellFormed(Compact(j)) && Denote(Compact(j)) == Some(j)
    decreases j, 0
  {
    match j
    case JString(s) =>
      UnescapeEscape(s);
      DecodeEscape(s);
    case JArray(js) => CompactItemsDenote(js, true);
    case JObject(ms) => CompactMembersDenote(ms, true);
    case _ =>
  }

  lemma {:induction false} CompactItemsDenote(js: seq<Json>, first: bool)
    requires forall i :: 0 <= i < |js| ==> Printable(js[i])
    ensures WellFormedItems(CompactItems(js), first) && DenoteItems(CompactItems(js)) == Some(js)
    decreases js, 0
  {
    if js != [] {
      CompactDenotes(js[0]);
      CompactItemsDenote(js[1..], false);
      assert [js[0]] + js[1..] == js;
    }
  }

  lemma {:induction false} CompactMembersDenote(ms: seq<Entry>, first: bool)
    requires forall i :: 0 <= i < |ms| ==> ValidUtf8(ms[i].key) && Printable(ms[i].value)
    ensures WellFormedMembers(CompactMembers(ms), first) && DenoteMembers(CompactMembers(ms)) == Some(ms)
    decreases ms, 0
  {
    if ms != [] {
      var m := ms[0];
      UnescapeEscape(m.key);
      DecodeEscape(m.key);
      CompactDenotes(m.value);
      CompactMembersDenote(ms[1..], false);
      assert [ms[0]] + ms[1..] == ms;
    }
  }

  /** Reading back a printed value gives the value. */
  lemma {:induction false} ParsePrint(j: Json)
    requires Printable(j)
    ensures Parse(Print(j)) == Some(j)
  {
    CompactDenotes(j);
    var doc := Document([], Compact(j), []);
    assert doc.Spelling() == Print(j);
    ParseDocumentIff(Print(j), doc);
  }

  // ----- complete before finished

  lemma TextInjective(a: Tree, b: Tree)
    requires WellFormed(a) && WellFormed(b) && Text(a) == Text(b)
    ensures a == b
  {
    ParseTreeText(a, []);
    ParseTreeText(b, []);
  }

  /** The text from the first byte that is not whitespace. */
  lemma DocumentFront(doc: Document)
    requires doc.Valid()
    ensures (var s := doc.Spelling(); var w := |doc.before|;
             && Ws(s) == w < |s|
             && s[w..] == Text(doc.root) + doc.after
             && s[w] == Text(doc.root)[0])
    ensures Text(doc.root) != []
  {
    TextStartsValue(doc.root);
    var t := Text(doc.root) + doc.after;
    assert doc.Spelling() == doc.before + t;
    assert t[0] == Text(doc.root)[0];
    WsRun(doc.before, t);
  }

  /** Two derivations read from the front of a text and of a prefix of it, neither a number, are the same. */
  lemma {:induction false} SameRoot(a: Tree, aRest: bytes, b: Tree, bRest: bytes)
    requires WellFormed(a) && WellFormed(b) && !b.Num?
    requires Text(a) + aRest <= Text(b) + bRest
    ensures a == b
  {
    hide Nested, StringToken;
    var p, s := Text(a) + aRest, Text(b) + bRest;
    TextStartsValue(a);
    TextStartsValue(b);
    assert p[0] == Text(a)[0] && s[0] == Text(b)[0] && p[0] == s[0];
    match b
    case Lit(_) =>
    case Str(y) =>
      TokenExact(a.body, aRest);
      TokenExact(y, bRest);
      assert SameFront(p, s, |a.body| + 2);
      StringTokenLocal(p, s);
      assert Text(a) == p[..|Text(a)|] && Text(b) == s[..|Text(b)|];
      TextInjective(a, b);
    case Arr(ys) =>
      NestedArray(a.items, aRest, 0);
      NestedArray(ys, bRest, 0);
      assert SameFront(p, s, |Text(a)|);
      NestedLocal(p, s, 0);
      assert Text(a) == p[..|Text(a)|] && Text(b) == s[..|Text(b)|];
      TextInjective(a, b);
    case Obj(ys) =>
      NestedObject(a.members, aRest, 0);
      NestedObject(ys, bRest, 0);
      assert SameFront(p, s, |Text(a)|);
      NestedLocal(p, s, 0);
      assert Text(a) == p[..|Text(a)|] && Text(b) == s[..|Text(b)|];
      TextInjective(a, b);
  }

  lemma PrefixFront(p: bytes, s: bytes, d: Document, e: Document)
    requires p <= s && d.Valid() && e.Valid() && d.Spelling() == s && e.Spelling() == p
    ensures d.before == e.before
    ensures Text(e.root) + e.after <= Text(d.root) + d.after
  {
    DocumentFront(d);
    DocumentFront(e);
    var w := |e.before|;
    assert SamePeek(p, s, w);
    WsLocal(p, s);
    assert p[w..] <= s[w..];
    assert d.before == s[..w] == p[..w] == e.before;
  }

  /** The length of the shortest number a number starts with: its sign and first digit. */
  function FirstDigit(d: bytes): nat {
    if d != [] && d[0] == MINUS then 2 else 1
  }

  /** A number that more digits, a point or an exponent could have followed earlier. */
  predicate MultiDigit(t: Tree) {
    t.Num? && |t.digits| > FirstDigit(t.digits)
  }

  lemma FirstDigitIsNumber(d: bytes)
    requires IsNumber(d)
    ensures FirstDigit(d) <= |d| && IsNumber(d[..FirstDigit(d)])
  {
    var sign := if d[0] == MINUS then 1 else 0;
    var e := d[..sign + 1];
    assert d[sign..][0] == d[sign];
    assert IsDigit(d[sign]);
    assert e[sign..] == [d[sign]];
    assert Digits(e[sign..]) == 1 by { assert [d[sign]][1..] == []; }
    assert IntPart(e) == Some(sign + 1);
    assert e[sign + 1..] == [];
  }

  lemma {:induction false} NumberRunPrefix(p: bytes, s: bytes)
    requires p <= s
    ensures NumberRun(p) <= NumberRun(s)
  {
    if p != [] && NumberByte(p[0]) {
      NumberRunPrefix(p[1..], s[1..]);
    }
  }

  /** A prefix of a one-digit number's text that is itself complete spells the same number. */
  lemma {:induction false} SameDigit(a: Tree, aRest: bytes, b: Tree, bRest: bytes)
    requires WellFormed(a) && WellFormed(b) && b.Num? && !MultiDigit(b) && AllWs(aRest) && AllWs(bRest)
    requires Text(a) + aRest <= Text(b) + bRest
    ensures a == b
  {
    var p, s := Text(a) + aRest, Text(b) + bRest;
    TextStartsValue(a);
    TextStartsValue(b);
    assert p[0] == Text(a)[0] && s[0] == Text(b)[0] && p[0] == s[0];
    FirstDigitIsNumber(a.digits);
    FirstDigitIsNumber(b.digits);
    NumberBytes(a.digits);
    NumberBytes(b.digits);
    NumberRunExact(a.digits, aRest);
    NumberRunExact(b.digits, bRest);
    NumberRunPrefix(p, s);
    var n := |b.digits|;
    assert a.digits == p[..n] == s[..n] == b.digits;
  }

  /**
   Which texts can be read before they are finished: every complete prefix has the value of the
   whole exactly when the whole is not a number of several digits.
   */
  lemma NoEarlyValue(s: bytes)
    requires Parse(s).Some?
    ensures (forall p: bytes :: p <= s && Parse(p).Some? ==> Parse(p) == Parse(s))
       <==> !MultiDigit(ParseDocument(s).value.root)
  {
    hide ParseDocument, MultiDigit;
    var d := ParseDocument(s).value;
    ParseDocumentIff(s, d);
    if !MultiDigit(d.root) {
      forall p: bytes | p <= s && Parse(p).Some?
        ensures Parse(p) == Parse(s)
      {
        var e := ParseDocument(p).value;
        ParseDocumentIff(p, e);
        PrefixFront(p, s, d, e);
        if d.root.Num? {
          SameDigit(e.root, e.after, d.root, d.after);
        } else {
          SameRoot(e.root, e.after, d.root, d.after);
        }
      }
    } else {
      EarlyNumber(s, d);
    }
  }

  lemma EarlyNumber(s: bytes, d: Document)
    requires d.Valid() && d.Spelling() == s && Parse(s).Some? && MultiDigit(d.root)
    ensures exists p: bytes :: p <= s && Parse(p).Some? && Parse(p) != Parse(s)
  {
    hide ParseDocument;
    var digits := d.root.digits;
    var n := FirstDigit(digits);
    FirstDigitIsNumber(digits);
    var e := Document(d.before, Num(digits[..n]), []);
    ParseDocumentIff(s, d);
    ParseDocumentIff(e.Spelling(), e);
    assert e.Spelling() == d.before + digits[..n];
    assert s[..|d.before| + n] == e.Spelling();
    assert Parse(e.Spelling()) == Some(JNumber(digits[..n]));
    assert Parse(s) == Some(JNumber(digits));
  }
}
