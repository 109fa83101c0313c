/** What a splice does to the document a body spells. */
module JsonRename {
  import opened Wrappers
  import opened Bytes
  import opened JsonStrings
  import opened JsonGrammar
  import opened JsonScan
  import opened JsonAgreement

  predicate HasModel(ms: Members) {
    ms.Member? && (ms.key == MODEL_KEY || HasModel(ms.rest))
  }

  /** The members with the last `model` given another string, and nothing else changed. */
  function WithModel(ms: Members, body: bytes): Members {
    match ms
    case NoMembers(_) => ms
    case Member(_, key, _, _, _, _, rest) =>
      if HasModel(rest) then ms.(rest := WithModel(rest, body))
      else if key == MODEL_KEY then ms.(value := Str(body))
      else ms
  }

  function Renamed(doc: Document, model: bytes): Document
    requires doc.root.Obj?
  {
    doc.(root := Obj(WithModel(doc.root.members, Escape(model))))
  }

  lemma {:induction false} StillWellFormed(ms: Members, first: bool, body: bytes)
    requires WellFormedMembers(ms, first) && IsStringBody(body)
    ensures WellFormedMembers(WithModel(ms, body), first)
  {
    hide IsStringBody, AllWs;
    if ms.Member? && HasModel(ms.rest) {
      StillWellFormed(ms.rest, false, body);
    }
  }

  /** With no `model` further on, what is recorded stays. */
  lemma {:induction false} NoLaterModel(ms: Members, at: nat, earlier: Option<(nat, nat)>)
    ensures !HasModel(ms) ==> LastSpan(ms, at, earlier) == earlier
    ensures HasModel(ms) ==> LastSpan(ms, at, earlier) == LastSpan(ms, at, None) && LastSpan(ms, at, None).Some?
  {
    hide Text;
    if ms.Member? {
      var from := at + ValueAt(ms);
      var span := Some((from, from + |Text(ms.value)|));
      NoLaterModel(ms.rest, at + MemberSpan(ms) + 1, if ms.key == MODEL_KEY then span else earlier);
      NoLaterModel(ms.rest, at + MemberSpan(ms) + 1, if ms.key == MODEL_KEY then span else None);
    }
  }

  /** The spelling of renamed members is the spelling of the members with the span replaced. */
  lemma {:induction false} MembersRenamed(ms: Members, at: nat, body: bytes)
    requires HasModel(ms)
    ensures LastSpan(ms, at, None).Some?
    ensures (var (a, b) := LastSpan(ms, at, None).value;
             var t := MembersText(ms, true);
             && at <= a <= b <= at + |t|
             && MembersText(WithModel(ms, body), true) == t[..a - at] + StringText(body) + t[b - at..])
  {
    hide Text, MembersText, StringText;
    NoLaterModel(ms, at, None);
    var next := at + MemberSpan(ms) + 1;
    var from := at + ValueAt(ms);
    NoLaterModel(ms.rest, next, if ms.key == MODEL_KEY then Some((from, from + |Text(ms.value)|)) else None);
    if HasModel(ms.rest) {
      MembersRenamed(ms.rest, next, body);
      LaterRenamed(ms, at, body, LastSpan(ms, at, None).value);
    } else {
      ThisRenamed(ms, at, body);
    }
  }

  /** A member's text up to the separator. */
  function Front(ms: Members): bytes
    requires ms.Member?
  {
    MemberHead(ms) + Text(ms.value) + ms.post
  }

  lemma FrontThenRest(ms: Members)
    requires ms.Member? && ms.rest.Member?
    ensures |Front(ms)| == MemberSpan(ms)
    ensures MembersText(ms, true) == Front(ms) + ([COMMA] + MembersText(ms.rest, true))
  {
    hide Text, MembersText, StringText, MemberHead;
    MembersLayout(ms, []);
    var rest := [COMMA] + MembersText(ms.rest, true);
    assert MembersText(ms, true) + [] == MembersText(ms, true) && MembersText(ms.rest, false) + [] == MembersText(ms.rest, false);
    assert MembersText(ms.rest, true) + [] == MembersText(ms.rest, true);
    assert MemberHead(ms) + (Text(ms.value) + (ms.post + rest)) == Front(ms) + rest;
  }

  lemma LaterRenamed(ms: Members, at: nat, body: bytes, span: (nat, nat))
    requires ms.Member? && HasModel(ms.rest)
    requires (var next := at + MemberSpan(ms) + 1;
              var (a, b) := span;
              var t := MembersText(ms.rest, true);
              && next <= a <= b <= next + |t|
              && MembersText(WithModel(ms.rest, body), true) == t[..a - next] + StringText(body) + t[b - next..])
    ensures (var (a, b) := span;
             var t := MembersText(ms, true);
             && at <= a <= b <= at + |t|
             && MembersText(WithModel(ms, body), true) == t[..a - at] + StringText(body) + t[b - at..])
  {
    hide Text, MembersText, StringText, WithModel, HasModel, MemberSpan;
    var (a, b) := span;
    var next := at + MemberSpan(ms) + 1;
    var t, u := MembersText(ms.rest, true), MembersText(WithModel(ms.rest, body), true);
    var f := Front(ms) + [COMMA];
    BothFronts(ms, body);
    Within(f, t, a - next, b - next, StringText(body));
  }

  lemma BothFronts(ms: Members, body: bytes)
    requires ms.Member? && HasModel(ms.rest)
    ensures (var f := Front(ms) + [COMMA];
             && |f| == MemberSpan(ms) + 1
             && MembersText(ms, true) == f + MembersText(ms.rest, true)
             && MembersText(WithModel(ms, body), true) == f + MembersText(WithModel(ms.rest, body), true))
  {
    hide Text, MembersText, StringText;
    FrontThenRest(ms);
    assert WithModel(ms, body) == ms.(rest := WithModel(ms.rest, body));
    StaysMember(ms.rest, body);
    FrontThenRest(WithModel(ms, body));
    assert Front(WithModel(ms, body)) == Front(ms);
    var t, u := MembersText(ms.rest, true), MembersText(WithModel(ms.rest, body), true);
    assert Front(ms) + ([COMMA] + t) == (Front(ms) + [COMMA]) + t;
    assert Front(ms) + ([COMMA] + u) == (Front(ms) + [COMMA]) + u;
  }

  /** A replacement inside the second half. */
  lemma Within(f: bytes, t: bytes, a: nat, b: nat, x: bytes)
    requires a <= b <= |t|
    ensures (f + t)[..|f| + a] + x + (f + t)[|f| + b..] == f + (t[..a] + x + t[b..])
  {
    assert (f + t)[..|f| + a] == f + t[..a] && (f + t)[|f| + b..] == t[b..];
    Assoc3(f, t[..a], x, t[b..]);
    assert t[..a] + x + t[b..] == t[..a] + (x + t[b..]);
  }

  lemma StaysMember(ms: Members, body: bytes)
    requires ms.Member?
    ensures WithModel(ms, body).Member?
  {
  }

  lemma ThisRenamed(ms: Members, at: nat, body: bytes)
    requires ms.Member? && ms.key == MODEL_KEY && !HasModel(ms.rest)
    ensures (var a := ValueAt(ms);
             var b := a + |Text(ms.value)|;
             var t := MembersText(ms, true);
             && b <= |t|
             && MembersText(WithModel(ms, body), true) == t[..a] + StringText(body) + t[b..])
  {
    hide Text, MembersText, StringText, MemberHead;
    MembersLayout(ms, []);
    var other := ms.(value := Str(body));
    MembersLayout(other, []);
    SameHead(ms, body);
    var tail := ms.post + (MembersText(ms.rest, false) + []);
    var t := MembersText(ms, true);
    assert t + [] == t && MembersText(other, true) + [] == MembersText(other, true);
    var h, v := MemberHead(ms), Text(ms.value);
    assert t == h + (v + tail);
    assert t[..|h|] == h && t[|h| + |v|..] == tail;
    assert h + (StringText(body) + tail) == h + StringText(body) + tail;
  }

  lemma SameHead(ms: Members, body: bytes)
    requires ms.Member?
    ensures MemberHead(ms.(value := Str(body))) == MemberHead(ms) && Text(Str(body)) == StringText(body)
  {
  }

  /**
   Splicing a model name into a valid document where the probe says gives the spelling of a valid document:
   the same one, to the last byte of whitespace, with the last `model` renamed.
   */
  lemma SpliceRenames(doc: Document, model: bytes)
    requires doc.Valid() && Probe(doc.Spelling()).Some?
    ensures doc.root.Obj? && Renamed(doc, model).Valid()
    ensures Splice(doc.Spelling(), Probe(doc.Spelling()).value.span, model) == Renamed(doc, model).Spelling()
  {
    hide Probe, Text, MembersText, StringText, Points, DecodeString, Routable, LastModel, LastStream, WellFormedMembers;
    hide LastSpan, HasModel, WithModel, Splice, AllWs, Escape, WellFormed;
    ProbeExact(doc);
    RenamedIsValid(doc, model);
    SpanRenames(doc, model);
  }

  lemma RenamedIsValid(doc: Document, model: bytes)
    requires doc.Valid() && doc.root.Obj?
    ensures Renamed(doc, model).Valid()
  {
    hide WellFormed, AllWs, WithModel, Escape;
    UnescapeEscape(model);
    WellFormedObject(doc.root, Escape(model));
  }

  /** Replacing the span of the last `model` renames it. */
  lemma SpanRenames(doc: Document, model: bytes)
    requires doc.root.Obj? && ModelSpan(doc).Some?
    ensures (var (a, b) := ModelSpan(doc).value;
             && a <= b <= |doc.Spelling()| && Splice(doc.Spelling(), (a, b), model) == Renamed(doc, model).Spelling())
  {
    hide Text, MembersText, StringText, LastSpan, HasModel, WithModel, Splice, Escape;
    var ms := doc.root.members;
    var at := |doc.before| + 1;
    SomeModel(ms, at);
    MembersRenamed(ms, at, Escape(model));
    var (a, b) := ModelSpan(doc).value;
    var t, u := MembersText(ms, true), MembersText(WithModel(ms, Escape(model)), true);
    ObjectText(doc, t);
    ObjectText(Renamed(doc, model), u);
    SpliceInside(doc.before + [LBRACE], t, [RBRACE] + doc.after, a, b, model);
  }

  lemma SomeModel(ms: Members, at: nat)
    requires LastSpan(ms, at, None).Some?
    ensures HasModel(ms)
  {
    NoLaterModel(ms, at, None);
  }

  lemma WellFormedObject(root: Tree, body: bytes)
    requires WellFormed(root) && root.Obj? && IsStringBody(body)
    ensures WellFormed(Obj(WithModel(root.members, body)))
  {
    hide IsStringBody;
    StillWellFormed(root.members, true, body);
  }

  lemma ObjectText(doc: Document, t: bytes)
    requires doc.root.Obj? && t == MembersText(doc.root.members, true)
    ensures doc.Spelling() == (doc.before + [LBRACE]) + t + ([RBRACE] + doc.after)
  {
    hide MembersText;
    assert Text(doc.root) == [LBRACE] + t + [RBRACE];
  }

  lemma SpliceInside(f: bytes, t: bytes, g: bytes, a: nat, b: nat, model: bytes)
    requires |f| <= a <= b <= |f| + |t|
    ensures Splice(f + t + g, (a, b), model) == f + (t[..a - |f|] + StringText(Escape(model)) + t[b - |f|..]) + g
  {
    hide Escape;
    var x := StringText(Escape(model));
    assert Quoted(model) == x;
    var s := f + t;
    DropFront(s, g, a);
    DropFront(s, g, b);
    assert s[..a] + x + (s[b..] + g) == (s[..a] + x + s[b..]) + g;
    Within(f, t, a - |f|, b - |f|, x);
  }
}
