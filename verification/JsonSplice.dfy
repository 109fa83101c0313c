/**
 Splicing a new model into a probed body: probing the result finds exactly the new model, with
 everything else where it was. Holds for every body the probe takes, valid JSON or not.
 */
module JsonSplice {
  import opened Wrappers
  import opened Bytes
  import opened JsonStrings
  import opened JsonGrammar
  import opened JsonScan
  import opened JsonAgreement

  // ----- scanning looks at what it consumes and at most one byte more

  /** `s` and `t` agree on their first `n` bytes and on the byte after them. */
  predicate SamePeek(s: bytes, t: bytes, n: nat) {
    n < |s| && n < |t| && s[..n + 1] == t[..n + 1]
  }

  lemma SamePeekDrop(s: bytes, t: bytes, n: nat, k: nat)
    requires SamePeek(s, t, n) && k <= n
    ensures SamePeek(s[k..], t[k..], n - k)
  {
    assert s[k..][..n - k + 1] == s[..n + 1][k..];
    assert t[k..][..n - k + 1] == t[..n + 1][k..];
  }

  lemma {:induction false} WsLocal(s: bytes, t: bytes)
    requires SamePeek(s, t, Ws(s))
    ensures Ws(t) == Ws(s)
  {
    assert s[0] == s[..Ws(s) + 1][0] == t[0];
    if IsWs(s[0]) {
      SamePeekDrop(s, t, Ws(s), 1);
      WsLocal(s[1..], t[1..]);
    }
  }

  lemma {:induction false} NumberRunLocal(s: bytes, t: bytes)
    requires SamePeek(s, t, NumberRun(s))
    ensures NumberRun(t) == NumberRun(s)
  {
    assert s[0] == s[..NumberRun(s) + 1][0] == t[0];
    if NumberByte(s[0]) {
      SamePeekDrop(s, t, NumberRun(s), 1);
      NumberRunLocal(s[1..], t[1..]);
    }
  }

  predicate SameFront(s: bytes, t: bytes, n: nat) {
    n <= |s| && n <= |t| && s[..n] == t[..n]
  }

  lemma SameFrontDrop(s: bytes, t: bytes, n: nat, k: nat)
    requires SameFront(s, t, n) && k <= n
    ensures SameFront(s[k..], t[k..], n - k)
    ensures forall i :: 0 <= i < n ==> s[i] == t[i]
  {
    assert s[k..][..n - k] == s[..n][k..];
    assert t[k..][..n - k] == t[..n][k..];
    forall i | 0 <= i < n
      ensures s[i] == t[i]
    {
      assert s[i] == s[..n][i] == t[i];
    }
  }

  lemma {:induction false} StringRestLocal(s: bytes, t: bytes)
    requires StringRest(s).Some? && SameFront(s, t, StringRest(s).value)
    ensures StringRest(t) == StringRest(s)
  {
    var n := StringRest(s).value;
    SameFrontDrop(s, t, n, 0);
    if s[0] == QUOTE {
    } else if s[0] == BACKSLASH {
      SameFrontDrop(s, t, n, 2);
      StringRestLocal(s[2..], t[2..]);
    } else {
      SameFrontDrop(s, t, n, 1);
      StringRestLocal(s[1..], t[1..]);
    }
  }

  lemma StringTokenLocal(s: bytes, t: bytes)
    requires StringToken(s).Some? && SameFront(s, t, StringToken(s).value)
    ensures StringToken(t) == StringToken(s)
  {
    SameFrontDrop(s, t, StringToken(s).value, 1);
    StringRestLocal(s[1..], t[1..]);
  }

  lemma LiteralLocal(s: bytes, t: bytes, lit: bytes)
    requires LiteralToken(s, lit).Some? && SameFront(s, t, |lit|)
    ensures LiteralToken(t, lit) == LiteralToken(s, lit)
  {
    assert s[..|lit|] == lit;
  }

  /** How far the front piece of a nested text goes, and the depth after it; a closing bracket at depth 1 ends it. */
  function FrontPiece(s: bytes, depth: nat): Option<(nat, nat)>
    requires s != []
  {
    if Opens(s[0]) then Some((1, depth + 1))
    else if Closes(s[0]) then (if depth == 0 then None else Some((1, depth - 1)))
    else if s[0] == QUOTE then (if StringToken(s).None? then None else Some((StringToken(s).value, depth)))
    else Some((1, depth))
  }

  lemma {:induction false} NestedByPieces(s: bytes, depth: nat)
    requires s != [] && (depth == 0 ==> Opens(s[0]))
    ensures (var p := FrontPiece(s, depth);
             if p.None? then Nested(s, depth).None?
             else if p.value.1 == 0 then Nested(s, depth) == Some(1)
             else p.value.0 <= |s| && Nested(s, depth) == Plus(p.value.0, Nested(s[p.value.0..], p.value.1)))
  {
    hide StringToken;
  }

  lemma FrontPieceLocal(s: bytes, t: bytes, depth: nat, n: nat)
    requires s != [] && FrontPiece(s, depth).Some? && FrontPiece(s, depth).value.0 <= n && SameFront(s, t, n) && n > 0
    ensures t != [] && FrontPiece(t, depth) == FrontPiece(s, depth)
  {
    hide StringToken;
    SameFrontDrop(s, t, n, 0);
    if s[0] == QUOTE {
      var k := StringToken(s).value;
      assert s[..k] == s[..n][..k] && t[..k] == t[..n][..k];
      StringTokenLocal(s, t);
    }
  }

  lemma {:induction false} NestedLocal(s: bytes, t: bytes, depth: nat)
    requires depth == 0 ==> s != [] && Opens(s[0]) && t != [] && Opens(t[0])
    requires Nested(s, depth).Some? && SameFront(s, t, Nested(s, depth).value)
    ensures Nested(t, depth) == Nested(s, depth)
    decreases |s|
  {
    NestedStarts(s, depth);
    hide Nested, FrontPiece, StringToken;
    var n := Nested(s, depth).value;
    NestedByPieces(s, depth);
    var (k, d) := FrontPiece(s, depth).value;
    FrontPieceLocal(s, t, depth, n);
    NestedByPieces(t, depth);
    if d > 0 {
      SameFrontDrop(s, t, n, k);
      PieceForward(s, depth);
      NestedLocal(s[k..], t[k..], d);
    }
  }

  lemma NestedStarts(s: bytes, depth: nat)
    requires (depth == 0 ==> s != [] && Opens(s[0])) && Nested(s, depth).Some?
    ensures s != [] && Nested(s, depth).value > 0
  {
    hide StringToken;
  }

  lemma PieceForward(s: bytes, depth: nat)
    requires s != [] && FrontPiece(s, depth).Some?
    ensures FrontPiece(s, depth).value.0 > 0
  {
  }

  lemma SkipValueLocal(s: bytes, t: bytes)
    requires SkipValue(s).Some? && SamePeek(s, t, SkipValue(s).value)
    ensures SkipValue(t) == SkipValue(s)
  {
    hide Nested, StringToken, NumberRun, LiteralToken;
    var n := SkipValue(s).value;
    assert SameFront(s, t, n) by { assert s[..n] == s[..n + 1][..n] && t[..n] == t[..n + 1][..n]; }
    assert s[0] == s[..n + 1][0] == t[0];
    if s[0] == QUOTE { StringTokenLocal(s, t); }
    else if Opens(s[0]) { NestedLocal(s, t, 0); }
    else if s[0] == 0x74 { LiteralExtent(s, TRUE_TEXT); LiteralLocal(s, t, TRUE_TEXT); }
    else if s[0] == 0x66 { LiteralExtent(s, FALSE_TEXT); LiteralLocal(s, t, FALSE_TEXT); }
    else if s[0] == 0x6E { LiteralExtent(s, NULL_TEXT); LiteralLocal(s, t, NULL_TEXT); }
    else { NumberRunLocal(s, t); }
  }

  lemma LiteralExtent(s: bytes, lit: bytes)
    requires LiteralToken(s, lit).Some?
    ensures LiteralToken(s, lit).value == |lit|
  {
  }

  lemma StreamValueLocal(s: bytes, t: bytes)
    requires StreamValue(s).Some? && SamePeek(s, t, StreamValue(s).value.0)
    ensures StreamValue(t) == StreamValue(s)
  {
    hide LiteralToken;
    var n := StreamValue(s).value.0;
    assert SameFront(s, t, n) by { assert s[..n] == s[..n + 1][..n] && t[..n] == t[..n + 1][..n]; }
    assert s[0] == s[..n + 1][0] == t[0];
    if s[0] == 0x74 { LiteralExtent(s, TRUE_TEXT); LiteralLocal(s, t, TRUE_TEXT); }
    else if s[0] == 0x66 { LiteralExtent(s, FALSE_TEXT); LiteralLocal(s, t, FALSE_TEXT); }
    else { LiteralExtent(s, NULL_TEXT); LiteralLocal(s, t, NULL_TEXT); }
  }

  lemma KeyPartLocal(s: bytes, t: bytes)
    requires KeyPart(s).Some? && SamePeek(s, t, KeyPart(s).value.1)
    ensures KeyPart(t) == KeyPart(s)
  {
    hide Ws, StringToken;
    var n := KeyPart(s).value.1;
    var w := Ws(s);
    PeekPrefix(s, t, n, w, w);
    WsLocal(s, t);
    PeekPrefix(s, t, n, w, n);
    StringTokenLocal(s[w..], t[w..]);
    SliceSame(s, t, n, w + 1, n - 1);
  }

  lemma ColonPartLocal(s: bytes, t: bytes, n: nat)
    requires n <= |s| && ColonPart(s, n).Some? && SamePeek(s, t, ColonPart(s, n).value)
    ensures n <= |t| && ColonPart(t, n) == ColonPart(s, n)
  {
    hide Ws;
    var v := ColonPart(s, n).value;
    var c := n + Ws(s[n..]);
    PeekPrefix(s, t, v, n, c);
    WsLocal(s[n..], t[n..]);
    PeekPrefix(s, t, v, c + 1, v);
    WsLocal(s[c + 1..], t[c + 1..]);
    assert s[..v + 1][c] == t[..v + 1][c];
  }

  lemma SliceSame(s: bytes, t: bytes, n: nat, a: nat, b: nat)
    requires SamePeek(s, t, n) && a <= b <= n
    ensures s[a..b] == t[a..b]
  {
    assert s[..n + 1][a..b] == s[a..b] && t[..n + 1][a..b] == t[a..b];
  }

  lemma KeyAndColonLocal(s: bytes, t: bytes)
    requires KeyAndColon(s).Some? && SamePeek(s, t, KeyAndColon(s).value.1)
    ensures KeyAndColon(t) == KeyAndColon(s)
  {
    hide KeyPart, ColonPart;
    var n := KeyPart(s).value.1;
    PeekPrefix(s, t, KeyAndColon(s).value.1, n, n);
    KeyPartLocal(s, t);
    ColonPartLocal(s, t, n);
  }

  lemma PeekPrefix(s: bytes, t: bytes, n: nat, a: nat, b: nat)
    requires SamePeek(s, t, n) && a <= b <= n
    ensures SamePeek(s[a..], t[a..], b - a) && SameFront(s[a..], t[a..], b - a) && SamePeek(s, t, b)
  {
    assert s[..b + 1] == s[..n + 1][..b + 1] && t[..b + 1] == t[..n + 1][..b + 1];
    SamePeekDrop(s, t, b, a);
    var x, y := s[a..], t[a..];
    assert x[..b - a] == x[..b - a + 1][..b - a] && y[..b - a] == y[..b - a + 1][..b - a];
  }

  lemma MemberValueLocal(key: bytes, s: bytes, t: bytes, at: nat, f: Found)
    requires MemberValue(key, s, at, f).Some? && SamePeek(s, t, MemberValue(key, s, at, f).value.0)
    ensures MemberValue(key, t, at, f) == MemberValue(key, s, at, f)
  {
    hide StringToken, SkipValue, StreamValue;
    var n := MemberValue(key, s, at, f).value.0;
    PeekPrefix(s, t, n, 0, n);
    assert s[0..] == s && t[0..] == t;
    if key == MODEL_KEY { StringTokenLocal(s, t); }
    else if key == STREAM_KEY { StreamValueLocal(s, t); }
    else { SkipValueLocal(s, t); }
  }

  lemma OneMemberLocal(s: bytes, t: bytes, at: nat, f: Found)
    requires OneMember(s, at, f).Some? && SamePeek(s, t, OneMember(s, at, f).value.0)
    ensures OneMember(t, at, f) == OneMember(s, at, f)
  {
    hide KeyAndColon, MemberValue;
    var (key, v) := KeyAndColon(s).value;
    var n := OneMember(s, at, f).value.0;
    PeekPrefix(s, t, n, v, n);
    PeekPrefix(s, t, n, 0, v);
    KeyAndColonLocal(s, t);
    MemberValueLocal(key, s[v..], t[v..], at + v, f);
  }

  // ----- offsets only matter for the reported span

  predicate Before(model: Option<(nat, nat)>, at: nat) {
    model.Some? ==> model.value.0 < at
  }

  /** One member either leaves the recorded model alone or records one that starts inside it. */
  lemma OneMemberModel(s: bytes, at: nat, f: Found)
    requires OneMember(s, at, f).Some?
    ensures KeyAndColon(s).Some?
    ensures (var (key, v) := KeyAndColon(s).value;
             var (n, g) := OneMember(s, at, f).value;
             if key == MODEL_KEY then
               v < n && StringToken(s[v..]) == Some(n - v) && g == f.(model := Some((at + v, at + n)))
             else g.model == f.model)
  {
    hide StringToken, SkipValue, StreamValue, KeyAndColon;
  }

  /** The recorded model is the one handed in, or one that starts further on. */
  lemma {:induction false} AllMembersModel(s: bytes, at: nat, f: Found)
    requires AllMembers(s, at, f).Some?
    ensures (var g := AllMembers(s, at, f).value; g.model == f.model || (g.model.Some? && g.model.value.0 >= at))
    decreases |s|
  {
    hide Turn;
    TurnModel(s, at, f);
    var (k, more, g) := Turn(s, at, f).value;
    if more {
      AllMembersModel(s[k..], at + k, g);
    }
  }

  lemma TurnModel(s: bytes, at: nat, f: Found)
    requires Turn(s, at, f).Some?
    ensures KeyAndColon(s).Some?
    ensures (var (key, v) := KeyAndColon(s).value;
             var (k, more, g) := Turn(s, at, f).value;
             if key == MODEL_KEY then
               StringToken(s[v..]).Some? && g == f.(model := Some((at + v, at + v + StringToken(s[v..]).value)))
               && at + v < at + k
             else g.model == f.model)
  {
    hide SeparatorAfter, OneMember, KeyAndColon, StringToken;
    OneMemberModel(s, at, f);
  }

  /** When no later member names a model, shifting the text and changing the recorded model changes nothing else. */
  lemma {:induction false} AllMembersShift(s: bytes, at: nat, f: Found, at': nat, f': Found)
    requires AllMembers(s, at, f).Some? && AllMembers(s, at, f).value.model == f.model
    requires Before(f.model, at) && f.stream == f'.stream
    ensures AllMembers(s, at', f') == Some(f'.(stream := AllMembers(s, at, f).value.stream))
    decreases |s|
  {
    hide Turn, KeyAndColon, StringToken;
    TurnModel(s, at, f);
    var (k, more, g) := Turn(s, at, f).value;
    if more { AllMembersModel(s[k..], at + k, g); }
    TurnShift(s, at, f, at', f');
    if more {
      AllMembersShift(s[k..], at + k, g, at' + k, f'.(stream := g.stream));
    }
  }

  lemma TurnShift(s: bytes, at: nat, f: Found, at': nat, f': Found)
    requires Turn(s, at, f).Some? && KeyAndColon(s).Some? && KeyAndColon(s).value.0 != MODEL_KEY && f.stream == f'.stream
    ensures (var (k, more, g) := Turn(s, at, f).value;
             Turn(s, at', f') == Some((k, more, f'.(stream := g.stream))))
  {
    hide SeparatorAfter, KeyAndColon, SkipValue, StreamValue;
  }

  // ----- the splice

  predicate Spliced(body: bytes, out: bytes, span: (nat, nat), token: bytes) {
    && SpanOf(body, span)
    && token != [] && token[0] == QUOTE
    && out == body[..span.0] + token + body[span.1..]
  }

  lemma SplicedPeek(body: bytes, out: bytes, span: (nat, nat), token: bytes, at: nat)
    requires Spliced(body, out, span, token) && at <= span.0
    ensures SamePeek(body[at..], out[at..], span.0 - at)
    ensures out[span.0..] == token + body[span.1..]
  {
    assert body[span.0] == QUOTE by { assert body[span.0] == body[span.0..][0]; }
    assert body[..span.0 + 1] == out[..span.0 + 1];
    SamePeekDrop(body, out, span.0, at);
  }

  /** The member that holds the span, after the splice. */
  lemma SplicedMember(body: bytes, out: bytes, span: (nat, nat), model: bytes, at: nat, f: Found)
    requires Spliced(body, out, span, Quoted(model)) && at <= span.0
    requires OneMember(body[at..], at, f).Some?
    requires KeyAndColon(body[at..]) == Some((MODEL_KEY, span.0 - at))
    ensures OneMember(out[at..], at, f)
         == Some((span.0 - at + |Quoted(model)|, f.(model := Some((span.0, span.0 + |Quoted(model)|)))))
  {
    hide KeyAndColon, StringToken, FromText, SkipValue, StreamValue, Escape, IsStringBody;
    SplicedPeek(body, out, span, Quoted(model), at);
    KeyAndColonLocal(body[at..], out[at..]);
    assert out[at..][span.0 - at..] == out[span.0..];
    UnescapeEscape(model);
    TokenExact(Escape(model), body[span.1..]);
  }

  lemma {:induction false} AllMembersSpliced(body: bytes, out: bytes, span: (nat, nat), model: bytes, at: nat, f: Found)
    requires Spliced(body, out, span, Quoted(model)) && at <= span.0
    requires Before(f.model, at)
    requires AllMembers(body[at..], at, f).Some? && AllMembers(body[at..], at, f).value.model == Some(span)
    ensures AllMembers(out[at..], at, f)
         == Some(Found(Some((span.0, span.0 + |Quoted(model)|)), AllMembers(body[at..], at, f).value.stream))
    decreases |body| - at
  {
    hide Turn, KeyAndColon, StringToken, Quoted, FromText;
    var s, t := body[at..], out[at..];
    var (k, more, g) := Turn(s, at, f).value;
    TurnModel(s, at, f);
    assert s[k..] == body[at + k..];
    if more { AllMembersModel(body[at + k..], at + k, g); }
    if more && at + k <= span.0 {
      SplicedPeek(body, out, span, Quoted(model), at);
      PassTurn(s, t, at, f, span.0 - at);
      assert t[k..] == out[at + k..];
      AllMembersSpliced(body, out, span, model, at + k, g);
    } else {
      HeldTurn(body, out, span, model, at, f);
      var t' := Turn(t, at, f).value;
      if more {
        AllMembersShift(s[k..], at + k, g, at + t'.0, t'.2);
      }
    }
  }

  /** A turn that ends before the point where the texts part goes the same way in both. */
  lemma PassTurn(s: bytes, t: bytes, at: nat, f: Found, n: nat)
    requires SamePeek(s, t, n)
    requires Turn(s, at, f).Some? && Turn(s, at, f).value.1 && Turn(s, at, f).value.0 <= n
    ensures Turn(t, at, f) == Turn(s, at, f)
  {
    hide OneMember, Ws;
    var (k, g) := OneMember(s, at, f).value;
    var w := k + Ws(s[k..]);
    PeekPrefix(s, t, n, k, w);
    PeekPrefix(s, t, n, 0, k);
    OneMemberLocal(s, t, at, f);
    WsLocal(s[k..], t[k..]);
    assert s[..n + 1][w] == t[..n + 1][w];
  }

  /** The turn that takes the spliced member: only the recorded span differs, and the rest is the same text. */
  lemma HeldTurn(body: bytes, out: bytes, span: (nat, nat), model: bytes, at: nat, f: Found)
    requires Spliced(body, out, span, Quoted(model)) && at <= span.0
    requires Before(f.model, at)
    requires Turn(body[at..], at, f).Some? && Turn(body[at..], at, f).value.2.model == Some(span)
    ensures (var (k, more, g) := Turn(body[at..], at, f).value;
             && g == f.(model := Some(span))
             && Turn(out[at..], at, f).Some?
             && (var (k', more', g') := Turn(out[at..], at, f).value;
                 && more' == more && g' == f.(model := Some((span.0, span.0 + |Quoted(model)|)))
                 && out[at..][k'..] == body[at..][k..]))
  {
    hide OneMember, SeparatorAfter, KeyAndColon, StringToken, Quoted;
    var s, t := body[at..], out[at..];
    var (n, g) := OneMember(s, at, f).value;
    var q := |Quoted(model)|;
    OneMemberModel(s, at, f);
    var (key, v) := KeyAndColon(s).value;
    assert key == MODEL_KEY && at + v == span.0;
    SplicedPeek(body, out, span, Quoted(model), at);
    SplicedMember(body, out, span, model, at, f);
    var n' := span.0 - at + q;
    assert n == span.1 - at;
    assert s[n..] == body[span.1..];
    assert t[n'..] == out[span.0..][q..] == body[span.1..];
    SeparatorShift(s, n, t, n');
  }

  lemma SeparatorShift(s: bytes, n: nat, t: bytes, m: nat)
    requires n <= |s| && m <= |t| && s[n..] == t[m..]
    ensures SeparatorAfter(s, n).Some? ==>
              (var (w, more) := SeparatorAfter(s, n).value;
               SeparatorAfter(t, m) == Some((w - n + m, more)) && s[w + 1..] == t[w - n + m + 1..])
  {
    hide Ws;
    var rest := s[n..];
    var w := Ws(rest);
    if w < |rest| {
      assert s[n + w] == rest[w] && t[m + w] == rest[w];
      assert s[n + w + 1..] == rest[w + 1..] && t[m + w + 1..] == rest[w + 1..];
    }
  }

  /**
   Probing a spliced body finds the new model, at the same place, with the same `stream`.
   */
  lemma ProbeSplice(body: bytes, model: bytes)
    requires ValidUtf8(model) && Probe(body).Some?
    ensures (var p := Probe(body).value;
             Probe(Splice(body, p.span, model))
             == Some(Probed(model, (p.span.0, p.span.0 + |Quoted(model)|), p.stream)))
  {
    hide FoundIn, StringToken, DecodeString, Quoted, ValidUtf8, Probe, Escape;
    ProbeParts(body);
    var p := Probe(body).value;
    var out := Splice(body, p.span, model);
    FoundSpliced(body, model);
    FoundSpan(out);
    SplicedToken(body, p.span, model);
    DecodeEscape(model);
    ProbeIs(out, FoundIn(out).value, model);
  }

  lemma ProbeParts(body: bytes)
    requires Probe(body).Some?
    ensures FoundIn(body) == Some(Found(Some(Probe(body).value.span), Probe(body).value.stream))
    ensures SpanOf(body, Probe(body).value.span)
  {
    hide FoundIn, StringToken, DecodeString;
    FoundSpan(body);
  }

  lemma ProbeIs(body: bytes, f: Found, model: bytes)
    requires FoundIn(body) == Some(f) && f.model.Some? && SpanOf(body, f.model.value)
    requires DecodeString(TokenBody(body, f.model.value)) == Some(model)
    ensures Probe(body) == Some(Probed(model, f.model.value, f.stream))
  {
    hide FoundIn, StringToken, DecodeString;
  }

  lemma SplicedToken(body: bytes, span: (nat, nat), model: bytes)
    requires SpanOf(body, span)
    ensures (var out := Splice(body, span, model);
             out[span.0 + 1..span.0 + |Quoted(model)| - 1] == Escape(model))
  {
    var out := Splice(body, span, model);
    assert out[span.0..span.0 + |Quoted(model)|] == Quoted(model);
  }

  lemma FoundSpliced(body: bytes, model: bytes)
    requires FoundIn(body).Some? && FoundIn(body).value.model.Some? && SpanOf(body, FoundIn(body).value.model.value)
    ensures SpanOf(body, FoundIn(body).value.model.value)
    ensures (var f := FoundIn(body).value; var span := f.model.value;
             FoundIn(Splice(body, span, model))
             == Some(Found(Some((span.0, span.0 + |Quoted(model)|)), f.stream)))
  {
    hide AllMembers, StringToken, ObjectStart;
    var span := FoundIn(body).value.model.value;
    var out := Splice(body, span, model);
    assert Spliced(body, out, span, Quoted(model));
    var v := ObjectStart(body).value;
    AllMembersModel(body[v..], v, Found(None, None));
    SplicedPeek(body, out, span, Quoted(model), 0);
    assert body[0..] == body && out[0..] == out;
    ObjectStartLocal(body, out, span.0);
    AllMembersSpliced(body, out, span, model, v, Found(None, None));
  }

  lemma ObjectStartLocal(s: bytes, t: bytes, n: nat)
    requires SamePeek(s, t, n) && ObjectStart(s).Some? && ObjectStart(s).value <= n
    ensures ObjectStart(t) == ObjectStart(s)
  {
    hide Ws;
    var w := Ws(s);
    var v := w + 1 + Ws(s[w + 1..]);
    PeekPrefix(s, t, n, 0, w);
    WsLocal(s, t);
    PeekPrefix(s, t, n, w + 1, v);
    WsLocal(s[w + 1..], t[w + 1..]);
    assert s[..n + 1][w] == t[..n + 1][w];
    assert s[..n + 1][v] == t[..n + 1][v];
  }
}
