/** The scanner of `json.rs`: a cursor that moves over the body in place. */
module JsonProbe {
  import opened Wrappers
  import opened Bytes
  import opened JsonStrings
  import opened JsonMeaning
  import opened JsonGrammar
  import opened JsonScan

  lemma StringRestAt(b: bytes, k: nat)
    requires k <= |b|
    ensures StringRest(b[k..])
         == if k == |b| then None
            else if b[k] == QUOTE then Some(1)
            else if b[k] != BACKSLASH then Plus(1, StringRest(b[k + 1..]))
            else if k + 2 > |b| then None
            else Plus(2, StringRest(b[k + 2..]))
  {
    if k < |b| {
      assert b[k..][1..] == b[k + 1..];
      if k + 2 <= |b| { assert b[k..][2..] == b[k + 2..]; }
    }
  }

  lemma NestedAt(b: bytes, k: nat, depth: nat)
    requires k <= |b| && (depth == 0 ==> k < |b| && Opens(b[k]))
    ensures Nested(b[k..], depth)
         == if k == |b| then None
            else if Opens(b[k]) then Plus(1, Nested(b[k + 1..], depth + 1))
            else if Closes(b[k]) then (if depth == 1 then Some(1) else Plus(1, Nested(b[k + 1..], depth - 1)))
            else if b[k] != QUOTE then Plus(1, Nested(b[k + 1..], depth))
            else if StringToken(b[k..]).None? then None
            else Plus(StringToken(b[k..]).value, Nested(b[k + StringToken(b[k..]).value..], depth))
  {
    hide StringToken;
    if k < |b| {
      assert b[k..][1..] == b[k + 1..];
      var n := StringToken(b[k..]).GetOr(0);
      if n <= |b[k..]| { assert b[k..][n..] == b[k + n..]; }
    }
  }

  class Scanner {
    const b: bytes
    var i: nat

    ghost predicate Valid()
      reads this
    {
      i <= |b|
    }

    /** The bytes not yet consumed. */
    function Rest(): bytes
      requires Valid()
      reads this
    {
      b[i..]
    }

    /** The cursor went from `from` by what `r` says; where it stopped on failure does not matter. */
    ghost predicate Moved(from: nat, r: Option<nat>)
      reads this
    {
      Valid() && (r.Some? ==> i == from + r.value)
    }

    constructor (body: bytes)
      ensures Valid() && b == body && i == 0
    {
      b := body;
      i := 0;
    }

    function Peek(): Option<byte>
      requires Valid()
      reads this
    {
      if i < |b| then Some(b[i]) else None
    }

    method Next() returns (c: Option<byte>)
      requires Valid()
      modifies this
      ensures Valid() && c == old(Peek())
      ensures i == if c.Some? then old(i) + 1 else old(i)
    {
      c := Peek();
      if c.Some? {
        i := i + 1;
      }
    }

    method SkipWs()
      requires Valid()
      modifies this
      ensures Valid() && i == old(i) + Ws(old(Rest()))
    {
      while i < |b| && IsWs(b[i])
        invariant Valid() && i + Ws(b[i..]) == old(i) + Ws(old(Rest()))
        decreases |b| - i
      {
        assert b[i..][1..] == b[i + 1..];
        i := i + 1;
      }
    }

    method Eat(c: byte) returns (ok: bool)
      requires Valid()
      modifies this
      ensures Valid() && ok == (old(Peek()) == Some(c))
      ensures ok ==> i == old(i) + 1
    {
      var got := Next();
      ok := got == Some(c);
    }

    method EatLiteral(lit: bytes) returns (ok: bool)
      requires Valid()
      modifies this
      ensures ok == LiteralToken(old(Rest()), lit).Some?
      ensures Moved(old(i), LiteralToken(old(Rest()), lit))
    {
      assert i + |lit| <= |b| ==> b[i..][..|lit|] == b[i..i + |lit|];
      if i + |lit| <= |b| && b[i..i + |lit|] == lit {
        i := i + |lit|;
        return true;
      }
      return false;
    }

    /** The offset from the cursor of the next quote or backslash, as `memchr2` finds it. */
    method FindQuoteOrEscape() returns (offset: Option<nat>)
      requires Valid()
      ensures offset.Some? ==>
                i + offset.value < |b| && (b[i + offset.value] == QUOTE || b[i + offset.value] == BACKSLASH)
      ensures StringRest(Rest())
           == if offset.Some? then Plus(offset.value, StringRest(b[i + offset.value..])) else None
    {
      hide StringRest;
      var k := 0;
      assert b[i + k..] == Rest();
      while i + k < |b| && b[i + k] != QUOTE && b[i + k] != BACKSLASH
        invariant i + k <= |b|
        invariant StringRest(Rest()) == Plus(k, StringRest(b[i + k..]))
        decreases |b| - i - k
      {
        StringRestAt(b, i + k);
        k := k + 1;
      }
      StringRestAt(b, i + k);
      offset := if i + k < |b| then Some(k) else None;
    }

    method ReadString() returns (span: Option<(nat, nat)>)
      requires Valid()
      modifies this
      ensures span.Some? == StringToken(old(Rest())).Some?
      ensures Moved(old(i), StringToken(old(Rest())))
      ensures span.Some? ==> span.value == (old(i), i)
    {
      hide StringRest;
      var start := i;
      var ok := Eat(QUOTE);
      if !ok {
        return None;
      }
      assert b[start..][1..] == b[i..];
      ghost var token := StringToken(b[start..]);
      while true
        invariant Valid() && start < i
        invariant token == Plus(i - start, StringRest(b[i..]))
        decreases |b| - i
      {
        var offset := FindQuoteOrEscape();
        if offset.None? {
          return None;
        }
        i := i + offset.value;
        StringRestAt(b, i);
        if b[i] == QUOTE {
          i := i + 1;
          return Some((start, i));
        }
        if i + 2 > |b| {
          return None;
        }
        i := i + 2;
      }
    }

    method SkipOneValue() returns (ok: bool)
      requires Valid()
      modifies this
      ensures ok == SkipValue(old(Rest())).Some?
      ensures Moved(old(i), SkipValue(old(Rest())))
    {
      match Peek()
      case None =>
        return false;
      case Some(c) =>
        if c == QUOTE {
          var span := ReadString();
          ok := span.Some?;
        } else if Opens(c) {
          ok := SkipNested();
        } else if c == 0x74 {
          ok := EatLiteral(TRUE_TEXT);
        } else if c == 0x66 {
          ok := EatLiteral(FALSE_TEXT);
        } else if c == 0x6E {
          ok := EatLiteral(NULL_TEXT);
        } else if c == MINUS || IsDigit(c) {
          while i < |b| && NumberByte(b[i])
            invariant Valid() && i + NumberRun(b[i..]) == old(i) + NumberRun(old(Rest()))
            decreases |b| - i
          {
            assert b[i..][1..] == b[i + 1..];
            i := i + 1;
          }
          ok := true;
        } else {
          ok := false;
        }
    }

    /** Skip a balanced object or array; brackets inside strings do not count. */
    method SkipNested() returns (ok: bool)
      requires Valid() && i < |b| && Opens(b[i])
      modifies this
      ensures ok == Nested(old(Rest()), 0).Some?
      ensures Moved(old(i), Nested(old(Rest()), 0))
    {
      hide Nested, StringToken;
      var depth: nat := 0;
      while true
        invariant Valid() && old(i) <= i
        invariant depth == 0 ==> i == old(i)
        invariant Nested(old(Rest()), 0) == Plus(i - old(i), Nested(b[i..], depth))
        decreases |b| - i
      {
        NestedAt(b, i, depth);
        if i == |b| {
          return false;
        }
        var c := b[i];
        i := i + 1;
        if Opens(c) {
          depth := depth + 1;
        } else if Closes(c) {
          depth := depth - 1;
          if depth == 0 {
            return true;
          }
        } else if c == QUOTE {
          i := i - 1;
          var span := ReadString();
          if span.None? {
            return false;
          }
        }
      }
    }
  }

  lemma SliceShift(b: bytes, i: nat, lo: nat, hi: nat)
    requires lo <= hi && i + hi <= |b|
    ensures b[i..][lo..hi] == b[i + lo..i + hi]
  {
    var s, t := b[i..][lo..hi], b[i + lo..i + hi];
    assert |s| == |t| && forall j :: 0 <= j < |s| ==> s[j] == t[j];
  }

  lemma KeyPartAt(b: bytes, i: nat)
    requires i <= |b|
    ensures (var w := i + Ws(b[i..]);
             var k := StringToken(b[w..]);
             KeyPart(b[i..])
             == if k.None? || BACKSLASH in b[w + 1..w + k.value - 1] then None
                else Some((b[w + 1..w + k.value - 1], w + k.value - i)))
  {
    hide Ws, StringToken;
    var w := Ws(b[i..]);
    assert b[i..][w..] == b[i + w..];
    if StringToken(b[i + w..]).Some? {
      var k := StringToken(b[i + w..]).value;
      SliceShift(b, i, w + 1, w + k - 1);
    }
  }

  lemma ColonPartAt(b: bytes, i: nat, n: nat)
    requires i + n <= |b|
    ensures (var c := i + n + Ws(b[i + n..]);
             ColonPart(b[i..], n)
             == if c >= |b| || b[c] != COLON then None else Some(c + 1 + Ws(b[c + 1..]) - i))
  {
    hide Ws;
    assert b[i..][n..] == b[i + n..];
    var c := n + Ws(b[i + n..]);
    if i + c < |b| { assert b[i..][c] == b[i + c] && b[i..][c + 1..] == b[i + c + 1..]; }
  }

  lemma SeparatorAt(b: bytes, i: nat, n: nat)
    requires i + n <= |b|
    ensures (var w := i + n + Ws(b[i + n..]);
             SeparatorAfter(b[i..], n)
             == if w < |b| && b[w] == COMMA then Some((w - i, true))
                else if w < |b| && b[w] == RBRACE && w + 1 + Ws(b[w + 1..]) == |b| then Some((w - i, false))
                else None)
  {
    hide Ws;
    var s := b[i..];
    assert s[n..] == b[i + n..];
    var w := n + Ws(s[n..]);
    if w < |s| { assert s[w] == b[i + w] && s[w + 1..] == b[i + w + 1..]; }
  }

  lemma {:induction false} OneMemberAt(b: bytes, i: nat, f: Found)
    requires i <= |b|
    ensures OneMember(b[i..], i, f)
         == match KeyAndColon(b[i..])
            case None => None
            case Some(kv) =>
              match MemberValue(kv.0, b[i + kv.1..], i + kv.1, f)
              case None => None
              case Some(ng) => Some((kv.1 + ng.0, ng.1))
  {
    hide KeyAndColon, MemberValue;
    if KeyAndColon(b[i..]).Some? {
      var v := KeyAndColon(b[i..]).value.1;
      assert b[i..][v..] == b[i + v..];
    }
  }

  lemma {:induction false} AllMembersAt(b: bytes, i: nat, f: Found)
    requires i <= |b|
    ensures AllMembers(b[i..], i, f)
         == match Turn(b[i..], i, f)
            case None => None
            case Some(t) => if t.1 then AllMembers(b[i + t.0..], i + t.0, t.2) else Some(t.2)
  {
    hide Turn;
    if Turn(b[i..], i, f).Some? {
      var k := Turn(b[i..], i, f).value.0;
      assert b[i..][k..] == b[i + k..];
    }
  }

  lemma {:induction false} KeyAndColonParts(s: bytes)
    ensures KeyAndColon(s)
         == match KeyPart(s)
            case None => None
            case Some(kn) =>
              match ColonPart(s, kn.1)
              case None => None
              case Some(v) => Some((kn.0, v))
  {
    hide KeyPart, ColonPart;
  }

  /** The front half of the member loop: an unescaped key and the colon after it. */
  method ReadKey(s: Scanner) returns (key: Option<bytes>)
    requires s.Valid()
    modifies s
    ensures s.Valid()
    ensures key.Some? == KeyAndColon(old(s.Rest())).Some?
    ensures key.Some? ==>
              KeyAndColon(old(s.Rest())).value.0 == key.value && s.i == old(s.i) + KeyAndColon(old(s.Rest())).value.1
  {
    hide KeyPart, ColonPart, KeyAndColon;
    ghost var from := s.i;
    KeyAndColonParts(s.b[from..]);
    key := ReadKeyPart(s);
    if key.None? {
      return;
    }
    var ok := ReadColonPart(s, from);
    if !ok {
      key := None;
    }
  }

  /** The key token; an escaped key is not looked into. */
  method ReadKeyPart(s: Scanner) returns (key: Option<bytes>)
    requires s.Valid()
    modifies s
    ensures s.Valid()
    ensures key.Some? == KeyPart(old(s.Rest())).Some?
    ensures key.Some? ==> KeyPart(old(s.Rest())) == Some((key.value, s.i - old(s.i))) && s.i >= old(s.i)
  {
    hide Ws, StringToken, KeyPart;
    KeyPartAt(s.b, s.i);
    s.SkipWs();
    var token := s.ReadString();
    if token.None? {
      return None;
    }
    var (ks, ke) := token.value;
    var k := s.b[ks + 1..ke - 1];
    if BACKSLASH in k {
      return None;
    }
    key := Some(k);
  }

  /** The colon after a key that began at `from`, with whitespace around it. */
  method ReadColonPart(s: Scanner, ghost from: nat) returns (ok: bool)
    requires s.Valid() && from <= s.i
    modifies s
    ensures s.Valid()
    ensures ok == ColonPart(s.b[from..], old(s.i) - from).Some?
    ensures ok ==> s.i == from + ColonPart(s.b[from..], old(s.i) - from).value
  {
    hide Ws, ColonPart;
    ColonPartAt(s.b, from, s.i - from);
    s.SkipWs();
    ok := s.Eat(COLON);
    if ok {
      s.SkipWs();
    }
  }

  /** The back half: the value, and what the scan has seen once it is read. */
  method ReadMemberValue(s: Scanner, key: bytes, model: Option<(nat, nat)>, stream: Option<bool>)
    returns (seen: Option<(Option<(nat, nat)>, Option<bool>)>)
    requires s.Valid()
    modifies s
    ensures s.Valid()
    ensures seen.Some? == MemberValue(key, old(s.Rest()), old(s.i), Found(model, stream)).Some?
    ensures seen.Some? ==>
              MemberValue(key, old(s.Rest()), old(s.i), Found(model, stream))
              == Some((s.i - old(s.i), Found(seen.value.0, seen.value.1)))
  {
    hide StringToken, SkipValue, LiteralToken;
    if key == MODEL_KEY {
      var token := s.ReadString();
      return if token.Some? then Some((token, stream)) else None;
    } else if key == STREAM_KEY {
      match s.Peek() {
        case Some(c) =>
          if c == 0x74 {
            var ok := s.EatLiteral(TRUE_TEXT);
            return if ok then Some((model, Some(true))) else None;
          } else if c == 0x66 {
            var ok := s.EatLiteral(FALSE_TEXT);
            return if ok then Some((model, Some(false))) else None;
          } else if c == 0x6E {
            var ok := s.EatLiteral(NULL_TEXT);
            return if ok then Some((model, None)) else None;
          }
          return None;
        case None =>
          return None;
      }
    } else {
      var ok := s.SkipOneValue();
      return if ok then Some((model, stream)) else None;
    }
  }

  /** One turn of the member loop: a member and the separator after it. */
  method ReadTurn(s: Scanner, model: Option<(nat, nat)>, stream: Option<bool>)
    returns (turn: Option<(bool, Option<(nat, nat)>, Option<bool>)>)
    requires s.Valid()
    modifies s
    ensures s.Valid()
    ensures turn.Some? == Turn(old(s.Rest()), old(s.i), Found(model, stream)).Some?
    ensures turn.Some? ==>
              (var (k, more, g) := Turn(old(s.Rest()), old(s.i), Found(model, stream)).value;
               && turn.value == (more, g.model, g.stream)
               && (more ==> s.i == old(s.i) + k))
  {
    hide Ws, KeyAndColon, MemberValue, OneMember, SeparatorAfter;
    ghost var from := s.i;
    ghost var f := Found(model, stream);
    OneMemberAt(s.b, from, f);
    var key := ReadKey(s);
    if key.None? {
      return None;
    }
    var v := ReadMemberValue(s, key.value, model, stream);
    if v.None? {
      return None;
    }
    SeparatorAt(s.b, from, s.i - from);
    s.SkipWs();
    var c := s.Next();
    if c == Some(COMMA) {
      return Some((true, v.value.0, v.value.1));
    } else if c == Some(RBRACE) {
      s.SkipWs();
      return if s.i == |s.b| then Some((false, v.value.0, v.value.1)) else None;
    }
    return None;
  }

  /** The opening brace, with whitespace around it; `false` for an empty object or anything else. */
  method ReadObjectStart(s: Scanner) returns (ok: bool)
    requires s.Valid() && s.i == 0
    modifies s
    ensures s.Valid()
    ensures ok == ObjectStart(s.b).Some?
    ensures ok ==> s.i == ObjectStart(s.b).value
  {
    hide Ws;
    assert s.Rest() == s.b;
    s.SkipWs();
    ok := s.Eat(LBRACE);
    if !ok {
      return;
    }
    s.SkipWs();
    ok := s.Peek() != Some(RBRACE);
  }

  lemma {:induction false} FoundInAt(b: bytes)
    ensures FoundIn(b)
         == match ObjectStart(b)
            case None => None
            case Some(v) => AllMembers(b[v..], v, Found(None, None))
  {
    hide ObjectStart, AllMembers;
  }

  /** The member loop over a whole body, to its closing brace and the end of the input. */
  method ScanFields(body: bytes) returns (found: Option<Found>)
    ensures found == FoundIn(body)
  {
    hide ObjectStart, Turn, AllMembers, FoundIn;
    FoundInAt(body);
    var s := new Scanner(body);
    var ok := ReadObjectStart(s);
    if !ok {
      return None;
    }
    var model: Option<(nat, nat)> := None;
    var stream: Option<bool> := None;
    var more := true;
    while more
      invariant s.Valid() && s.b == body
      invariant more ==> FoundIn(body) == AllMembers(body[s.i..], s.i, Found(model, stream))
      invariant !more ==> FoundIn(body) == Some(Found(model, stream))
      decreases more, |body| - s.i
    {
      AllMembersAt(body, s.i, Found(model, stream));
      var turn := ReadTurn(s, model, stream);
      if turn.None? {
        return None;
      }
      more, model, stream := turn.value.0, turn.value.1, turn.value.2;
    }
    found := Some(Found(model, stream));
  }

  /**
   Scan a top-level object for `model` and `stream`. `None` sends the caller to a full parse.
   */
  method ProbeBody(body: bytes) returns (r: Option<Probed>)
    ensures r == Probe(body)
    ensures r.Some? ==> SpanOf(body, r.value.span) && Says(TokenBody(body, r.value.span), r.value.model)
  {
    hide FoundIn, DecodeString, Says;
    var found := ScanFields(body);
    if found.None? || found.value.model.None? {
      return None;
    }
    FoundSpan(body);
    var span := found.value.model.value;
    var text := DecodeString(body[span.0 + 1..span.1 - 1]);
    ReadableIff(body[span.0 + 1..span.1 - 1]);
    if text.None? {
      return None;
    }
    r := Some(Probed(text.value, span, found.value.stream));
  }

  /** Replace the token at `span`; every byte outside it stays as it was. */
  method SpliceModel(body: bytes, span: (nat, nat), model: bytes) returns (out: bytes)
    requires span.0 <= span.1 <= |body|
    ensures out == Splice(body, span, model)
    ensures out[..span.0] == body[..span.0]
    ensures out[span.0 + |Quoted(model)|..] == body[span.1..]
  {
    var quoted := Quoted(model);
    out := [];
    out := out + body[..span.0];
    out := out + quoted;
    out := out + body[span.1..];
  }
}
