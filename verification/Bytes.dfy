/** Byte strings. A Rust `String` is a byte string that satisfies `ValidUtf8`. */
module Bytes {

  newtype byte = x: int | 0 <= x < 256
  type bytes = seq<byte>

  // The code points the wire formats below give a meaning to.
  const TAB: byte := 0x09
  const LF: byte := 0x0A
  const CR: byte := 0x0D
  const SPACE: byte := 0x20
  const QUOTE: byte := 0x22
  const PLUS: byte := 0x2B
  const COMMA: byte := 0x2C
  const MINUS: byte := 0x2D
  const DOT: byte := 0x2E
  const SLASH: byte := 0x2F
  const COLON: byte := 0x3A
  const LBRACKET: byte := 0x5B
  const BACKSLASH: byte := 0x5C
  const RBRACKET: byte := 0x5D
  const LBRACE: byte := 0x7B
  const RBRACE: byte := 0x7D

  predicate Continuation(b: byte) {
    0x80 <= b <= 0xBF
  }

  /** How many bytes the well-formed UTF-8 sequence at the front of `s` has; 0 if there is none (RFC 3629, section 4). */
  function Utf8Lead(s: bytes): (n: nat)
    ensures n <= |s|
  {
    if s == [] then 0
    else if s[0] < 0x80 then 1
    else if |s| >= 2 && 0xC2 <= s[0] <= 0xDF && Continuation(s[1]) then 2
    else if |s| >= 3 && Continuation(s[1]) && Continuation(s[2])
            && 0xE0 <= s[0] <= 0xEF && (s[0] == 0xE0 ==> s[1] >= 0xA0) && (s[0] == 0xED ==> s[1] <= 0x9F) then 3
    else if |s| >= 4 && Continuation(s[1]) && Continuation(s[2]) && Continuation(s[3])
            && 0xF0 <= s[0] <= 0xF4 && (s[0] == 0xF0 ==> s[1] >= 0x90) && (s[0] == 0xF4 ==> s[1] <= 0x8F) then 4
    else 0
  }

  /** What Rust requires of every `str`. */
  predicate ValidUtf8(s: bytes)
  {
    s == [] || (Utf8Lead(s) > 0 && ValidUtf8(s[Utf8Lead(s)..]))
  }

  lemma Utf8LeadAppend(a: bytes, b: bytes)
    requires Utf8Lead(a) > 0
    ensures Utf8Lead(a + b) == Utf8Lead(a)
  {
  }

  lemma {:induction false} ValidUtf8Append(a: bytes, b: bytes)
    requires ValidUtf8(a) && ValidUtf8(b)
    ensures ValidUtf8(a + b)
    decreases |a|
  {
    hide Utf8Lead;
    if a == [] {
      assert a + b == b;
    } else {
      var n := Utf8Lead(a);
      Utf8LeadAppend(a, b);
      ValidUtf8Append(a[n..], b);
      DropFront(a, b, n);
    }
  }

  /** Text cut before an ASCII byte is text on both sides. */
  lemma {:induction false} Utf8Halves(s: bytes, k: nat)
    requires ValidUtf8(s) && k < |s| && s[k] < 0x80
    ensures ValidUtf8(s[..k]) && ValidUtf8(s[k..])
    decreases |s|
  {
    hide Utf8Lead;
    var n := Utf8Lead(s);
    if k == 0 {
      assert s[..0] == [] && s[0..] == s;
    } else {
      LeadPast(s, k);
      LeadIsText(s);
      Utf8Halves(s[n..], k - n);
      assert s[n..][k - n..] == s[k..];
      assert s[..k] == s[..n] + s[n..][..k - n];
      ValidUtf8Append(s[..n], s[n..][..k - n]);
    }
  }

  /** An ASCII byte is no part of a longer sequence. */
  lemma LeadPast(s: bytes, k: nat)
    requires Utf8Lead(s) > 0 && 0 < k < |s| && s[k] < 0x80
    ensures Utf8Lead(s) <= k
  {
  }

  lemma LeadIsText(s: bytes)
    requires Utf8Lead(s) > 0
    ensures ValidUtf8(s[..Utf8Lead(s)])
  {
    var x := s[..Utf8Lead(s)];
    assert Utf8Lead(x) == |x| && x[|x|..] == [];
  }

  /** A text of ASCII characters, as bytes. */
  function FromText(s: string): bytes
    requires forall i :: 0 <= i < |s| ==> s[i] < 128 as char
  {
    seq(|s|, i requires 0 <= i < |s| => s[i] as int as byte)
  }

  /** A number in `width` bytes, the highest first. */
  function BigEndian(n: nat, width: nat): bytes {
    if width == 0 then [] else BigEndian(n / 256, width - 1) + [(n % 256) as byte]
  }

  // ----- taking joined byte strings apart

  lemma DropFront(a: bytes, b: bytes, k: nat)
    requires k <= |a|
    ensures (a + b)[k..] == a[k..] + b
    ensures (a + b)[..k] == a[..k]
  {
  }

  lemma Halves(a: bytes, b: bytes)
    ensures (a + b)[|a|..] == b && (a + b)[..|a|] == a
  {
  }

  lemma Assoc3(a: bytes, b: bytes, c: bytes, d: bytes)
    ensures (a + b + c) + d == a + (b + (c + d))
  {
  }

  /** Every byte is ASCII. */
  predicate Ascii(s: bytes) {
    forall i :: 0 <= i < |s| ==> s[i] < 0x80
  }

  lemma {:induction false} AsciiIsUtf8(s: bytes)
    requires Ascii(s)
    ensures ValidUtf8(s)
  {
    if s != [] {
      AsciiIsUtf8(s[1..]);
    }
  }
}
