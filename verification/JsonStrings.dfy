/**
 JSON string bodies: the bytes between the quotes of a string token, how they are read
 (section 7 of RFC 8259) and how a replacement is written.
 */
module JsonStrings {
  import opened Wrappers
  import opened Bytes

  const LOWER_B: byte := 0x62
  const LOWER_F: byte := 0x66
  const LOWER_N: byte := 0x6E
  const LOWER_R: byte := 0x72
  const LOWER_T: byte := 0x74
  const LOWER_U: byte := 0x75

  /** The byte a two-byte escape stands for. */
  function SimpleEscape(c: byte): Option<byte> {
    if c == QUOTE || c == BACKSLASH || c == SLASH then Some(c)
    else if c == LOWER_B then Some(0x08)
    else if c == LOWER_F then Some(0x0C)
    else if c == LOWER_N then Some(LF)
    else if c == LOWER_R then Some(CR)
    else if c == LOWER_T then Some(TAB)
    else None
  }

  function HexDigit(c: byte): Option<nat> {
    if 0x30 <= c <= 0x39 then Some(c as int - 0x30)
    else if 0x41 <= c <= 0x46 then Some(c as int - 0x41 + 10)
    else if 0x61 <= c <= 0x66 then Some(c as int - 0x61 + 10)
    else None
  }

  /** The code unit of a six-byte escape at the front of `s`. */
  function UnicodeEscape(s: bytes): (r: Option<nat>)
    ensures r.Some? ==> |s| >= 6 && r.value < 0x10000
  {
    if |s| >= 6 && s[0] == BACKSLASH && s[1] == LOWER_U
       && HexDigit(s[2]).Some? && HexDigit(s[3]).Some? && HexDigit(s[4]).Some? && HexDigit(s[5]).Some?
    then Some(HexDigit(s[2]).value * 4096 + HexDigit(s[3]).value * 256 + HexDigit(s[4]).value * 16 + HexDigit(s[5]).value)
    else None
  }

  /** The UTF-8 encoding of a code point (RFC 3629, section 3). */
  function EncodeUtf8(cp: nat): bytes
    requires cp < 0x110000
  {
    if cp < 0x80 then [cp as byte]
    else if cp < 0x800 then [(0xC0 + cp / 64) as byte, (0x80 + cp % 64) as byte]
    else if cp < 0x10000 then [(0xE0 + cp / 4096) as byte, (0x80 + cp / 64 % 64) as byte, (0x80 + cp % 64) as byte]
    else [(0xF0 + cp / 262144) as byte, (0x80 + cp / 4096 % 64) as byte, (0x80 + cp / 64 % 64) as byte, (0x80 + cp % 64) as byte]
  }

  /** The grammar's `*char`: no bare quote, backslash or control byte, and only known escapes. */
  predicate IsStringBody(s: bytes) {
    s == [] ||
    (if s[0] == BACKSLASH then
       (|s| >= 2 && SimpleEscape(s[1]).Some? && IsStringBody(s[2..]))
       || (UnicodeEscape(s).Some? && IsStringBody(s[6..]))
     else
       s[0] >= 0x20 && s[0] != QUOTE && IsStringBody(s[1..]))
  }

  function Prepend(front: bytes, rest: Option<bytes>): Option<bytes> {
    match rest
    case Some(r) => Some(front + r)
    case None => None
  }

  /**
   The bytes a string body stands for. Surrogate halves must come in pairs; the
   source's parser is strict about that where the grammar is not.
   */
  function Unescape(s: bytes): Option<bytes> {
    if s == [] then Some([])
    else if s[0] == BACKSLASH then
      if |s| >= 2 && SimpleEscape(s[1]).Some? then Prepend([SimpleEscape(s[1]).value], Unescape(s[2..]))
      else if UnicodeEscape(s).Some? then
        var unit := UnicodeEscape(s).value;
        if 0xD800 <= unit < 0xDC00 then
          if UnicodeEscape(s[6..]).Some? && 0xDC00 <= UnicodeEscape(s[6..]).value < 0xE000 then
            var low := UnicodeEscape(s[6..]).value;
            Prepend(EncodeUtf8(0x10000 + (unit - 0xD800) * 1024 + (low - 0xDC00)), Unescape(s[12..]))
          else None
        else if 0xDC00 <= unit < 0xE000 then None
        else Prepend(EncodeUtf8(unit), Unescape(s[6..]))
      else None
    else if s[0] < 0x20 || s[0] == QUOTE then None
    else Prepend([s[0]], Unescape(s[1..]))
  }

  /** A string body read as a Rust `String`: escapes resolved, then checked as UTF-8. */
  function DecodeString(body: bytes): Option<bytes> {
    match Unescape(body)
    case Some(s) => if ValidUtf8(s) then Some(s) else None
    case None => None
  }

  function LowerHex(n: nat): byte
    requires n < 16
  {
    if n < 10 then (0x30 + n) as byte else (0x61 + n - 10) as byte
  }

  function EscapeByte(c: byte): bytes {
    if c == QUOTE || c == BACKSLASH then [BACKSLASH, c]
    else if c == 0x08 then [BACKSLASH, LOWER_B]
    else if c == TAB then [BACKSLASH, LOWER_T]
    else if c == LF then [BACKSLASH, LOWER_N]
    else if c == 0x0C then [BACKSLASH, LOWER_F]
    else if c == CR then [BACKSLASH, LOWER_R]
    else if c < 0x20 then [BACKSLASH, LOWER_U, 0x30, 0x30, LowerHex(c as int / 16), LowerHex(c as int % 16)]
    else [c]
  }

  function Escape(s: bytes): bytes {
    if s == [] then [] else EscapeByte(s[0]) + Escape(s[1..])
  }

  /** A string as the writer puts it on the wire, quotes included. */
  function Quoted(s: bytes): bytes {
    [QUOTE] + Escape(s) + [QUOTE]
  }

  lemma EscapeByteUnescapes(c: byte, rest: bytes)
    ensures Unescape(EscapeByte(c) + rest) == Prepend([c], Unescape(rest))
    ensures IsStringBody(rest) ==> IsStringBody(EscapeByte(c) + rest)
  {
    var e := EscapeByte(c);
    var s := e + rest;
    assert s[|e|..] == rest;
    if |e| == 6 {
      assert c < 0x20 && SimpleEscape(LOWER_U).None?;
      assert s[0] == BACKSLASH && s[1] == LOWER_U && s[2] == 0x30 && s[3] == 0x30;
      assert HexDigit(s[4]) == Some(c as int / 16) && HexDigit(s[5]) == Some(c as int % 16);
      assert UnicodeEscape(s) == Some(c as int);
      assert EncodeUtf8(c as int) == [c];
    }
  }

  /** Reading back what the writer wrote, for every byte string. */
  lemma {:induction false} UnescapeEscape(s: bytes)
    ensures Unescape(Escape(s)) == Some(s)
    ensures IsStringBody(Escape(s))
  {
    if s != [] {
      UnescapeEscape(s[1..]);
      EscapeByteUnescapes(s[0], Escape(s[1..]));
      assert [s[0]] + s[1..] == s;
    }
  }

  /** Every Rust string survives the trip through a JSON string token. */
  lemma DecodeEscape(s: bytes)
    requires ValidUtf8(s)
    ensures DecodeString(Escape(s)) == Some(s)
  {
    UnescapeEscape(s);
  }

  /** Only grammatical bodies are ever read as strings. */
  lemma {:induction false} UnescapedIsBody(s: bytes)
    requires Unescape(s).Some?
    ensures IsStringBody(s)
    decreases |s|
  {
    if s == [] {
    } else if s[0] == BACKSLASH {
      if |s| >= 2 && SimpleEscape(s[1]).Some? {
        UnescapedIsBody(s[2..]);
      } else {
        var unit := UnicodeEscape(s).value;
        if 0xD800 <= unit < 0xDC00 {
          UnescapedIsBody(s[12..]);
          assert s[6..][6..] == s[12..];
          assert IsStringBody(s[6..]);
        } else {
          UnescapedIsBody(s[6..]);
        }
      }
    } else {
      UnescapedIsBody(s[1..]);
    }
  }
}
