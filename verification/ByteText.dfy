/** Bytes, byte strings, and the ASCII constants of JSON text. */
module ByteText {

  type byte = b: int | 0 <= b < 256

  type Bytes = seq<byte>

  const TAB: byte := 0x09
  const LINE_FEED: byte := 0x0A
  const CARRIAGE_RETURN: byte := 0x0D
  const SPACE: byte := 0x20
  const QUOTE: byte := 0x22
  const PLUS: byte := 0x2B
  const COMMA: byte := 0x2C
  const MINUS: byte := 0x2D
  const POINT: byte := 0x2E
  const SLASH: byte := 0x2F
  const COLON: byte := 0x3A
  const UPPER_E: byte := 0x45
  const OPEN_BRACKET: byte := 0x5B
  const BACKSLASH: byte := 0x5C
  const CLOSE_BRACKET: byte := 0x5D
  const LOWER_B: byte := 0x62
  const LOWER_E: byte := 0x65
  const LOWER_F: byte := 0x66
  const LOWER_N: byte := 0x6E
  const LOWER_R: byte := 0x72
  const LOWER_T: byte := 0x74
  const LOWER_U: byte := 0x75
  const OPEN_BRACE: byte := 0x7B
  const CLOSE_BRACE: byte := 0x7D

  const TRUE_TEXT: Bytes := [0x74, 0x72, 0x75, 0x65]
  const FALSE_TEXT: Bytes := [0x66, 0x61, 0x6C, 0x73, 0x65]
  const NULL_TEXT: Bytes := [0x6E, 0x75, 0x6C, 0x6C]

  predicate IsDigit(b: byte) { 0x30 <= b <= 0x39 }

  predicate AllDigits(s: Bytes) { forall i | 0 <= i < |s| :: IsDigit(s[i]) }

  predicate IsHexDigit(b: byte) { IsDigit(b) || 0x41 <= b <= 0x46 || 0x61 <= b <= 0x66 }

  function HexDigitValue(b: byte): (v: nat)
    requires IsHexDigit(b)
    ensures v < 16
  {
    if IsDigit(b) then b - 0x30 else if b <= 0x46 then b - 0x41 + 10 else b - 0x61 + 10
  }

  /** RFC 8259, section 2: ws = *( %x20 / %x09 / %x0A / %x0D ). */
  predicate IsBlank(b: byte) { b == SPACE || b == TAB || b == LINE_FEED || b == CARRIAGE_RETURN }

  predicate AllBlank(s: Bytes) { forall i | 0 <= i < |s| :: IsBlank(s[i]) }

  /** The octet of an ASCII character; the strings written here hold no others. */
  function Octet(c: char): byte { if c as int < 128 then c as int else 0 }

  /** The octets of an ASCII string. */
  function Ascii(s: string): (b: Bytes)
    ensures |b| == |s|
    ensures forall i | 0 <= i < |s| :: b[i] == Octet(s[i])
  {
    seq(|s|, i requires 0 <= i < |s| => Octet(s[i]))
  }

  // --- Concatenation: associative, and the solver is told where ------------------------

  lemma Concat3(a: Bytes, b: Bytes, c: Bytes)
    ensures a + (b + c) == a + b + c
  {
  }

  lemma Concat4(a: Bytes, b: Bytes, c: Bytes, d: Bytes)
    ensures a + (b + (c + d)) == a + b + c + d
  {
    Concat3(b, c, d);
    Concat3(a, b + c, d);
    Concat3(a, b, c);
  }

  lemma Concat5(a: Bytes, b: Bytes, c: Bytes, d: Bytes, e: Bytes)
    ensures a + (b + (c + (d + e))) == a + b + c + d + e
  {
    Concat4(b, c, d, e);
    Concat3(a, b + c + d, e);
    Concat4(a, b, c, d);
    Concat3(b, c, d);
  }

  lemma Uncons(s: Bytes)
    requires s != []
    ensures s == [s[0]] + s[1..]
  {
  }

  lemma Uncons2(s: Bytes)
    requires |s| >= 2
    ensures s == [s[0], s[1]] + s[2..] && s[1..][0] == s[1] && s[1..][1..] == s[2..]
  {
  }

  lemma SameSplit(a: Bytes, x: Bytes, b: Bytes, y: Bytes)
    requires a + x == b + y && (|a| == |b| || |x| == |y|)
    ensures a == b && x == y
  {
    assert a == (a + x)[..|a|] && b == (b + y)[..|b|];
    assert x == (a + x)[|a|..] && y == (b + y)[|b|..];
  }
}
