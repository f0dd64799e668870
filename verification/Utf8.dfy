/** UTF-8 (RFC 3629) and the surrogate arithmetic of UTF-16 (RFC 2781). */
module Utf8 {
  import opened ByteText

  predicate IsHighSurrogate(u: nat) { 0xD800 <= u <= 0xDBFF }

  predicate IsLowSurrogate(u: nat) { 0xDC00 <= u <= 0xDFFF }

  /** A Unicode scalar value: any code point that is not a surrogate. */
  predicate IsScalar(c: nat) { c <= 0x10FFFF && !IsHighSurrogate(c) && !IsLowSurrogate(c) }

  const REPLACEMENT: nat := 0xFFFD

  // --- Surrogate pairs -------------------------------------------------------

  function Combine(high: nat, low: nat): (c: nat)
    requires IsHighSurrogate(high) && IsLowSurrogate(low)
    ensures 0x10000 <= c <= 0x10FFFF
  {
    0x10000 + (high - 0xD800) * 0x400 + (low - 0xDC00)
  }

  /** RFC 2781, section 2.1: the two halves of a supplementary code point. */
  function Split(c: nat): (pair: (nat, nat))
    requires 0x10000 <= c <= 0x10FFFF
    ensures IsHighSurrogate(pair.0) && IsLowSurrogate(pair.1)
  {
    (0xD800 + (c - 0x10000) / 0x400, 0xDC00 + (c - 0x10000) % 0x400)
  }

  /** Pairs of surrogates and supplementary code points correspond one to one. */
  lemma SurrogatePairsAreABijection(high: nat, low: nat, c: nat)
    requires IsHighSurrogate(high) && IsLowSurrogate(low)
    requires 0x10000 <= c <= 0x10FFFF
    ensures Split(Combine(high, low)) == (high, low)
    ensures Combine(Split(c).0, Split(c).1) == c
  {
    var offset := (high - 0xD800) * 0x400 + (low - 0xDC00);
    assert offset / 0x400 == high - 0xD800;
    assert offset % 0x400 == low - 0xDC00;
  }

  // --- Encoding --------------------------------------------------------------

  /** The octets of a code point, with shifts and masks written as division and
      remainder by powers of two. */
  function Encode(c: nat): (s: Bytes)
    requires c <= 0x10FFFF
    ensures 1 <= |s| <= 4
  {
    if c < 0x80 then [c]
    else if c < 0x800 then [0xC0 + c / 0x40, 0x80 + c % 0x40]
    else if c < 0x10000 then [0xE0 + c / 0x1000, 0x80 + c / 0x40 % 0x40, 0x80 + c % 0x40]
    else [0xF0 + c / 0x40000, 0x80 + c / 0x1000 % 0x40, 0x80 + c / 0x40 % 0x40, 0x80 + c % 0x40]
  }

  /** On 32-bit words the shifts and masks are that division and remainder, and
      no "or" ever meets a bit already set. */
  lemma ShiftsAndMasks(c: bv32)
    requires c <= 0x10FFFF
    ensures c < 0x800 ==> 0xC0 | (c >> 6) == 0xC0 + c / 0x40
    ensures c < 0x10000 ==> 0xE0 | (c >> 12) == 0xE0 + c / 0x1000
    ensures 0xF0 | (c >> 18) == 0xF0 + c / 0x40000
    ensures 0x80 | ((c >> 12) & 0x3F) == 0x80 + (c / 0x1000) % 0x40
    ensures 0x80 | ((c >> 6) & 0x3F) == 0x80 + (c / 0x40) % 0x40
    ensures 0x80 | (c & 0x3F) == 0x80 + c % 0x40
  {
  }

  // --- The grammar of RFC 3629, section 4 --------------------------------------

  predicate IsTail(b: byte) { 0x80 <= b <= 0xBF }

  /** The length of the UTF8-char at the front of `s`, or 0 when there is none. */
  function CharLength(s: Bytes): (n: nat)
    ensures n <= 4 && n <= |s|
  {
    if |s| >= 1 && s[0] <= 0x7F then 1
    else if |s| >= 2 && 0xC2 <= s[0] <= 0xDF && IsTail(s[1]) then 2
    else if |s| >= 3 && IsTail(s[2])
            && (|| (s[0] == 0xE0 && 0xA0 <= s[1] <= 0xBF)
                || (0xE1 <= s[0] <= 0xEC && IsTail(s[1]))
                || (s[0] == 0xED && 0x80 <= s[1] <= 0x9F)
                || (0xEE <= s[0] <= 0xEF && IsTail(s[1]))) then 3
    else if |s| >= 4 && IsTail(s[2]) && IsTail(s[3])
            && (|| (s[0] == 0xF0 && 0x90 <= s[1] <= 0xBF)
                || (0xF1 <= s[0] <= 0xF3 && IsTail(s[1]))
                || (s[0] == 0xF4 && 0x80 <= s[1] <= 0x8F)) then 4
    else 0
  }

  /** UTF8-octets = *( UTF8-char ). */
  predicate IsUtf8(s: Bytes)
  {
    s == [] || (CharLength(s) > 0 && IsUtf8(s[CharLength(s)..]))
  }

  /** The code point a UTF8-char stands for (RFC 3629, section 3). */
  function DecodeChar(s: Bytes): (c: nat)
    requires CharLength(s) > 0
    ensures IsScalar(c)
  {
    var b0: int := s[0];
    match CharLength(s)
    case 1 => b0
    case 2 => (b0 - 0xC0) * 0x40 + Tail(s[1])
    case 3 => (b0 - 0xE0) * 0x1000 + Tail(s[1]) * 0x40 + Tail(s[2])
    case _ => (b0 - 0xF0) * 0x40000 + Tail(s[1]) * 0x1000 + Tail(s[2]) * 0x40 + Tail(s[3])
  }

  /** The six payload bits of a continuation octet. */
  function Tail(b: byte): (v: nat)
    requires IsTail(b)
    ensures v < 0x40
  {
    b - 0x80
  }

  lemma SixBitDigits(a: nat, b: nat, c: nat, d: nat)
    requires b < 0x40 && c < 0x40 && d < 0x40
    ensures var v := a * 0x40000 + b * 0x1000 + c * 0x40 + d;
            v / 0x40000 == a && v / 0x1000 == a * 0x40 + b && v / 0x40 == a * 0x1000 + b * 0x40 + c
            && v / 0x1000 % 0x40 == b && v / 0x40 % 0x40 == c && v % 0x40 == d
  {
    var v := a * 0x40000 + b * 0x1000 + c * 0x40 + d;
    assert v / 0x40 == a * 0x1000 + b * 0x40 + c;
    assert v / 0x1000 == a * 0x40 + b;
    assert v / 0x40000 == a;
  }

  lemma SixBitSplit(v: nat)
    ensures v == v / 0x40000 * 0x40000 + v / 0x1000 % 0x40 * 0x1000 + v / 0x40 % 0x40 * 0x40 + v % 0x40
    ensures v == v / 0x1000 * 0x1000 + v / 0x40 % 0x40 * 0x40 + v % 0x40
    ensures v == v / 0x40 * 0x40 + v % 0x40
  {
    assert v / 0x40 / 0x40 == v / 0x1000;
    assert v / 0x1000 / 0x40 == v / 0x40000;
  }

  /** The decoder undoes the encoder, whatever follows the encoded scalar value. */
  lemma DecodeEncode(c: nat, rest: Bytes)
    requires IsScalar(c)
    ensures CharLength(Encode(c) + rest) == |Encode(c)|
    ensures DecodeChar(Encode(c) + rest) == c
  {
    var e, s := Encode(c), Encode(c) + rest;
    assert forall i | 0 <= i < |e| :: s[i] == e[i];
    SixBitSplit(c);
    if c < 0x80 {
    } else if c < 0x800 {
      assert 2 <= c / 0x40 < 0x20;
    } else if c < 0x10000 {
      assert c / 0x1000 < 0x10;
      assert c / 0x1000 == 0 ==> 0x20 <= c / 0x40 % 0x40;
      assert c / 0x1000 == 0xD ==> c / 0x40 % 0x40 < 0x20;
    } else {
      assert c / 0x40000 <= 4;
      assert c / 0x40000 == 0 ==> 0x10 <= c / 0x1000 % 0x40;
      assert c / 0x40000 == 4 ==> c / 0x1000 % 0x40 < 0x10;
    }
  }

  /** The encoder undoes the decoder: no scalar value has a second spelling. */
  lemma EncodeDecode(s: Bytes)
    requires CharLength(s) > 0
    ensures Encode(DecodeChar(s)) == s[..CharLength(s)]
  {
    var b0: int := s[0];
    match CharLength(s)
    case 1 =>
    case 2 =>
      SixBitDigits(0, 0, b0 - 0xC0, Tail(s[1]));
    case 3 =>
      SixBitDigits(0, b0 - 0xE0, Tail(s[1]), Tail(s[2]));
    case _ =>
      SixBitDigits(b0 - 0xF0, Tail(s[1]), Tail(s[2]), Tail(s[3]));
  }

  // --- A byte-at-a-time recogniser of the same language ------------------------

  datatype State = Start | Tail1 | Tail2 | Tail3 | AfterE0 | AfterED | AfterF0 | AfterF4 | Broken

  function Step(q: State, b: byte): State
  {
    match q
    case Start =>
      if b <= 0x7F then Start
      else if 0xC2 <= b <= 0xDF then Tail1
      else if b == 0xE0 then AfterE0
      else if b == 0xED then AfterED
      else if 0xE1 <= b <= 0xEF then Tail2
      else if b == 0xF0 then AfterF0
      else if 0xF1 <= b <= 0xF3 then Tail3
      else if b == 0xF4 then AfterF4
      else Broken
    case Tail1 => if IsTail(b) then Start else Broken
    case Tail2 => if IsTail(b) then Tail1 else Broken
    case Tail3 => if IsTail(b) then Tail2 else Broken
    case AfterE0 => if 0xA0 <= b <= 0xBF then Tail1 else Broken
    case AfterED => if 0x80 <= b <= 0x9F then Tail1 else Broken
    case AfterF0 => if 0x90 <= b <= 0xBF then Tail2 else Broken
    case AfterF4 => if 0x80 <= b <= 0x8F then Tail2 else Broken
    case Broken => Broken
  }

  function Run(q: State, s: Bytes): State
    decreases |s|
  {
    if s == [] then q else Run(Step(q, s[0]), s[1..])
  }

  lemma {:induction false} RunConcat(q: State, a: Bytes, b: Bytes)
    ensures Run(q, a + b) == Run(Run(q, a), b)
    decreases |a|
  {
    if a == [] {
      assert a + b == b;
    } else {
      assert (a + b)[1..] == a[1..] + b;
      RunConcat(Step(q, a[0]), a[1..], b);
    }
  }

  lemma {:induction false} BrokenStays(s: Bytes)
    ensures Run(Broken, s) == Broken
  {
    if s != [] {
      BrokenStays(s[1..]);
    }
  }

  /** ASCII text fits only between characters, and leaves the recogniser there. */
  lemma {:induction false} RunAscii(q: State, s: Bytes)
    requires forall i | 0 <= i < |s| :: s[i] <= 0x7F
    ensures Run(q, s) == if s == [] || q == Start then q else Broken
    decreases |s|
  {
    if s != [] {
      BrokenStays(s[1..]);
      if q == Start {
        RunAscii(q, s[1..]);
      }
    }
  }

  lemma RunUnfold(q: State, s: Bytes, n: nat)
    requires n <= 4 && n <= |s|
    ensures n >= 1 ==> Run(q, s) == Run(Step(q, s[0]), s[1..])
    ensures n >= 2 ==> Run(q, s) == Run(Step(Step(q, s[0]), s[1]), s[2..])
    ensures n >= 3 ==> Run(q, s) == Run(Step(Step(Step(q, s[0]), s[1]), s[2]), s[3..])
    ensures n >= 4 ==> Run(q, s) == Run(Step(Step(Step(Step(q, s[0]), s[1]), s[2]), s[3]), s[4..])
  {
    if n >= 2 { assert s[1..][1..] == s[2..]; }
    if n >= 3 { assert s[2..][1..] == s[3..]; }
    if n >= 4 { assert s[3..][1..] == s[4..]; }
  }

  /** The recogniser accepts exactly the language of the RFC's grammar. */
  lemma {:induction false} RecogniserIsTheGrammar(s: Bytes)
    ensures Run(Start, s) == Start <==> IsUtf8(s)
    decreases |s|
  {
    if s != [] {
      var n := CharLength(s);
      if n > 0 {
        RunUnfold(Start, s, n);
        RecogniserIsTheGrammar(s[n..]);
      } else {
        RejectsWhereTheGrammarDoes(s);
      }
    }
  }

  lemma RejectsWhereTheGrammarDoes(s: Bytes)
    requires s != [] && CharLength(s) == 0
    ensures Run(Start, s) != Start
  {
    var n := if |s| < 4 then |s| else 4;
    RunUnfold(Start, s, n);
    forall i | 0 <= i <= n ensures Run(Broken, s[i..]) == Broken {
      BrokenStays(s[i..]);
    }
  }

  /** What the encoder writes for a scalar value is UTF-8. */
  lemma EncodeIsUtf8(c: nat)
    requires IsScalar(c)
    ensures Run(Start, Encode(c)) == Start
  {
    DecodeEncode(c, []);
    assert Encode(c) + [] == Encode(c);
    var n := |Encode(c)|;
    assert Encode(c)[n..] == [];
    RunUnfold(Start, Encode(c), n);
  }

  /** UTF-8 text stays UTF-8 when a scalar value is appended. */
  lemma AppendKeepsUtf8(s: Bytes, c: nat)
    requires IsScalar(c)
    ensures IsUtf8(s) ==> IsUtf8(s + Encode(c))
  {
    RecogniserIsTheGrammar(s);
    RecogniserIsTheGrammar(s + Encode(c));
    EncodeIsUtf8(c);
    RunConcat(Start, s, Encode(c));
  }
}
