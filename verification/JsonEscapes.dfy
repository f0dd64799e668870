/** What the reader makes of octets written out as numbers: nothing stated here rests on
    the names that the grammar and the reader share. */
module JsonEscapes {
  import opened ByteText
  import opened Wrappers
  import opened JsonGrammar
  import opened JsonReader
  import opened JsonCompleteness
  import opened JsonTheorems
  import Utf8

  // --- The alphabet --------------------------------------------------------------------

  lemma Alphabet(b: byte)
    ensures IsBlank(b) <==> b in {0x20, 0x09, 0x0A, 0x0D}
    ensures IsDigit(b) <==> '0' as int <= b <= '9' as int
    ensures IsHexDigit(b) <==>
              '0' as int <= b <= '9' as int || 'a' as int <= b <= 'f' as int || 'A' as int <= b <= 'F' as int
    ensures [OPEN_BRACKET, CLOSE_BRACKET, OPEN_BRACE, CLOSE_BRACE, COLON, COMMA, QUOTE] == Ascii("[]{}:,\"")
    ensures [MINUS, PLUS, POINT, LOWER_E, UPPER_E] == Ascii("-+.eE")
    ensures [BACKSLASH, SLASH, LOWER_B, LOWER_F, LOWER_N, LOWER_R, LOWER_T, LOWER_U] == Ascii("\\/bfnrtu")
    ensures TRUE_TEXT == Ascii("true") && FALSE_TEXT == Ascii("false") && NULL_TEXT == Ascii("null")
  {
  }

  // --- Unicode escapes -----------------------------------------------------------------

  const LOWER_DIGITS: Bytes :=
    [0x30, 0x31, 0x32, 0x33, 0x34, 0x35, 0x36, 0x37, 0x38, 0x39, 0x61, 0x62, 0x63, 0x64, 0x65, 0x66]

  const UPPER_DIGITS: Bytes :=
    [0x30, 0x31, 0x32, 0x33, 0x34, 0x35, 0x36, 0x37, 0x38, 0x39, 0x41, 0x42, 0x43, 0x44, 0x45, 0x46]

  predicate IsDigitOf(b: byte, v: nat)
    requires v < 16
  {
    b == LOWER_DIGITS[v] || b == UPPER_DIGITS[v]
  }

  /** Four hexadecimal digits, each in either case, with the value `u`. */
  predicate Spells(digits: Bytes, u: nat)
    requires u <= 0xFFFF
  {
    && |digits| == 4 && IsDigitOf(digits[0], u / 4096) && IsDigitOf(digits[1], u / 256 % 16)
    && IsDigitOf(digits[2], u / 16 % 16) && IsDigitOf(digits[3], u % 16)
  }

  lemma DigitValue(b: byte, v: nat)
    requires v < 16 && IsDigitOf(b, v)
    ensures IsHexDigit(b) && HexDigitValue(b) == v
  {
  }

  lemma HexQuadReadsItsNumber(digits: Bytes, u: nat, rest: Bytes)
    requires u <= 0xFFFF && Spells(digits, u)
    ensures ReadHexQuad(digits + rest) == Done(u, rest)
  {
    UnitOfDigits(digits, u);
    assert (digits + rest)[4..] == rest;
  }

  lemma Base16(u: nat)
    ensures u / 4096 * 4096 + u / 256 % 16 * 256 + u / 16 % 16 * 16 + u % 16 == u
  {
    var a, b := u / 16, u / 256;
    assert b == a / 16 && u / 4096 == b / 16;
    assert u == a * 16 + u % 16 && a == b * 16 + a % 16 && b == b / 16 * 16 + b % 16;
  }

  lemma UnitOfDigits(digits: Bytes, u: nat)
    requires u <= 0xFFFF && Spells(digits, u)
    ensures var p := Unit(digits[0], digits[1], digits[2], digits[3]); PieceOk(p) && UnitValue(p) == u
  {
    DigitValue(digits[0], u / 4096);
    DigitValue(digits[1], u / 256 % 16);
    DigitValue(digits[2], u / 16 % 16);
    DigitValue(digits[3], u % 16);
    Base16(u);
  }

  lemma ReplacementOctets()
    ensures Utf8.Encode(Utf8.REPLACEMENT) == [0xEF, 0xBF, 0xBD]
  {
  }

  /** A document that is one string. */
  lemma ParseOfAString(ps: seq<Piece>, text: Bytes)
    requires PiecesOk(ps) && text == [0x22] + PiecesText(ps) + [0x22]
    ensures Parse(text) == Some(Text(Meaning(ps)))
  {
    var d := Document([], StringTree(ps), []);
    assert DocumentText(d) == text;
    ParseOfADocument(d);
  }

  lemma UnitText(digits: Bytes)
    requires |digits| == 4
    ensures PieceText(Unit(digits[0], digits[1], digits[2], digits[3])) == [0x5C, 0x75] + digits
  {
  }

  lemma OnePiece(p: Piece)
    requires PieceOk(p)
    ensures PiecesText([p]) == PieceText(p)
    ensures Meaning([p]) == match p
                            case Raw(b) => [b]
                            case Simple(letter) => [SimpleEscapeValue(letter)]
                            case Unit(_, _, _, _) => Utf8.Encode(LoneUnit(UnitValue(p)))
  {
    assert PiecesText([p]) == PieceText(p) + PiecesText([p][1..]);
    assert [p][1..] == [];
    assert PieceText(p) + [] == PieceText(p);
    match p
    case Unit(_, _, _, _) =>
      var s := Utf8.Encode(LoneUnit(UnitValue(p)));
      assert s + [] == s;
    case _ =>
  }

  /** One escape: a code point that is no surrogate stands for itself, a surrogate for
      U+FFFD. */
  lemma EscapeDenotes(digits: Bytes, u: nat)
    requires u <= 0xFFFF && Spells(digits, u)
    ensures Parse([0x22, 0x5C, 0x75] + digits + [0x22])
         == Some(Text(if 0xD800 <= u < 0xE000 then [0xEF, 0xBF, 0xBD] else Utf8.Encode(u)))
  {
    var p := Unit(digits[0], digits[1], digits[2], digits[3]);
    UnitOfDigits(digits, u);
    UnitText(digits);
    OnePiece(p);
    ReplacementOctets();
    assert [0x22, 0x5C, 0x75] + digits + [0x22] == [0x22] + PieceText(p) + [0x22];
    ParseOfAString([p], [0x22, 0x5C, 0x75] + digits + [0x22]);
  }

  /** What a high surrogate and the code unit after it stand for: one supplementary code
      point when the second is a low surrogate, otherwise U+FFFD and what the second does. */
  function PairOctets(u: nat, v: nat): Bytes
    requires 0xD800 <= u < 0xDC00 && v <= 0xFFFF
  {
    if 0xDC00 <= v < 0xE000 then Utf8.Encode(0x10000 + (u - 0xD800) * 0x400 + (v - 0xDC00))
    else if 0xD800 <= v < 0xDC00 then [0xEF, 0xBF, 0xBD, 0xEF, 0xBF, 0xBD]
    else [0xEF, 0xBF, 0xBD] + Utf8.Encode(v)
  }

  lemma PairMeaning(p: Piece, u: nat, q: Piece, v: nat)
    requires PieceOk(p) && PieceOk(q) && p.Unit? && q.Unit? && UnitValue(p) == u && UnitValue(q) == v
    requires 0xD800 <= u < 0xDC00
    ensures Meaning([p, q]) == PairOctets(u, v)
  {
    TwoPieces(p, q);
    ReplacementOctets();
  }

  lemma PairDenotes(digits: Bytes, u: nat, more: Bytes, v: nat)
    requires 0xD800 <= u < 0xDC00 && Spells(digits, u) && v <= 0xFFFF && Spells(more, v)
    ensures Parse([0x22, 0x5C, 0x75] + digits + [0x5C, 0x75] + more + [0x22]) == Some(Text(PairOctets(u, v)))
  {
    var p, q := Unit(digits[0], digits[1], digits[2], digits[3]), Unit(more[0], more[1], more[2], more[3]);
    UnitOfDigits(digits, u);
    UnitOfDigits(more, v);
    UnitText(digits);
    UnitText(more);
    PairParses(p, u, q, v);
    PairText(digits, more, p, q);
  }

  lemma PairParses(p: Piece, u: nat, q: Piece, v: nat)
    requires PieceOk(p) && PieceOk(q) && p.Unit? && q.Unit? && UnitValue(p) == u && UnitValue(q) == v
    requires 0xD800 <= u < 0xDC00
    ensures Parse([0x22] + (PieceText(p) + PieceText(q)) + [0x22]) == Some(Text(PairOctets(u, v)))
  {
    PairMeaning(p, u, q, v);
    TwoPieces(p, q);
    ParseOfAString([p, q], [0x22] + (PieceText(p) + PieceText(q)) + [0x22]);
  }

  lemma PairText(digits: Bytes, more: Bytes, p: Piece, q: Piece)
    requires PieceText(p) == [0x5C, 0x75] + digits && PieceText(q) == [0x5C, 0x75] + more
    ensures [0x22, 0x5C, 0x75] + digits + [0x5C, 0x75] + more + [0x22]
         == [0x22] + (PieceText(p) + PieceText(q)) + [0x22]
  {
  }

  lemma TwoPieces(p: Piece, q: Piece)
    requires PieceOk(p) && PieceOk(q) && p.Unit? && q.Unit?
    ensures PiecesText([p, q]) == PieceText(p) + PieceText(q)
    ensures Meaning([p, q])
         == if IsHigh(p) && IsLow(q) then Utf8.Encode(Utf8.Combine(UnitValue(p), UnitValue(q)))
            else Utf8.Encode(LoneUnit(UnitValue(p))) + Utf8.Encode(LoneUnit(UnitValue(q)))
  {
    var ps := [p, q];
    assert ps[1..] == [q] && ps[2..] == [];
    OnePiece(q);
    assert PiecesText(ps) == PieceText(p) + PiecesText(ps[1..]);
    if IsHigh(p) && IsLow(q) {
      var c := Utf8.Encode(Utf8.Combine(UnitValue(p), UnitValue(q)));
      assert c + [] == c;
    }
  }

  // --- Short escapes and raw octets ------------------------------------------------------

  /** The letter of a short escape and the octet it stands for, in one order. */
  const LETTERS: Bytes := [0x22, 0x5C, 0x2F, 0x62, 0x66, 0x6E, 0x72, 0x74]

  const OCTETS: Bytes := [0x22, 0x5C, 0x2F, 0x08, 0x0C, 0x0A, 0x0D, 0x09]

  lemma ShortEscapeDenotes(i: nat)
    requires i < 8
    ensures Parse([0x22, 0x5C, LETTERS[i], 0x22]) == Some(Text([OCTETS[i]]))
  {
    var p := Simple(LETTERS[i]);
    OnePiece(p);
    assert [0x22, 0x5C, LETTERS[i], 0x22] == [0x22] + PieceText(p) + [0x22];
    ParseOfAString([p], [0x22, 0x5C, LETTERS[i], 0x22]);
  }

  /** No other letter makes a short escape. */
  lemma NoOtherShortEscape(letter: byte)
    requires letter !in LETTERS
    ensures Parse([0x22, 0x5C, letter, 0x22]) == None
  {
    var text: Bytes := [0x22, 0x5C, letter, 0x22];
    forall i | 0 <= i < 8 ensures letter != LETTERS[i] { assert LETTERS[i] in LETTERS; }
    assert letter != LETTERS[0] && letter != LETTERS[1] && letter != LETTERS[2] && letter != LETTERS[3];
    assert letter != LETTERS[4] && letter != LETTERS[5] && letter != LETTERS[6] && letter != LETTERS[7];
    assert SkipBlanks(text) == text;
    assert ReadEscape(text[1..][1..]).Fail?;
    assert ReadChars(text[1..]).Fail?;
  }

  /** A raw octet stands for itself; control octets, quotes and backslashes may not be raw. */
  lemma RawOctet(b: byte)
    ensures Parse([0x22, b, 0x22]) == if b < 0x20 || b == 0x22 || b == 0x5C then None else Some(Text([b]))
  {
    var text: Bytes := [0x22, b, 0x22];
    if b < 0x20 || b == 0x22 || b == 0x5C {
      assert SkipBlanks(text) == text;
      assert text[1..] == [b, 0x22] && [b, 0x22][1..] == [0x22] && [0x22][1..] == [];
      if b == 0x22 {
        assert ReadValue(text, 0) == Done(Text([]), [0x22]);
      } else {
        assert ReadChars([]).Fail?;
        assert b == 0x5C ==> ReadEscape([0x22]) == Done([0x22], []);
        assert ReadChars(text[1..]).Fail?;
      }
    } else {
      OnePiece(Raw(b));
      assert text == [0x22] + [b] + [0x22];
      ParseOfAString([Raw(b)], text);
    }
  }

  // --- The depth limit -------------------------------------------------------------------

  function Repeat(b: byte, n: nat): Bytes { seq(n, _ => b) }

  /** `n` arrays, each but the innermost holding the next. */
  function Nest(n: nat): (t: Tree)
    requires n >= 1
    ensures TreeOk(t) && Height(t) == n - 1
  {
    if n == 1 then EmptyArrayTree([]) else ArrayTree(LastItem([], Nest(n - 1), []))
  }

  lemma RepeatStep(n: nat)
    requires n >= 1
    ensures Repeat(0x5B, n) == [0x5B] + Repeat(0x5B, n - 1) && Repeat(0x5D, n) == Repeat(0x5D, n - 1) + [0x5D]
  {
  }

  lemma OneIn(t: Tree)
    ensures TreeText(ArrayTree(LastItem([], t, []))) == [0x5B] + (TreeText(t) + [0x5D])
  {
    assert [] + TreeText(t) + [] == TreeText(t);
  }

  lemma Around(a: Bytes, b: Bytes)
    ensures [0x5B] + (a + b + [0x5D]) == ([0x5B] + a) + (b + [0x5D])
  {
  }

  lemma {:induction false} NestText(n: nat)
    requires n >= 1
    ensures TreeText(Nest(n)) == Repeat(0x5B, n) + Repeat(0x5D, n)
  {
    if n > 1 {
      NestText(n - 1);
      RepeatStep(n);
      OneIn(Nest(n - 1));
      Around(Repeat(0x5B, n - 1), Repeat(0x5D, n - 1));
    }
  }

  /** Sixty-five nested arrays are accepted, the innermost at depth 64, and no more. */
  lemma NestedArrays(n: nat)
    requires n >= 1
    ensures Parse(Repeat(0x5B, n) + Repeat(0x5D, n)).Some? <==> n <= 65
  {
    var d := Document([], Nest(n), []);
    NestText(n);
    assert DocumentText(d) == [] + TreeText(Nest(n)) + [] == TreeText(Nest(n));
    ParseOfADocument(d);
  }
}
