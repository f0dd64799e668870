/** The string escaper of cpp/src/json.cpp and its round trip through the reader. */
module JsonWriter {
  import opened ByteText
  import opened JsonGrammar
  import opened JsonReader
  import opened JsonSoundness
  import opened JsonCompleteness
  import Utf8

  function HexDigit(v: nat): (b: byte)
    requires v < 16
    ensures IsHexDigit(b) && HexDigitValue(b) == v
  {
    if v < 10 then 0x30 + v else 0x61 + v - 10
  }

  /** How one byte is spelled inside a string. */
  function BytePiece(b: byte): (p: Piece)
    ensures PieceOk(p)
  {
    if b == QUOTE || b == BACKSLASH then Simple(b)
    else if b == 0x08 then Simple(LOWER_B)
    else if b == 0x0C then Simple(LOWER_F)
    else if b == LINE_FEED then Simple(LOWER_N)
    else if b == CARRIAGE_RETURN then Simple(LOWER_R)
    else if b == TAB then Simple(LOWER_T)
    else if b < 0x20 then Unit(0x30, 0x30, HexDigit(b / 16), HexDigit(b % 16))
    else Raw(b)
  }

  function Spelling(s: Bytes): (ps: seq<Piece>)
    ensures PiecesOk(ps) && |ps| == |s|
  {
    seq(|s|, i requires 0 <= i < |s| => BytePiece(s[i]))
  }

  /** The string literal that stands for `s`. */
  function Escaped(s: Bytes): Bytes { StringText(Spelling(s)) }

  lemma ByteMeans(b: byte, more: seq<Piece>)
    requires PiecesOk(more)
    ensures Meaning([BytePiece(b)] + more) == [b] + Meaning(more)
  {
    var ps := [BytePiece(b)] + more;
    assert ps[0] == BytePiece(b) && ps[1..] == more;
    if ps[0].Unit? {
      assert UnitValue(ps[0]) == b;
    }
  }

  /** Spelling a byte string keeps what it denotes: all 256 byte values are covered. */
  lemma {:induction false} SpellingMeans(s: Bytes)
    ensures Meaning(Spelling(s)) == s
  {
    if s != [] {
      SpellingMeans(s[1..]);
      assert Spelling(s) == [BytePiece(s[0])] + Spelling(s[1..]);
      ByteMeans(s[0], Spelling(s[1..]));
      Uncons(s);
    }
  }

  /** How each octet is written, in octets: short escapes where there are some, "\u00" and
      two lower-case digits for the other control octets, everything else as it is. */
  lemma OctetIsWritten(b: byte)
    ensures PieceText(BytePiece(b))
         == if b == 0x22 then [0x5C, 0x22] else if b == 0x5C then [0x5C, 0x5C]
            else if b == 0x08 then [0x5C, 0x62] else if b == 0x0C then [0x5C, 0x66]
            else if b == 0x0A then [0x5C, 0x6E] else if b == 0x0D then [0x5C, 0x72]
            else if b == 0x09 then [0x5C, 0x74]
            else if b < 0x10 then Ascii("\\u000") + [Ascii("0123456789abcdef")[b]]
            else if b < 0x20 then Ascii("\\u001") + [Ascii("0123456789abcdef")[b - 0x10]]
            else [b]
  {
  }

  /** A literal is its octets written one by one between two quotes. */
  lemma EscapedOctets(a: Bytes, b: byte)
    ensures Escaped([]) == [0x22, 0x22]
    ensures Escaped(a + [b]) == Escaped(a)[..|Escaped(a)| - 1] + PieceText(BytePiece(b)) + [0x22]
  {
    assert Spelling(a + [b]) == Spelling(a) + [BytePiece(b)];
    PiecesTextSnoc(Spelling(a), BytePiece(b));
    assert Escaped(a)[..|Escaped(a)| - 1] == [QUOTE] + PiecesText(Spelling(a));
    assert [QUOTE] + PiecesText(Spelling(a)) + PieceText(BytePiece(b)) + [QUOTE]
        == [QUOTE] + (PiecesText(Spelling(a)) + PieceText(BytePiece(b))) + [QUOTE];
  }

  /** Reading back a literal yields the bytes written and stops right after its
      closing quote, whatever follows. */
  lemma EscapedReadsBack(s: Bytes, suffix: Bytes)
    ensures ReadString(Escaped(s) + suffix) == Done(s, suffix)
  {
    StringComplete(Spelling(s), suffix);
    SpellingMeans(s);
  }

  /** No literal is a prefix of another, and none stands for two byte strings. */
  lemma EscapedIsPrefixFree(s: Bytes, suffix: Bytes, t: Bytes, other: Bytes)
    requires Escaped(s) + suffix == Escaped(t) + other
    ensures s == t && suffix == other
  {
    EscapedReadsBack(s, suffix);
    EscapedReadsBack(t, other);
  }

  // --- UTF-8 -------------------------------------------------------------------------

  /** One byte and its spelling move the UTF-8 recogniser alike. */
  lemma ByteRuns(q: Utf8.State, b: byte)
    ensures Utf8.Run(q, PieceText(BytePiece(b))) == Utf8.Step(q, b)
  {
    var text := PieceText(BytePiece(b));
    if BytePiece(b).Raw? {
      assert text == [b] && text[1..] == [];
    } else {
      Utf8.RunAscii(q, text);
    }
  }

  lemma {:induction false} SpellingRuns(q: Utf8.State, s: Bytes)
    ensures Utf8.Run(q, PiecesText(Spelling(s))) == Utf8.Run(q, s)
    decreases |s|
  {
    if s != [] {
      assert Spelling(s)[1..] == Spelling(s[1..]);
      ByteRuns(q, s[0]);
      SpellingRuns(Utf8.Step(q, s[0]), s[1..]);
      Utf8.RunConcat(q, PieceText(BytePiece(s[0])), PiecesText(Spelling(s[1..])));
    }
  }

  /** A literal is valid UTF-8 exactly when the bytes it stands for are: nothing invalid
      is replaced on the way out. */
  lemma EscapedIsUtf8Iff(s: Bytes)
    ensures Utf8.IsUtf8(Escaped(s)) <==> Utf8.IsUtf8(s)
  {
    SpellingRuns(Utf8.Start, s);
    Utf8.RunConcat(Utf8.Start, [QUOTE] + PiecesText(Spelling(s)), [QUOTE]);
    Utf8.RunConcat(Utf8.Start, [QUOTE], PiecesText(Spelling(s)));
    Utf8.RunAscii(Utf8.Start, [QUOTE]);
    Utf8.RunAscii(Utf8.Run(Utf8.Start, s), [QUOTE]);
    Utf8.RecogniserIsTheGrammar(s);
    Utf8.RecogniserIsTheGrammar(Escaped(s));
  }

  /** An octet that no UTF-8 text holds is written as it is. */
  lemma InvalidOctetIsWrittenRaw()
    ensures Escaped([0xFF]) == [QUOTE, 0xFF, QUOTE] && !Utf8.IsUtf8(Escaped([0xFF]))
  {
    assert Spelling([0xFF]) == [Raw(0xFF)];
    assert PiecesText([Raw(0xFF)]) == [0xFF];
    EscapedIsUtf8Iff([0xFF]);
  }

  // --- The loop ------------------------------------------------------------------------

  lemma {:induction false} PiecesTextSnoc(ps: seq<Piece>, p: Piece)
    ensures PiecesText(ps + [p]) == PiecesText(ps) + PieceText(p)
  {
    if ps == [] {
      assert ps + [p] == [p];
    } else {
      assert (ps + [p])[1..] == ps[1..] + [p];
      PiecesTextSnoc(ps[1..], p);
      Concat3(PieceText(ps[0]), PiecesText(ps[1..]), PieceText(p));
    }
  }

  /** Appends `value` to `out` as a string literal. */
  method AppendEscaped(out: Bytes, value: Bytes) returns (more: Bytes)
    ensures more == out + Escaped(value)
    ensures ReadString(more[|out|..]) == Done(value, [])
  {
    more := out + [QUOTE];
    ghost var head := more;
    for i := 0 to |value|
      invariant more == head + PiecesText(Spelling(value[..i]))
    {
      var b := value[i];
      var text: Bytes;
      if b == QUOTE {
        text := [BACKSLASH, QUOTE];
      } else if b == BACKSLASH {
        text := [BACKSLASH, BACKSLASH];
      } else if b == 0x08 {
        text := [BACKSLASH, LOWER_B];
      } else if b == 0x0C {
        text := [BACKSLASH, LOWER_F];
      } else if b == LINE_FEED {
        text := [BACKSLASH, LOWER_N];
      } else if b == CARRIAGE_RETURN {
        text := [BACKSLASH, LOWER_R];
      } else if b == TAB {
        text := [BACKSLASH, LOWER_T];
      } else if b < 0x20 {
        text := [BACKSLASH, LOWER_U, 0x30, 0x30, HexDigit(b / 16), HexDigit(b % 16)];
      } else {
        text := [b];
      }
      more := more + text;
      assert Spelling(value[..i + 1]) == Spelling(value[..i]) + [BytePiece(b)];
      PiecesTextSnoc(Spelling(value[..i]), BytePiece(b));
      Concat3(head, PiecesText(Spelling(value[..i])), text);
    }
    assert value[..|value|] == value;
    more := more + [QUOTE];
    Concat4(out, [QUOTE], PiecesText(Spelling(value)), [QUOTE]);
    Concat3([QUOTE], PiecesText(Spelling(value)), [QUOTE]);
    EscapedReadsBack(value, []);
    assert more[|out|..] == Escaped(value) + [];
  }
}
