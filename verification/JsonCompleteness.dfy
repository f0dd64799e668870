/** Whatever the grammar derives, the reader accepts with the derived value. */
module JsonCompleteness {
  import opened ByteText
  import opened Wrappers
  import opened JsonGrammar
  import opened JsonReader
  import opened JsonSoundness
  import Utf8

  // --- Numbers -----------------------------------------------------------------

  /** A number ends where its text does, so what follows must not extend it. */
  predicate EndsNumber(rest: Bytes) { rest == [] || !IsNumberByte(rest[0]) }

  lemma RunBefore(c: Class, run: Bytes, rest: Bytes)
    requires forall i | 0 <= i < |run| :: Is(c, run[i])
    requires rest == [] || !Is(c, rest[0])
    ensures After(c, run + rest) == rest && Before(run + rest, rest) == run
  {
    AfterRun(c, run, rest);
  }

  lemma ExponentComplete(x: Option<Exponent>)
    requires x.Some? ==> ExponentOk(x.value)
    ensures ReadExponent(ExponentText(x)) == (x, [])
    ensures ExponentText(x) == [] || (!IsDigit(ExponentText(x)[0]) && ExponentText(x)[0] != POINT)
  {
    match x
    case None =>
    case Some(e) =>
      var s := ExponentText(x);
      assert e.digits + [] == e.digits;
      RunBefore(Digit, e.digits, []);
      assert IsDigit(e.digits[0]);
      if e.sign == [] {
        assert s[1..] == e.digits;
      } else {
        assert s[1] == e.sign[0] && s[2..] == e.digits;
      }
  }

  lemma FractionComplete(f: Option<Bytes>, x: Bytes)
    requires AllDigits(FractionDigits(f))
    requires x == [] || (!IsDigit(x[0]) && x[0] != POINT)
    ensures ReadFraction(FractionText(f) + x) == (f, x)
    ensures FractionText(f) + x == [] || !IsDigit((FractionText(f) + x)[0])
  {
    match f
    case None =>
      assert FractionText(f) + x == x;
    case Some(digits) =>
      assert ([POINT] + digits + x)[1..] == digits + x;
      RunBefore(Digit, digits, x);
  }

  /** The parts the reader finds make up the decimal it returns. */
  lemma ReadParts(d: Decimal, s: Bytes, tail: Bytes, x: Bytes)
    requires After(Digit, s) == tail && Before(s, tail) == d.whole && DecimalOk(d)
    requires ReadFraction(tail) == (d.fraction, x) && ReadExponent(x) == (d.exponent, [])
    ensures ReadMagnitude(d.minus, s) == Done(d, [])
  {
  }

  lemma MagnitudeStart(d: Decimal, tail: Bytes)
    requires DecimalOk(d) && (d.whole == [] ==> tail != [] && tail[0] == POINT)
    ensures var s := d.whole + tail; s != [] && s[0] != MINUS
  {
    if d.whole != [] { assert IsDigit(d.whole[0]); }
  }

  lemma MagnitudeComplete(d: Decimal)
    requires DecimalOk(d)
    ensures var s := d.whole + (FractionText(d.fraction) + ExponentText(d.exponent));
            ReadMagnitude(d.minus, s) == Done(d, []) && s != [] && s[0] != MINUS
  {
    var x := ExponentText(d.exponent);
    var tail := FractionText(d.fraction) + x;
    ExponentComplete(d.exponent);
    FractionComplete(d.fraction, x);
    RunBefore(Digit, d.whole, tail);
    ReadParts(d, d.whole + tail, tail, x);
    MagnitudeStart(d, tail);
  }

  /** `from_chars` reads back every decimal from its text. */
  lemma FromCharsComplete(d: Decimal)
    requires DecimalOk(d)
    ensures DecimalText(d) != [] && FromChars(DecimalText(d)) == Done(d, [])
  {
    var unsigned := d.whole + (FractionText(d.fraction) + ExponentText(d.exponent));
    MagnitudeComplete(d);
    Concat4(SignText(d.minus), d.whole, FractionText(d.fraction), ExponentText(d.exponent));
    var text := DecimalText(d);
    assert if d.minus then text[0] == MINUS && text[1..] == unsigned else text == unsigned;
  }

  lemma DecimalBytes(d: Decimal)
    requires DecimalOk(d)
    ensures forall i | 0 <= i < |DecimalText(d)| :: IsNumberByte(DecimalText(d)[i])
  {
    assert forall i | 0 <= i < |d.whole| :: IsDigit(d.whole[i]);
    var f := FractionDigits(d.fraction);
    assert forall i | 0 <= i < |f| :: IsDigit(f[i]);
  }

  lemma NumberComplete(d: Decimal, rest: Bytes)
    requires DecimalOk(d) && EndsNumber(rest)
    ensures ReadNumber(DecimalText(d) + rest) == Done(Number(d), rest)
  {
    var token := DecimalText(d);
    FromCharsComplete(d);
    DecimalBytes(d);
    RunBefore(NumberByte, token, rest);
  }

  // --- Strings -----------------------------------------------------------------

  lemma ReadCharsRaw(b: byte, s: Bytes)
    requires IsRaw(b)
    ensures ReadChars([b] + s) == Prepend([b], ReadChars(s))
  {
    assert ([b] + s)[1..] == s;
  }

  lemma ReadCharsSimple(letter: byte, s: Bytes)
    requires IsSimpleEscape(letter)
    ensures ReadChars([BACKSLASH, letter] + s) == Prepend([SimpleEscapeValue(letter)], ReadChars(s))
  {
    var t := [BACKSLASH, letter] + s;
    assert t[1..] == [letter] + s && t[1..][1..] == s;
  }

  lemma ReadCharsUnit(p: Piece, s: Bytes)
    requires p.Unit? && PieceOk(p)
    ensures ReadHexQuad((PieceText(p) + s)[2..]) == Done(UnitValue(p), s)
    ensures ReadUnicodeEscape((PieceText(p) + s)[2..]).Done?
    ensures var e := ReadUnicodeEscape((PieceText(p) + s)[2..]);
            ReadChars(PieceText(p) + s) == Prepend(e.value, ReadChars(e.rest))
  {
    var t := PieceText(p) + s;
    assert t[2..][4..] == s;
    assert t[1..][1..] == t[2..];
  }

  lemma {:induction false} CharsComplete(ps: seq<Piece>, rest: Bytes)
    requires PiecesOk(ps)
    ensures ReadChars(PiecesText(ps) + ([QUOTE] + rest)) == Done(Meaning(ps), rest)
    decreases |ps|
  {
    var final := [QUOTE] + rest;
    if ps == [] {
      assert PiecesText(ps) + final == final && final[1..] == rest;
    } else {
      var p, s := ps[0], PiecesText(ps[1..]) + final;
      CharsComplete(ps[1..], rest);
      Concat3(PieceText(p), PiecesText(ps[1..]), final);
      match p
      case Raw(b) => ReadCharsRaw(b, s);
      case Simple(letter) => ReadCharsSimple(letter, s);
      case Unit(_, _, _, _) =>
        ReadCharsUnit(p, s);
        if IsHigh(p) && |ps| > 1 && IsLow(ps[1]) {
          CharsComplete(ps[2..], rest);
          PairComplete(p, ps[1], PiecesText(ps[2..]) + final);
          assert ps[1..][1..] == ps[2..];
          Concat3(PieceText(ps[1]), PiecesText(ps[2..]), final);
        } else {
          LoneComplete(p, ps[1..], final);
        }
    }
  }

  lemma PairComplete(first: Piece, second: Piece, s: Bytes)
    requires IsHigh(first) && IsLow(second)
    ensures ReadUnicodeEscape((PieceText(first) + (PieceText(second) + s))[2..])
         == Done(Utf8.Encode(Utf8.Combine(UnitValue(first), UnitValue(second))), s)
  {
    ReadCharsUnit(first, PieceText(second) + s);
    ReadCharsUnit(second, s);
  }

  lemma SimpleStarts(p: Piece, more: Bytes)
    requires PieceOk(p)
    ensures var s := PieceText(p) + more;
            (p.Raw? ==> s[0] == p.b) && (p.Simple? ==> s[1] == p.letter)
  {
  }

  lemma LoneComplete(p: Piece, more: seq<Piece>, final: Bytes)
    requires p.Unit? && PieceOk(p) && PiecesOk(more) && final != [] && final[0] == QUOTE
    requires !(IsHigh(p) && more != [] && IsLow(more[0]))
    ensures var s := PiecesText(more) + final;
            ReadUnicodeEscape((PieceText(p) + s)[2..]) == Done(Utf8.Encode(LoneUnit(UnitValue(p))), s)
  {
    var s := PiecesText(more) + final;
    ReadCharsUnit(p, s);
    if StartsUnit(s) && more != [] {
      var q := more[0];
      Concat3(PieceText(q), PiecesText(more[1..]), final);
      SimpleStarts(q, PiecesText(more[1..]) + final);
      assert q.Unit?;
      ReadCharsUnit(q, PiecesText(more[1..]) + final);
    }
  }

  lemma StringComplete(ps: seq<Piece>, rest: Bytes)
    requires PiecesOk(ps)
    ensures ReadString(StringText(ps) + rest) == Done(Meaning(ps), rest)
  {
    CharsComplete(ps, rest);
    var s := StringText(ps) + rest;
    Concat3(PiecesText(ps), [QUOTE], rest);
    Concat4([QUOTE], PiecesText(ps), [QUOTE], rest);
    Concat3([QUOTE], PiecesText(ps), [QUOTE]);
    assert s == [QUOTE] + (PiecesText(ps) + ([QUOTE] + rest));
    assert s[1..] == PiecesText(ps) + ([QUOTE] + rest);
  }

  // --- Values ------------------------------------------------------------------

  /** Not at a blank: what every value, name and structural character starts with. */
  predicate AtToken(s: Bytes) { s != [] && !IsBlank(s[0]) }

  lemma SkipOver(blank: Bytes, s: Bytes)
    requires AllBlank(blank) && AtToken(s)
    ensures SkipBlanks(blank + s) == s
  {
    AfterRun(Blank, blank, s);
  }

  lemma TreeStart(t: Tree)
    requires TreeOk(t)
    ensures AtToken(TreeText(t)) && TreeText(t)[0] != CLOSE_BRACKET
  {
    if t.NumberTree? {
      FromCharsComplete(t.decimal);
      DecimalBytes(t.decimal);
    }
  }

  lemma NameComplete(n: Name, rest: Bytes)
    requires NameOk(n) && AtToken(rest)
    ensures ReadName(NameText(n) + rest) == Done(Meaning(n.pieces), rest)
  {
    var colon := [COLON] + (n.afterColon + rest);
    var a, b := StringText(n.pieces), n.beforeColon + colon;
    NameParts(n.before + (a + b), n.before, a + b, a, b, n.beforeColon, colon, n.afterColon, rest);
    SkipOver(n.before, a + b);
    StringComplete(n.pieces, b);
    SkipOver(n.beforeColon, colon);
    SkipOver(n.afterColon, rest);
    assert colon[1..] == n.afterColon + rest;
  }

  lemma {:induction false} ValueComplete(t: Tree, rest: Bytes, depth: nat)
    requires TreeOk(t) && depth + Height(t) <= MAX_DEPTH && EndsNumber(rest)
    ensures ReadValue(TreeText(t) + rest, depth) == Done(TreeValue(t), rest)
    decreases t
  {
    match t
    case ArrayTree(items) => ArrayComplete(items, rest, depth);
    case ObjectTree(members) => ObjectComplete(members, rest, depth);
    case NumberTree(d) => NumberValueComplete(d, rest, depth);
    case StringTree(ps) => StringComplete(ps, rest);
    case _ => PlainComplete(t, rest, depth);
  }

  /** Literals and empty containers. */
  lemma PlainComplete(t: Tree, rest: Bytes, depth: nat)
    requires TreeOk(t) && depth <= MAX_DEPTH
    requires t.NullTree? || t.BoolTree? || t.EmptyArrayTree? || t.EmptyObjectTree?
    ensures ReadValue(TreeText(t) + rest, depth) == Done(TreeValue(t), rest)
  {
    match t
    case NullTree => LiteralComplete(NULL_TEXT, Null, rest);
    case BoolTree(flag) => LiteralComplete(TreeText(t), Bool(flag), rest);
    case EmptyArrayTree(blank) => EmptyComplete([OPEN_BRACKET], blank, [CLOSE_BRACKET], rest);
    case EmptyObjectTree(blank) => EmptyComplete([OPEN_BRACE], blank, [CLOSE_BRACE], rest);
  }

  lemma NumberValueComplete(d: Decimal, rest: Bytes, depth: nat)
    requires DecimalOk(d) && EndsNumber(rest) && depth <= MAX_DEPTH
    ensures ReadValue(DecimalText(d) + rest, depth) == Done(Number(d), rest)
  {
    NumberComplete(d, rest);
    NumberStart(d);
    var s := DecimalText(d) + rest;
    assert s[0] == DecimalText(d)[0];
    assert ReadValue(s, depth) == ReadNumber(s);
  }

  lemma {:induction false} ArrayComplete(items: Items, rest: Bytes, depth: nat)
    requires ItemsOk(items) && depth + 1 + ItemsHeight(items) <= MAX_DEPTH
    ensures ReadValue([OPEN_BRACKET] + ItemsText(items) + rest, depth) == Done(Array(ItemsValue(items)), rest)
    decreases items, 2
  {
    var inside := ItemsText(items) + rest;
    OpenComplete(OPEN_BRACKET, ItemsText(items), rest);
    ItemsComplete(items, rest, depth, []);
    assert [] + ItemsValue(items) == ItemsValue(items);
    ItemsSkip(items, rest);
    SkipTwice(inside);
    assert ReadItems(SkipBlanks(inside), depth, []) == ReadItems(inside, depth, []);
  }

  lemma {:induction false} ObjectComplete(members: Members, rest: Bytes, depth: nat)
    requires MembersOk(members) && depth + 1 + MembersHeight(members) <= MAX_DEPTH
    ensures ReadValue([OPEN_BRACE] + MembersText(members) + rest, depth)
         == Done(Object(LastBindings(Bindings(members))), rest)
    decreases members, 2
  {
    var inside := MembersText(members) + rest;
    OpenComplete(OPEN_BRACE, MembersText(members), rest);
    MembersComplete(members, rest, depth, map[]);
    AssignIsLastBindings(Bindings(members));
    MembersSkip(members, rest);
    SkipTwice(inside);
    assert ReadName(SkipBlanks(inside)) == ReadName(inside);
    assert ReadMembers(SkipBlanks(inside), depth, map[]) == ReadMembers(inside, depth, map[]);
  }

  lemma SkipTwice(s: Bytes)
    ensures SkipBlanks(SkipBlanks(s)) == SkipBlanks(s)
  {
    var run := AfterSplits(Blank, s);
  }

  lemma NumberStart(d: Decimal)
    requires DecimalOk(d)
    ensures DecimalText(d) != []
    ensures var b := DecimalText(d)[0]; b == MINUS || b == POINT || IsDigit(b)
  {
    FromCharsComplete(d);
    if !d.minus && d.whole != [] { assert IsDigit(d.whole[0]); }
  }

  lemma LiteralComplete(literal: Bytes, v: Value, rest: Bytes)
    requires literal != []
    ensures ReadLiteral(literal + rest, literal, v) == Done(v, rest)
  {
    assert (literal + rest)[|literal|..] == rest;
  }

  lemma OpenComplete(open: byte, text: Bytes, rest: Bytes)
    ensures ([open] + text + rest)[0] == open && ([open] + text + rest)[1..] == text + rest
  {
    Concat3([open], text, rest);
  }

  lemma EmptyComplete(open: Bytes, blank: Bytes, close: Bytes, rest: Bytes)
    requires |open| == 1 && AllBlank(blank) && |close| == 1 && AtToken(close)
    ensures var s := open + blank + close + rest;
            s[0] == open[0] && SkipBlanks(s[1..]) == close + rest && (close + rest)[1..] == rest
  {
    Concat4(open, blank, close, rest);
    assert (open + (blank + (close + rest)))[1..] == blank + (close + rest);
    SkipOver(blank, close + rest);
  }

  /** What follows an element or a member and the blanks after it. */
  function ItemTail(i: Items, rest: Bytes): (s: Bytes)
    ensures AtToken(s) && EndsNumber(s)
  {
    if i.LastItem? then [CLOSE_BRACKET] + rest else [COMMA] + (ItemsText(i.rest) + rest)
  }

  function MemberTail(m: Members, rest: Bytes): (s: Bytes)
    ensures AtToken(s) && EndsNumber(s)
  {
    if m.LastMember? then [CLOSE_BRACE] + rest else [COMMA] + (MembersText(m.rest) + rest)
  }

  lemma ItemParts(i: Items, rest: Bytes)
    ensures ItemsText(i) + rest == i.before + (TreeText(i.tree) + (i.after + ItemTail(i, rest)))
  {
    var head := i.before + TreeText(i.tree) + i.after;
    Concat4(i.before, TreeText(i.tree), i.after, ItemTail(i, rest));
    if i.LastItem? {
      Concat3(head, [CLOSE_BRACKET], rest);
    } else {
      Concat4(head, [COMMA], ItemsText(i.rest), rest);
      Concat3(head, [COMMA], ItemsText(i.rest));
    }
  }

  lemma MemberParts(m: Members, rest: Bytes)
    ensures MembersText(m) + rest == NameText(m.name) + (TreeText(m.tree) + (m.after + MemberTail(m, rest)))
  {
    var head := NameText(m.name) + TreeText(m.tree) + m.after;
    Concat4(NameText(m.name), TreeText(m.tree), m.after, MemberTail(m, rest));
    if m.LastMember? {
      Concat3(head, [CLOSE_BRACE], rest);
    } else {
      Concat4(head, [COMMA], MembersText(m.rest), rest);
      Concat3(head, [COMMA], MembersText(m.rest));
    }
  }

  lemma BlankEndsNumber(blank: Bytes, s: Bytes)
    requires AllBlank(blank) && EndsNumber(s)
    ensures EndsNumber(blank + s)
  {
    if blank != [] { assert IsBlank(blank[0]); }
  }

  lemma ItemsSkip(i: Items, rest: Bytes)
    requires ItemsOk(i)
    ensures var inside := SkipBlanks(ItemsText(i) + rest); inside != [] && inside[0] != CLOSE_BRACKET
  {
    ItemParts(i, rest);
    TreeStart(i.tree);
    SkipOver(i.before, TreeText(i.tree) + (i.after + ItemTail(i, rest)));
  }

  lemma MembersSkip(m: Members, rest: Bytes)
    requires MembersOk(m)
    ensures var inside := SkipBlanks(MembersText(m) + rest); inside != [] && inside[0] != CLOSE_BRACE
  {
    var n, after := m.name, TreeText(m.tree) + (m.after + MemberTail(m, rest));
    MemberParts(m, rest);
    var a, b := StringText(n.pieces), n.beforeColon + ([COLON] + (n.afterColon + after));
    NameParts(n.before + (a + b), n.before, a + b, a, b, n.beforeColon, [COLON] + (n.afterColon + after),
              n.afterColon, after);
    SkipOver(n.before, a + b);
  }

  lemma {:induction false} MemberComplete(m: Members, next: Bytes, depth: nat)
    requires MembersOk(m) && depth + Height(m.tree) <= MAX_DEPTH && AtToken(next) && EndsNumber(next)
    ensures var s := NameText(m.name) + (TreeText(m.tree) + (m.after + next));
            && ReadName(s).Done? && ReadName(s).value == Meaning(m.name.pieces)
            && ReadValue(ReadName(s).rest, depth) == Done(TreeValue(m.tree), m.after + next)
            && SkipBlanks(m.after + next) == next
    decreases m, 0
  {
    TreeStart(m.tree);
    NameComplete(m.name, TreeText(m.tree) + (m.after + next));
    BlankEndsNumber(m.after, next);
    ValueComplete(m.tree, m.after + next, depth);
    SkipOver(m.after, next);
  }

  lemma {:induction false} MembersComplete(m: Members, rest: Bytes, depth: nat, seen: map<Bytes, Value>)
    requires MembersOk(m) && depth + 1 + MembersHeight(m) <= MAX_DEPTH
    ensures ReadMembers(MembersText(m) + rest, depth, seen) == Done(Object(Assign(seen, Bindings(m))), rest)
    decreases m, 1
  {
    var next := MemberTail(m, rest);
    MemberParts(m, rest);
    MemberComplete(m, next, depth + 1);
    if m.LastMember? {
      assert next[1..] == rest;
    } else {
      assert next[1..] == MembersText(m.rest) + rest;
      MembersComplete(m.rest, rest, depth, seen[Meaning(m.name.pieces) := TreeValue(m.tree)]);
      assert Bindings(m)[1..] == Bindings(m.rest);
    }
  }

  lemma {:induction false} ItemComplete(i: Items, next: Bytes, depth: nat)
    requires ItemsOk(i) && depth + Height(i.tree) <= MAX_DEPTH && AtToken(next) && EndsNumber(next)
    ensures var s := i.before + (TreeText(i.tree) + (i.after + next));
            && ReadValue(SkipBlanks(s), depth) == Done(TreeValue(i.tree), i.after + next)
            && SkipBlanks(i.after + next) == next
    decreases i, 0
  {
    TreeStart(i.tree);
    SkipOver(i.before, TreeText(i.tree) + (i.after + next));
    BlankEndsNumber(i.after, next);
    ValueComplete(i.tree, i.after + next, depth);
    SkipOver(i.after, next);
  }

  lemma {:induction false} ItemsComplete(i: Items, rest: Bytes, depth: nat, seen: seq<Value>)
    requires ItemsOk(i) && depth + 1 + ItemsHeight(i) <= MAX_DEPTH
    ensures ReadItems(ItemsText(i) + rest, depth, seen) == Done(Array(seen + ItemsValue(i)), rest)
    decreases i, 1
  {
    var next := ItemTail(i, rest);
    ItemParts(i, rest);
    ItemComplete(i, next, depth + 1);
    if i.LastItem? {
      assert next[1..] == rest && ItemsValue(i) == [TreeValue(i.tree)];
    } else {
      assert next[1..] == ItemsText(i.rest) + rest;
      ItemsComplete(i.rest, rest, depth, seen + [TreeValue(i.tree)]);
      assert seen + [TreeValue(i.tree)] + ItemsValue(i.rest) == seen + ItemsValue(i);
    }
  }

  /** Completeness: the reader accepts all that the grammar derives, with that value. */
  lemma ParseComplete(d: Document)
    requires DocumentOk(d) && Height(d.tree) <= MAX_DEPTH
    ensures Parse(DocumentText(d)) == Some(TreeValue(d.tree))
  {
    Concat3(d.before, TreeText(d.tree), d.after);
    TreeStart(d.tree);
    SkipOver(d.before, TreeText(d.tree) + d.after);
    BlankEndsNumber(d.after, []);
    assert d.after + [] == d.after;
    ValueComplete(d.tree, d.after, 0);
    AfterRun(Blank, d.after, []);
  }
}
