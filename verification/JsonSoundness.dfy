/** Whatever the reader accepts, the grammar derives. */
module JsonSoundness {
  import opened ByteText
  import opened Wrappers
  import opened JsonGrammar
  import opened JsonReader
  import Utf8

  /** Four parts in a row, then what is left. */
  lemma FourParts(s: Bytes, a: Bytes, afterA: Bytes, b: Bytes, afterB: Bytes, c: Bytes, afterC: Bytes,
                  d: Bytes, rest: Bytes)
    requires s == a + afterA && afterA == b + afterB && afterB == c + afterC && afterC == d + rest
    ensures s == a + b + c + d + rest
  {
    Concat5(a, b, c, d, rest);
  }

  // --- Numbers -----------------------------------------------------------------

  lemma BeforeAfter(c: Class, s: Bytes)
    ensures s == Before(s, After(c, s)) + After(c, s)
    ensures forall i | 0 <= i < |Before(s, After(c, s))| :: Is(c, Before(s, After(c, s))[i])
  {
    var run := AfterSplits(c, s);
    assert run == Before(s, After(c, s));
  }

  lemma ExponentSound(s: Bytes)
    ensures var (x, rest) := ReadExponent(s);
            s == ExponentText(x) + rest && (x.Some? ==> ExponentOk(x.value))
  {
    var (x, rest) := ReadExponent(s);
    if x.Some? {
      Uncons(s);
      var tail := if x.value.sign == [] then s[1..] else s[2..];
      if x.value.sign != [] { Uncons2(s); }
      BeforeAfter(Digit, tail);
      Concat4([s[0]], x.value.sign, x.value.digits, rest);
      Concat3([s[0]], x.value.sign, x.value.digits);
    }
  }

  lemma FractionSound(s: Bytes)
    ensures var (f, rest) := ReadFraction(s); s == FractionText(f) + rest && AllDigits(FractionDigits(f))
  {
    var (f, rest) := ReadFraction(s);
    if f.Some? {
      Uncons(s);
      BeforeAfter(Digit, s[1..]);
      Concat3([POINT], f.value, rest);
    }
  }

  /** Three parts in a row, then what is left. */
  lemma ThreeParts(s: Bytes, a: Bytes, afterA: Bytes, b: Bytes, afterB: Bytes, c: Bytes, rest: Bytes)
    requires s == a + afterA && afterA == b + afterB && afterB == c + rest
    ensures s == a + b + c + rest
  {
    Concat4(a, b, c, rest);
  }

  lemma MagnitudeSound(minus: bool, s: Bytes)
    requires ReadMagnitude(minus, s).Done?
    ensures var d := ReadMagnitude(minus, s).value;
            DecimalOk(d) && d.minus == minus
            && s == d.whole + FractionText(d.fraction) + ExponentText(d.exponent) + ReadMagnitude(minus, s).rest
  {
    var d, rest := ReadMagnitude(minus, s).value, ReadMagnitude(minus, s).rest;
    var afterWhole := After(Digit, s);
    BeforeAfter(Digit, s);
    assert AllDigits(d.whole);
    FractionSound(afterWhole);
    var afterFraction := ReadFraction(afterWhole).1;
    assert afterWhole == FractionText(d.fraction) + afterFraction;
    ExponentSound(afterFraction);
    assert afterFraction == ExponentText(d.exponent) + rest;
    assert d.exponent.Some? ==> ExponentOk(d.exponent.value);
    assert d.whole != [] || FractionDigits(d.fraction) != [];
    assert DecimalOk(d);
    ThreeParts(s, d.whole, afterWhole, FractionText(d.fraction), afterFraction, ExponentText(d.exponent), rest);
  }

  lemma FromCharsSound(s: Bytes)
    requires FromChars(s).Done?
    ensures var d := FromChars(s).value; DecimalOk(d) && s == DecimalText(d) + FromChars(s).rest
  {
    var minus := s != [] && s[0] == MINUS;
    var unsigned := if minus then s[1..] else s;
    MagnitudeSound(minus, unsigned);
    var d, rest := FromChars(s).value, FromChars(s).rest;
    assert s == SignText(minus) + unsigned;
    var f, x := FractionText(d.fraction), ExponentText(d.exponent);
    Concat3(d.whole + f, x, rest);
    Concat5(SignText(minus), d.whole, f, x, rest);
    Concat4(d.whole, f, x, rest);
  }

  lemma NumberSound(s: Bytes) returns (t: Tree)
    requires ReadNumber(s).Done?
    ensures TreeOk(t) && s == TreeText(t) + ReadNumber(s).rest && TreeValue(t) == ReadNumber(s).value && Height(t) == 0
  {
    BeforeAfter(NumberByte, s);
    var token := Before(s, After(NumberByte, s));
    FromCharsSound(token);
    t := NumberTree(FromChars(token).value);
    assert DecimalText(t.decimal) + [] == DecimalText(t.decimal);
  }

  // --- Strings -----------------------------------------------------------------

  lemma HexQuadSound(s: Bytes) returns (p: Piece)
    requires ReadHexQuad(s).Done?
    ensures p.Unit? && PieceOk(p) && UnitValue(p) == ReadHexQuad(s).value
    ensures [BACKSLASH, LOWER_U] + s == PieceText(p) + ReadHexQuad(s).rest
  {
    p := Unit(s[0], s[1], s[2], s[3]);
  }

  lemma PiecesTextCons(p: Piece, ps: seq<Piece>)
    ensures PiecesText([p] + ps) == PieceText(p) + PiecesText(ps)
  {
    assert ([p] + ps)[1..] == ps;
  }

  /** One more piece in front. */
  lemma ConsPiece(p: Piece, tail: seq<Piece>, s: Bytes, after: Bytes, final: Bytes)
    requires PieceOk(p) && !p.Unit? && PiecesOk(tail)
    requires s == PieceText(p) + after && after == PiecesText(tail) + [QUOTE] + final
    ensures PiecesOk([p] + tail) && s == PiecesText([p] + tail) + [QUOTE] + final
    ensures Meaning([p] + tail) == [if p.Raw? then p.b else SimpleEscapeValue(p.letter)] + Meaning(tail)
  {
    PiecesTextCons(p, tail);
    assert ([p] + tail)[1..] == tail;
    Concat3(PiecesText(tail), [QUOTE], final);
    Concat4(PieceText(p), PiecesText(tail), [QUOTE], final);
  }

  lemma {:induction false} CharsSound(s: Bytes) returns (ps: seq<Piece>)
    requires ReadChars(s).Done?
    ensures PiecesOk(ps) && s == PiecesText(ps) + [QUOTE] + ReadChars(s).rest
    ensures Meaning(ps) == ReadChars(s).value
    decreases |s|
  {
    Uncons(s);
    var final := ReadChars(s).rest;
    if s[0] == QUOTE {
      ps := [];
    } else if s[0] != BACKSLASH {
      var tail := CharsSound(s[1..]);
      ps := [Raw(s[0])] + tail;
      ConsPiece(Raw(s[0]), tail, s, s[1..], final);
    } else {
      Uncons2(s);
      if s[1] != LOWER_U {
        var tail := CharsSound(s[2..]);
        ps := [Simple(s[1])] + tail;
        ConsPiece(Simple(s[1]), tail, s, s[2..], final);
      } else {
        ps := UnicodeEscapeSound(s);
      }
    }
  }

  lemma {:induction false} UnicodeEscapeSound(s: Bytes) returns (ps: seq<Piece>)
    requires StartsUnit(s) && ReadUnicodeEscape(s[2..]).Done?
    requires ReadChars(ReadUnicodeEscape(s[2..]).rest).Done?
    ensures var e := ReadUnicodeEscape(s[2..]); var r := ReadChars(e.rest);
            PiecesOk(ps) && s == PiecesText(ps) + [QUOTE] + r.rest && Meaning(ps) == e.value + r.value
    decreases |s|, 0
  {
    var e := ReadUnicodeEscape(s[2..]);
    var tail := CharsSound(e.rest);
    var final := [QUOTE] + ReadChars(e.rest).rest;
    Concat3(PiecesText(tail), [QUOTE], ReadChars(e.rest).rest);
    var prefix := EscapePieces(s, tail, final);
    ps := prefix + tail;
    Concat3(PiecesText(ps), [QUOTE], ReadChars(e.rest).rest);
  }

  /** The one or two units an escape reads, given the pieces that follow it. */
  lemma EscapePieces(s: Bytes, tail: seq<Piece>, final: Bytes) returns (prefix: seq<Piece>)
    requires StartsUnit(s) && ReadUnicodeEscape(s[2..]).Done? && PiecesOk(tail)
    requires ReadUnicodeEscape(s[2..]).rest == PiecesText(tail) + final
    ensures PiecesOk(prefix + tail) && s == PiecesText(prefix + tail) + final
    ensures Meaning(prefix + tail) == ReadUnicodeEscape(s[2..]).value + Meaning(tail)
  {
    var first := HexQuadSound(s[2..]);
    var u, rest, after := UnitValue(first), ReadHexQuad(s[2..]).rest, ReadUnicodeEscape(s[2..]).rest;
    Uncons2(s);
    if Utf8.IsHighSurrogate(u) && StartsUnit(rest) && after != rest {
      Uncons2(rest);
      var second := HexQuadSound(rest[2..]);
      prefix := [first, second];
      PairPieces(first, second, tail);
      assert ReadUnicodeEscape(s[2..]).value == Utf8.Encode(Utf8.Combine(u, UnitValue(second)));
      Concat4(PieceText(first), PieceText(second), PiecesText(tail), final);
      Concat3(PieceText(first), PieceText(second), PiecesText(tail));
    } else {
      assert ReadUnicodeEscape(s[2..]).value == Utf8.Encode(LoneUnit(u));
      if tail != [] && IsLow(tail[0]) {
        NoLowUnitAhead(rest, tail, final);
      }
      prefix := [first];
      PiecesTextCons(first, tail);
      assert (prefix + tail)[1..] == tail;
      Concat3(PieceText(first), PiecesText(tail), final);
    }
  }

  lemma PairPieces(first: Piece, second: Piece, tail: seq<Piece>)
    requires IsHigh(first) && IsLow(second) && PiecesOk(tail)
    ensures PiecesOk([first, second] + tail)
    ensures PiecesText([first, second] + tail) == PieceText(first) + (PieceText(second) + PiecesText(tail))
    ensures Meaning([first, second] + tail)
         == Utf8.Encode(Utf8.Combine(UnitValue(first), UnitValue(second))) + Meaning(tail)
  {
    var ps := [first, second] + tail;
    assert ps == [first] + ([second] + tail);
    PiecesTextCons(second, tail);
    PiecesTextCons(first, [second] + tail);
    assert ps[2..] == tail;
  }

  /** When the pieces ahead begin with a low surrogate, so does the text. */
  lemma NoLowUnitAhead(s: Bytes, ps: seq<Piece>, more: Bytes)
    requires ps != [] && IsLow(ps[0]) && s == PiecesText(ps) + more
    ensures StartsUnit(s) && ReadHexQuad(s[2..]) == Done(UnitValue(ps[0]), s[6..])
  {
    assert s[..6] == PieceText(ps[0]);
  }

  lemma StringSound(s: Bytes) returns (ps: seq<Piece>)
    requires ReadString(s).Done?
    ensures PiecesOk(ps) && s == StringText(ps) + ReadString(s).rest && Meaning(ps) == ReadString(s).value
  {
    ps := CharsSound(s[1..]);
    Uncons(s);
    Concat4([QUOTE], PiecesText(ps), [QUOTE], ReadString(s).rest);
    Concat3(PiecesText(ps), [QUOTE], ReadString(s).rest);
  }

  // --- Values ------------------------------------------------------------------

  lemma BlanksSplit(s: Bytes) returns (blank: Bytes)
    ensures AllBlank(blank) && s == blank + SkipBlanks(s)
  {
    blank := AfterSplits(Blank, s);
  }

  lemma NameParts(s: Bytes, before: Bytes, quote: Bytes, text: Bytes, rest: Bytes, beforeColon: Bytes,
                  colon: Bytes, afterColon: Bytes, final: Bytes)
    requires s == before + quote && quote == text + rest && rest == beforeColon + colon
    requires colon == [COLON] + (afterColon + final)
    ensures s == before + text + beforeColon + [COLON] + afterColon + final
  {
    Concat3([COLON], afterColon, final);
    Concat5(before, text, beforeColon, [COLON] + afterColon, final);
    Concat3(before + text + beforeColon, [COLON], afterColon);
  }

  lemma NameSound(s: Bytes) returns (n: Name)
    requires ReadName(s).Done?
    ensures NameOk(n) && s == NameText(n) + ReadName(s).rest && Meaning(n.pieces) == ReadName(s).value
  {
    var quote := SkipBlanks(s);
    var before := BlanksSplit(s);
    var pieces := StringSound(quote);
    var rest := ReadString(quote).rest;
    var beforeColon := BlanksSplit(rest);
    var colon := SkipBlanks(rest);
    Uncons(colon);
    var afterColon := BlanksSplit(colon[1..]);
    n := Name(before, pieces, beforeColon, afterColon);
    NameParts(s, before, quote, StringText(pieces), rest, beforeColon, colon, afterColon, SkipBlanks(colon[1..]));
  }

  lemma {:induction false} ValueSound(s: Bytes, depth: nat) returns (t: Tree)
    requires ReadValue(s, depth).Done?
    ensures TreeOk(t) && s == TreeText(t) + ReadValue(s, depth).rest
    ensures TreeValue(t) == ReadValue(s, depth).value && depth + Height(t) <= MAX_DEPTH
    decreases |s|, 1
  {
    if s[0] == OPEN_BRACE {
      t := ObjectSound(s, depth);
    } else if s[0] == OPEN_BRACKET {
      t := ArraySound(s, depth);
    } else if s[0] == QUOTE {
      var ps := StringSound(s);
      t := StringTree(ps);
    } else if s[0] == LOWER_T {
      t := BoolTree(true);
    } else if s[0] == LOWER_F {
      t := BoolTree(false);
    } else if s[0] == LOWER_N {
      t := NullTree;
    } else {
      t := NumberSound(s);
    }
  }

  /** An opening byte, blanks, and what was read after them. */
  lemma OpenParts(s: Bytes, open: byte, blank: Bytes, inside: Bytes, text: Bytes, rest: Bytes)
    requires s != [] && s[0] == open && s[1..] == blank + inside && inside == text + rest
    ensures s == [open] + (blank + text) + rest && [open] + (blank + text) == [open] + blank + text
  {
    Uncons(s);
    Concat4([open], blank, text, rest);
    Concat3([open], blank, text);
  }

  lemma {:induction false} ObjectSound(s: Bytes, depth: nat) returns (t: Tree)
    requires s != [] && s[0] == OPEN_BRACE && ReadValue(s, depth).Done?
    ensures TreeOk(t) && s == TreeText(t) + ReadValue(s, depth).rest
    ensures TreeValue(t) == ReadValue(s, depth).value && depth + Height(t) <= MAX_DEPTH
    decreases |s|, 0
  {
    var inside := SkipBlanks(s[1..]);
    var blank := BlanksSplit(s[1..]);
    if inside != [] && inside[0] == CLOSE_BRACE {
      t := EmptyObjectTree(blank);
      Uncons(inside);
      OpenParts(s, OPEN_BRACE, blank, inside, [CLOSE_BRACE], inside[1..]);
    } else {
      var m := MembersSound(inside, depth, map[]);
      t := MakeObject(m, blank);
      OpenParts(s, OPEN_BRACE, blank, inside, MembersText(m), ReadValue(s, depth).rest);
    }
  }

  lemma MakeObject(m: Members, blank: Bytes) returns (t: Tree)
    requires MembersOk(m) && AllBlank(blank)
    ensures TreeOk(t) && TreeText(t) == [OPEN_BRACE] + (blank + MembersText(m))
    ensures TreeValue(t) == Object(Assign(map[], Bindings(m))) && Height(t) == 1 + MembersHeight(m)
  {
    AssignIsLastBindings(Bindings(m));
    var m' := LeadingBlankMembers(m, blank);
    t := ObjectTree(m');
  }

  lemma LeadingBlankMembers(m: Members, blank: Bytes) returns (m': Members)
    requires MembersOk(m) && AllBlank(blank)
    ensures MembersOk(m') && MembersText(m') == blank + MembersText(m)
    ensures Bindings(m') == Bindings(m) && MembersHeight(m') == MembersHeight(m)
  {
    var n := m.name.(before := blank + m.name.before);
    m' := m.(name := n);
    LeadingBlankName(m.name, blank);
    var tail := if m.LastMember? then [CLOSE_BRACE] else [COMMA] + MembersText(m.rest);
    Concat4(blank, NameText(m.name), TreeText(m.tree), m.after);
    Concat3(NameText(m.name), TreeText(m.tree), m.after);
    Concat3(blank, NameText(m.name) + TreeText(m.tree) + m.after, tail);
  }

  lemma LeadingBlankName(n: Name, blank: Bytes)
    ensures NameText(n.(before := blank + n.before)) == blank + NameText(n)
  {
    var a, b, c, d := StringText(n.pieces), n.beforeColon, [COLON], n.afterColon;
    Concat3(blank, n.before, a);
    Concat3(blank, n.before + a, b);
    Concat3(blank, n.before + a + b, c);
    Concat3(blank, n.before + a + b + c, d);
  }

  /** One member of an object, up to the comma or brace after it. */
  lemma {:induction false} MemberSound(s: Bytes, depth: nat) returns (n: Name, tree: Tree, blank: Bytes)
    requires ReadName(s).Done? && ReadValue(ReadName(s).rest, depth).Done?
    ensures NameOk(n) && TreeOk(tree) && AllBlank(blank) && depth + Height(tree) <= MAX_DEPTH
    ensures Meaning(n.pieces) == ReadName(s).value
    ensures var r := ReadValue(ReadName(s).rest, depth);
            TreeValue(tree) == r.value && s == NameText(n) + TreeText(tree) + blank + SkipBlanks(r.rest)
    decreases |s|, 0
  {
    n := NameSound(s);
    var rest := ReadName(s).rest;
    tree := ValueSound(rest, depth);
    var after := ReadValue(rest, depth).rest;
    blank := BlanksSplit(after);
    FourParts(s, NameText(n), rest, TreeText(tree), after, blank, SkipBlanks(after), [], SkipBlanks(after));
    assert NameText(n) + TreeText(tree) + blank + [] == NameText(n) + TreeText(tree) + blank;
  }

  lemma MakeMembers(n: Name, tree: Tree, blank: Bytes, more: Option<Members>, final: Bytes, seen: map<Bytes, Value>)
    returns (m: Members)
    requires NameOk(n) && TreeOk(tree) && AllBlank(blank) && (more.Some? ==> MembersOk(more.value))
    ensures MembersOk(m)
    ensures MembersHeight(m) <= Height(tree) || (more.Some? && MembersHeight(m) <= MembersHeight(more.value))
    ensures var tail := if more.Some? then [COMMA] + (MembersText(more.value) + final) else [CLOSE_BRACE] + final;
            MembersText(m) + final == NameText(n) + TreeText(tree) + blank + tail
    ensures var seen' := seen[Meaning(n.pieces) := TreeValue(tree)];
            Assign(seen, Bindings(m)) == if more.Some? then Assign(seen', Bindings(more.value)) else seen'
  {
    var head := NameText(n) + TreeText(tree) + blank;
    match more
    case Some(rest) =>
      m := NextMember(n, tree, blank, rest);
      assert Bindings(m)[1..] == Bindings(rest);
      Concat4(head, [COMMA], MembersText(rest), final);
      Concat3(head, [COMMA], MembersText(rest));
    case None =>
      m := LastMember(n, tree, blank);
      Concat3(head, [CLOSE_BRACE], final);
  }

  lemma {:induction false} MembersSound(s: Bytes, depth: nat, seen: map<Bytes, Value>) returns (m: Members)
    requires depth <= MAX_DEPTH && ReadMembers(s, depth, seen).Done?
    ensures MembersOk(m) && depth + 1 + MembersHeight(m) <= MAX_DEPTH
    ensures s == MembersText(m) + ReadMembers(s, depth, seen).rest
    ensures ReadMembers(s, depth, seen).value == Object(Assign(seen, Bindings(m)))
    decreases |s|, 1
  {
    var key, r := ReadName(s).value, ReadValue(ReadName(s).rest, depth + 1);
    var n, tree, blank := MemberSound(s, depth + 1);
    var next, final := SkipBlanks(r.rest), ReadMembers(s, depth, seen).rest;
    var more := None;
    Uncons(next);
    if next[0] == COMMA {
      var rest := MembersSound(next[1..], depth, seen[key := r.value]);
      more := Some(rest);
    }
    m := MakeMembers(n, tree, blank, more, final, seen);
  }

  lemma {:induction false} ArraySound(s: Bytes, depth: nat) returns (t: Tree)
    requires s != [] && s[0] == OPEN_BRACKET && ReadValue(s, depth).Done?
    ensures TreeOk(t) && s == TreeText(t) + ReadValue(s, depth).rest
    ensures TreeValue(t) == ReadValue(s, depth).value && depth + Height(t) <= MAX_DEPTH
    decreases |s|, 0
  {
    var inside := SkipBlanks(s[1..]);
    var blank := BlanksSplit(s[1..]);
    if inside != [] && inside[0] == CLOSE_BRACKET {
      t := EmptyArrayTree(blank);
      Uncons(inside);
      OpenParts(s, OPEN_BRACKET, blank, inside, [CLOSE_BRACKET], inside[1..]);
    } else {
      var i := ItemsSound(inside, depth, []);
      t := MakeArray(i, blank);
      OpenParts(s, OPEN_BRACKET, blank, inside, ItemsText(i), ReadValue(s, depth).rest);
    }
  }

  lemma MakeArray(i: Items, blank: Bytes) returns (t: Tree)
    requires ItemsOk(i) && AllBlank(blank)
    ensures TreeOk(t) && TreeText(t) == [OPEN_BRACKET] + (blank + ItemsText(i))
    ensures TreeValue(t) == Array([] + ItemsValue(i)) && Height(t) == 1 + ItemsHeight(i)
  {
    var i' := LeadingBlankItems(i, blank);
    assert [] + ItemsValue(i) == ItemsValue(i);
    t := ArrayTree(i');
  }

  lemma LeadingBlankItems(i: Items, blank: Bytes) returns (i': Items)
    requires ItemsOk(i) && AllBlank(blank)
    ensures ItemsOk(i') && ItemsText(i') == blank + ItemsText(i)
    ensures ItemsValue(i') == ItemsValue(i) && ItemsHeight(i') == ItemsHeight(i)
  {
    i' := i.(before := blank + i.before);
    var a, b := TreeText(i.tree), i.after;
    var tail := if i.LastItem? then [CLOSE_BRACKET] else [COMMA] + ItemsText(i.rest);
    Concat3(blank, i.before, a);
    Concat3(blank, i.before + a, b);
    Concat3(blank, i.before + a + b, tail);
  }

  /** One element of an array, up to the comma or bracket after it. */
  lemma {:induction false} ItemSound(s: Bytes, depth: nat) returns (before: Bytes, tree: Tree, blank: Bytes)
    requires ReadValue(SkipBlanks(s), depth).Done?
    ensures AllBlank(before) && TreeOk(tree) && AllBlank(blank) && depth + Height(tree) <= MAX_DEPTH
    ensures var r := ReadValue(SkipBlanks(s), depth);
            TreeValue(tree) == r.value && s == before + TreeText(tree) + blank + SkipBlanks(r.rest)
    decreases |s|, 2
  {
    before := BlanksSplit(s);
    var rest := SkipBlanks(s);
    tree := ValueSound(rest, depth);
    var after := ReadValue(rest, depth).rest;
    blank := BlanksSplit(after);
    FourParts(s, before, rest, TreeText(tree), after, blank, SkipBlanks(after), [], SkipBlanks(after));
    assert before + TreeText(tree) + blank + [] == before + TreeText(tree) + blank;
  }

  lemma MakeItems(before: Bytes, tree: Tree, blank: Bytes, more: Option<Items>, final: Bytes) returns (i: Items)
    requires AllBlank(before) && TreeOk(tree) && AllBlank(blank) && (more.Some? ==> ItemsOk(more.value))
    ensures ItemsOk(i)
    ensures ItemsHeight(i) <= Height(tree) || (more.Some? && ItemsHeight(i) <= ItemsHeight(more.value))
    ensures var tail := if more.Some? then [COMMA] + (ItemsText(more.value) + final) else [CLOSE_BRACKET] + final;
            ItemsText(i) + final == before + TreeText(tree) + blank + tail
    ensures ItemsValue(i) == [TreeValue(tree)] + (if more.Some? then ItemsValue(more.value) else [])
  {
    var head := before + TreeText(tree) + blank;
    match more
    case Some(rest) =>
      i := NextItem(before, tree, blank, rest);
      Concat4(head, [COMMA], ItemsText(rest), final);
      Concat3(head, [COMMA], ItemsText(rest));
    case None =>
      i := LastItem(before, tree, blank);
      Concat3(head, [CLOSE_BRACKET], final);
  }

  /** Behind an item the reader goes on after a comma, and is done after a bracket. */
  lemma ReadItemsStep(s: Bytes, depth: nat, seen: seq<Value>)
    requires ReadItems(s, depth, seen).Done?
    ensures ReadValue(SkipBlanks(s), depth + 1).Done?
    ensures var r := ReadValue(SkipBlanks(s), depth + 1);
            var next := SkipBlanks(r.rest);
            next != [] && |next[1..]| < |s|
            && ReadItems(s, depth, seen)
            == if next[0] == COMMA then ReadItems(next[1..], depth, seen + [r.value])
               else Done(Array(seen + [r.value]), next[1..])
    ensures var next := SkipBlanks(ReadValue(SkipBlanks(s), depth + 1).rest);
            next[0] == COMMA || next[0] == CLOSE_BRACKET
  {
  }

  lemma AppendTwice(seen: seq<Value>, v: Value, more: seq<Value>)
    ensures seen + [v] + more == seen + ([v] + more)
  {
  }

  lemma {:induction false} ItemsSound(s: Bytes, depth: nat, seen: seq<Value>) returns (i: Items)
    requires depth <= MAX_DEPTH && ReadItems(s, depth, seen).Done?
    ensures ItemsOk(i) && depth + 1 + ItemsHeight(i) <= MAX_DEPTH
    ensures s == ItemsText(i) + ReadItems(s, depth, seen).rest
    ensures ReadItems(s, depth, seen).value == Array(seen + ItemsValue(i))
    decreases |s|, 3
  {
    var r := ReadValue(SkipBlanks(s), depth + 1);
    ReadItemsStep(s, depth, seen);
    var before, tree, blank := ItemSound(s, depth + 1);
    var next, final := SkipBlanks(r.rest), ReadItems(s, depth, seen).rest;
    var more := None;
    Uncons(next);
    if next[0] == COMMA {
      var rest := ItemsSound(next[1..], depth, seen + [r.value]);
      more := Some(rest);
      AppendTwice(seen, r.value, ItemsValue(rest));
    }
    i := MakeItems(before, tree, blank, more, final);
  }

  /** Soundness: the reader accepts only what the grammar derives, with that value. */
  lemma ParseSound(text: Bytes)
    requires Parse(text).Some?
    ensures Derives(text, Parse(text).value, MAX_DEPTH)
  {
    var before := BlanksSplit(text);
    var rest := ReadValue(SkipBlanks(text), 0).rest;
    var t := ValueSound(SkipBlanks(text), 0);
    var after := BlanksSplit(rest);
    var d := Document(before, t, after);
    assert DocumentText(d) == text;
    assert DocumentOk(d) && TreeValue(d.tree) == Parse(text).value && Height(d.tree) <= MAX_DEPTH;
  }
}
