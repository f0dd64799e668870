/** What the reader as a whole promises: the language it accepts, its depth limit,
    and that it keeps text valid UTF-8. */
module JsonTheorems {
  import opened ByteText
  import opened Wrappers
  import opened JsonGrammar
  import opened JsonReader
  import opened JsonSoundness
  import opened JsonCompleteness
  import opened JsonUnambiguity
  import opened Utf8

  // --- The accepted language -----------------------------------------------------

  /** The reader accepts a text with a value exactly when the grammar derives that
      value from it within the depth limit. */
  lemma ParseIsTheGrammar(text: Bytes, v: Value)
    ensures Parse(text) == Some(v) <==> Derives(text, v, MAX_DEPTH)
  {
    if Parse(text) == Some(v) {
      ParseSound(text);
    }
    if Derives(text, v, MAX_DEPTH) {
      var d: Document :|
        DocumentOk(d) && DocumentText(d) == text && TreeValue(d.tree) == v && Height(d.tree) <= MAX_DEPTH;
      ParseComplete(d);
    }
  }

  // --- The depth limit -----------------------------------------------------------

  lemma {:induction false} ValueTooDeep(t: Tree, rest: Bytes, depth: nat)
    requires TreeOk(t) && depth <= MAX_DEPTH + 1 && depth + Height(t) > MAX_DEPTH && EndsNumber(rest)
    ensures ReadValue(TreeText(t) + rest, depth).Fail?
    decreases t
  {
    if depth <= MAX_DEPTH {
      match t
      case ArrayTree(items) => ArrayTooDeep(items, rest, depth);
      case ObjectTree(members) => ObjectTooDeep(members, rest, depth);
    }
  }

  lemma {:induction false} ArrayTooDeep(items: Items, rest: Bytes, depth: nat)
    requires ItemsOk(items) && depth <= MAX_DEPTH && depth + 1 + ItemsHeight(items) > MAX_DEPTH
    ensures ReadValue([OPEN_BRACKET] + ItemsText(items) + rest, depth).Fail?
    decreases items, 2
  {
    var inside := ItemsText(items) + rest;
    OpenComplete(OPEN_BRACKET, ItemsText(items), rest);
    ItemsTooDeep(items, rest, depth, []);
    ItemsSkip(items, rest);
    SkipTwice(inside);
    assert ReadItems(SkipBlanks(inside), depth, []) == ReadItems(inside, depth, []);
  }

  lemma {:induction false} ObjectTooDeep(members: Members, rest: Bytes, depth: nat)
    requires MembersOk(members) && depth <= MAX_DEPTH && depth + 1 + MembersHeight(members) > MAX_DEPTH
    ensures ReadValue([OPEN_BRACE] + MembersText(members) + rest, depth).Fail?
    decreases members, 3
  {
    var inside := MembersText(members) + rest;
    OpenComplete(OPEN_BRACE, MembersText(members), rest);
    MembersTooDeep(members, rest, depth, map[]);
    MembersSkip(members, rest);
    SkipTwice(inside);
    assert ReadName(SkipBlanks(inside)) == ReadName(inside);
    assert ReadMembers(SkipBlanks(inside), depth, map[]) == ReadMembers(inside, depth, map[]);
  }

  lemma {:induction false} ItemsTooDeep(i: Items, rest: Bytes, depth: nat, seen: seq<Value>)
    requires ItemsOk(i) && depth <= MAX_DEPTH && depth + 1 + ItemsHeight(i) > MAX_DEPTH
    ensures ReadItems(ItemsText(i) + rest, depth, seen).Fail?
    decreases i, 1
  {
    var next := ItemTail(i, rest);
    ItemParts(i, rest);
    if depth + 1 + Height(i.tree) > MAX_DEPTH {
      TreeStart(i.tree);
      SkipOver(i.before, TreeText(i.tree) + (i.after + next));
      BlankEndsNumber(i.after, next);
      ValueTooDeep(i.tree, i.after + next, depth + 1);
    } else {
      ItemComplete(i, next, depth + 1);
      assert next[1..] == ItemsText(i.rest) + rest;
      ItemsTooDeep(i.rest, rest, depth, seen + [TreeValue(i.tree)]);
    }
  }

  lemma {:induction false} MembersTooDeep(m: Members, rest: Bytes, depth: nat, seen: map<Bytes, Value>)
    requires MembersOk(m) && depth <= MAX_DEPTH && depth + 1 + MembersHeight(m) > MAX_DEPTH
    ensures ReadMembers(MembersText(m) + rest, depth, seen).Fail?
    decreases m, 2
  {
    if depth + 1 + Height(m.tree) > MAX_DEPTH {
      FirstMemberTooDeep(m, rest, depth, seen);
    } else {
      assert m.NextMember?;
      MembersTooDeep(m.rest, rest, depth, seen[Meaning(m.name.pieces) := TreeValue(m.tree)]);
      MemberThenMore(m, rest, depth, seen);
    }
  }

  lemma {:induction false} FirstMemberTooDeep(m: Members, rest: Bytes, depth: nat, seen: map<Bytes, Value>)
    requires MembersOk(m) && depth <= MAX_DEPTH && depth + 1 + Height(m.tree) > MAX_DEPTH
    ensures ReadMembers(MembersText(m) + rest, depth, seen).Fail?
    decreases m, 1
  {
    MemberParts(m, rest);
    MemberTooDeep(m, MemberTail(m, rest), depth + 1);
  }

  /** Behind a member that is read and a comma the reader goes on with the rest. */
  lemma MemberThenMore(m: Members, rest: Bytes, depth: nat, seen: map<Bytes, Value>)
    requires MembersOk(m) && m.NextMember? && depth + 1 + Height(m.tree) <= MAX_DEPTH
    ensures ReadMembers(MembersText(m) + rest, depth, seen)
         == ReadMembers(MembersText(m.rest) + rest, depth, seen[Meaning(m.name.pieces) := TreeValue(m.tree)])
  {
    var next := MemberTail(m, rest);
    MemberParts(m, rest);
    MemberComplete(m, next, depth + 1);
    assert next[1..] == MembersText(m.rest) + rest;
  }

  lemma {:induction false} MemberTooDeep(m: Members, next: Bytes, depth: nat)
    requires MembersOk(m) && depth <= MAX_DEPTH + 1 && depth + Height(m.tree) > MAX_DEPTH && EndsNumber(next)
    ensures var s := NameText(m.name) + (TreeText(m.tree) + (m.after + next));
            ReadName(s).Done? && ReadValue(ReadName(s).rest, depth).Fail?
    decreases m, 0
  {
    TreeStart(m.tree);
    NameComplete(m.name, TreeText(m.tree) + (m.after + next));
    BlankEndsNumber(m.after, next);
    ValueTooDeep(m.tree, m.after + next, depth);
  }

  /** Every document of the grammar is read to its value, or refused when it holds a
      value inside more than 64 containers. */
  lemma ParseOfADocument(d: Document)
    requires DocumentOk(d)
    ensures Parse(DocumentText(d)) == if Height(d.tree) <= MAX_DEPTH then Some(TreeValue(d.tree)) else None
  {
    if Height(d.tree) <= MAX_DEPTH {
      ParseComplete(d);
    } else {
      Concat3(d.before, TreeText(d.tree), d.after);
      TreeStart(d.tree);
      SkipOver(d.before, TreeText(d.tree) + d.after);
      BlankEndsNumber(d.after, []);
      assert d.after + [] == d.after;
      ValueTooDeep(d.tree, d.after, 0);
    }
  }

  // --- Where the reader is wider than the RFC ------------------------------------

  /** A document is RFC 8259 text exactly when it is UTF-8 and each of its number tokens
      is an RFC 8259 number: there is no other reading of it that would do. */
  lemma WhenADocumentIsRfcText(d: Document)
    requires DocumentOk(d)
    ensures IsRfcText(DocumentText(d)) <==> IsUtf8(DocumentText(d)) && RfcTree(d.tree)
  {
    if IsRfcText(DocumentText(d)) {
      var e: Document :| DocumentOk(e) && DocumentText(e) == DocumentText(d) && RfcTree(e.tree);
      GrammarIsUnambiguous(d, e);
    }
  }

  /** "01" is accepted, and is not RFC 8259 text. */
  lemma LeadingZeroIsAccepted()
    ensures Parse([0x30, 0x31]) == Some(Number(Decimal(false, [0x30, 0x31], None, None)))
    ensures !IsRfcText([0x30, 0x31])
  {
    var d := Document([], NumberTree(Decimal(false, [0x30, 0x31], None, None)), []);
    assert DocumentText(d) == [0x30, 0x31];
    ParseOfADocument(d);
    WhenADocumentIsRfcText(d);
  }

  // --- UTF-8 in, UTF-8 out ---------------------------------------------------------

  predicate ValueIsUtf8(v: Value)
  {
    match v
    case Text(s) => IsUtf8(s)
    case Array(items) => forall i | 0 <= i < |items| :: ValueIsUtf8(items[i])
    case Object(members) => forall k | k in members :: IsUtf8(k) && ValueIsUtf8(members[k])
    case _ => true
  }

  /** Text that is not broken was not broken before. */
  lemma RunSplit(q: State, a: Bytes, b: Bytes)
    requires Run(q, a + b) != Broken
    ensures Run(q, a) != Broken && Run(q, a + b) == Run(Run(q, a), b)
  {
    RunConcat(q, a, b);
    BrokenStays(b);
  }

  /** An escape is ASCII, so it stands between characters. */
  lemma EscapeRun(q: State, p: Piece, s: Bytes)
    requires PieceOk(p) && !p.Raw? && Run(q, PieceText(p) + s) != Broken
    ensures q == Start && Run(Start, PieceText(p) + s) == Run(Start, s)
  {
    RunSplit(q, PieceText(p), s);
    RunAscii(q, PieceText(p));
  }

  /** Between its quotes a string's octets and its meaning are UTF-8 together. */
  lemma {:induction false} MeaningIsUtf8(q: State, ps: seq<Piece>)
    requires PiecesOk(ps) && Run(q, PiecesText(ps)) == Start
    ensures Run(q, Meaning(ps)) == Start
    decreases |ps|
  {
    if ps != [] {
      var tail := PiecesText(ps[1..]);
      match ps[0]
      case Raw(b) =>
        assert ([b] + tail)[1..] == tail;
        MeaningIsUtf8(Step(q, b), ps[1..]);
        assert Meaning(ps)[1..] == Meaning(ps[1..]);
      case Simple(letter) =>
        EscapeRun(q, ps[0], tail);
        MeaningIsUtf8(Start, ps[1..]);
        assert Meaning(ps)[1..] == Meaning(ps[1..]);
      case Unit(_, _, _, _) =>
        EscapeRun(q, ps[0], tail);
        UnitsAreUtf8(ps);
    }
  }

  lemma {:induction false} UnitsAreUtf8(ps: seq<Piece>)
    requires PiecesOk(ps) && ps != [] && ps[0].Unit? && Run(Start, PiecesText(ps[1..])) == Start
    ensures Run(Start, Meaning(ps)) == Start
    decreases |ps|, 0
  {
    var u := UnitValue(ps[0]);
    if IsHigh(ps[0]) && |ps| > 1 && IsLow(ps[1]) {
      var c := Combine(u, UnitValue(ps[1]));
      assert ps[1..][1..] == ps[2..];
      EscapeRun(Start, ps[1], PiecesText(ps[2..]));
      MeaningIsUtf8(Start, ps[2..]);
      EncodeIsUtf8(c);
      RunConcat(Start, Encode(c), Meaning(ps[2..]));
    } else {
      var c := LoneUnit(u);
      MeaningIsUtf8(Start, ps[1..]);
      EncodeIsUtf8(c);
      RunConcat(Start, Encode(c), Meaning(ps[1..]));
    }
  }

  /** ASCII text that is not broken starts and ends between characters. */
  lemma AsciiRun(q: State, s: Bytes)
    requires s != [] && (forall i | 0 <= i < |s| :: s[i] <= 0x7F) && Run(q, s) != Broken
    ensures q == Start && Run(q, s) == Start
  {
    RunAscii(q, s);
  }

  lemma BlankRun(q: State, s: Bytes)
    requires AllBlank(s) && Run(q, s) != Broken
    ensures Run(q, s) == q && (s != [] ==> q == Start)
  {
    assert forall i | 0 <= i < |s| :: IsBlank(s[i]);
    RunAscii(q, s);
  }

  lemma StringIsUtf8(q: State, ps: seq<Piece>)
    requires PiecesOk(ps) && Run(q, StringText(ps)) != Broken
    ensures q == Start && Run(q, StringText(ps)) == Start && IsUtf8(Meaning(ps))
  {
    RunSplit(q, [QUOTE] + PiecesText(ps), [QUOTE]);
    RunSplit(q, [QUOTE], PiecesText(ps));
    AsciiRun(q, [QUOTE]);
    AsciiRun(Run(q, [QUOTE] + PiecesText(ps)), [QUOTE]);
    MeaningIsUtf8(Start, ps);
    RecogniserIsTheGrammar(Meaning(ps));
  }

  lemma {:induction false} TreeIsUtf8(q: State, t: Tree)
    requires TreeOk(t) && Run(q, TreeText(t)) != Broken
    ensures q == Start && Run(q, TreeText(t)) == Start && ValueIsUtf8(TreeValue(t))
    decreases t, 1
  {
    match t
    case StringTree(ps) => StringIsUtf8(q, ps);
    case ArrayTree(items) => ArrayIsUtf8(q, items);
    case ObjectTree(members) => ObjectIsUtf8(q, members);
    case _ => PlainIsUtf8(q, t);
  }

  /** Literals, numbers and empty containers are ASCII. */
  lemma PlainIsAscii(t: Tree)
    requires TreeOk(t) && !t.StringTree? && !t.ArrayTree? && !t.ObjectTree?
    ensures TreeText(t) != [] && forall i | 0 <= i < |TreeText(t)| :: TreeText(t)[i] <= 0x7F
  {
    match t
    case NumberTree(d) =>
      DecimalBytes(d);
      FromCharsComplete(d);
      assert forall i | 0 <= i < |DecimalText(d)| :: IsNumberByte(DecimalText(d)[i]);
    case EmptyArrayTree(blank) => assert forall i | 0 <= i < |blank| :: IsBlank(blank[i]);
    case EmptyObjectTree(blank) => assert forall i | 0 <= i < |blank| :: IsBlank(blank[i]);
    case _ =>
  }

  lemma PlainIsUtf8(q: State, t: Tree)
    requires TreeOk(t) && !t.StringTree? && !t.ArrayTree? && !t.ObjectTree? && Run(q, TreeText(t)) != Broken
    ensures q == Start && Run(q, TreeText(t)) == Start && ValueIsUtf8(TreeValue(t))
  {
    PlainIsAscii(t);
    AsciiRun(q, TreeText(t));
  }

  lemma {:induction false} ArrayIsUtf8(q: State, items: Items)
    requires ItemsOk(items) && Run(q, [OPEN_BRACKET] + ItemsText(items)) != Broken
    ensures q == Start && Run(q, [OPEN_BRACKET] + ItemsText(items)) == Start
    ensures ValueIsUtf8(Array(ItemsValue(items)))
    decreases items, 2
  {
    RunSplit(q, [OPEN_BRACKET], ItemsText(items));
    AsciiRun(q, [OPEN_BRACKET]);
    ItemsAreUtf8(Start, items);
  }

  lemma {:induction false} ObjectIsUtf8(q: State, members: Members)
    requires MembersOk(members) && Run(q, [OPEN_BRACE] + MembersText(members)) != Broken
    ensures q == Start && Run(q, [OPEN_BRACE] + MembersText(members)) == Start
    ensures ValueIsUtf8(Object(LastBindings(Bindings(members))))
    decreases members, 2
  {
    RunSplit(q, [OPEN_BRACE], MembersText(members));
    AsciiRun(q, [OPEN_BRACE]);
    MembersAreUtf8(Start, members);
    LastBindingsAreUtf8(Bindings(members));
  }

  ghost predicate BindingsAreUtf8(bs: seq<(Bytes, Value)>)
  {
    forall i | 0 <= i < |bs| :: IsUtf8(bs[i].0) && ValueIsUtf8(bs[i].1)
  }

  lemma LastBindingsAreUtf8(bs: seq<(Bytes, Value)>)
    requires BindingsAreUtf8(bs)
    ensures ValueIsUtf8(Object(LastBindings(bs)))
  {
    forall k | k in LastBindings(bs) ensures IsUtf8(k) && ValueIsUtf8(LastBindings(bs)[k]) {
      var i :| 0 <= i < |bs| && bs[i] == (k, LastOf(bs, k));
    }
  }

  lemma {:induction false} ItemsAreUtf8(q: State, i: Items)
    requires ItemsOk(i) && Run(q, ItemsText(i)) != Broken
    ensures q == Start && Run(q, ItemsText(i)) == Start
    ensures forall k | 0 <= k < |ItemsValue(i)| :: ValueIsUtf8(ItemsValue(i)[k])
    decreases i, 0
  {
    var tail := if i.LastItem? then [CLOSE_BRACKET] else [COMMA] + ItemsText(i.rest);
    RunSplit(q, i.before + TreeText(i.tree) + i.after, tail);
    RunSplit(q, i.before + TreeText(i.tree), i.after);
    RunSplit(q, i.before, TreeText(i.tree));
    BlankRun(q, i.before);
    TreeIsUtf8(q, i.tree);
    BlankRun(Start, i.after);
    if i.LastItem? {
      AsciiRun(Start, tail);
    } else {
      RunSplit(Start, [COMMA], ItemsText(i.rest));
      AsciiRun(Start, [COMMA]);
      ItemsAreUtf8(Start, i.rest);
    }
  }

  lemma NameIsUtf8(q: State, n: Name)
    requires NameOk(n) && Run(q, NameText(n)) != Broken
    ensures q == Start && Run(q, NameText(n)) == Start && IsUtf8(Meaning(n.pieces))
  {
    var a := n.before + StringText(n.pieces);
    RunSplit(q, a + n.beforeColon + [COLON], n.afterColon);
    RunSplit(q, a + n.beforeColon, [COLON]);
    RunSplit(q, a, n.beforeColon);
    RunSplit(q, n.before, StringText(n.pieces));
    BlankRun(q, n.before);
    StringIsUtf8(q, n.pieces);
    BlankRun(Start, n.beforeColon);
    AsciiRun(Start, [COLON]);
    BlankRun(Start, n.afterColon);
  }

  lemma {:induction false} MembersAreUtf8(q: State, m: Members)
    requires MembersOk(m) && Run(q, MembersText(m)) != Broken
    ensures q == Start && Run(q, MembersText(m)) == Start && BindingsAreUtf8(Bindings(m))
    decreases m, 0
  {
    var tail := if m.LastMember? then [CLOSE_BRACE] else [COMMA] + MembersText(m.rest);
    RunSplit(q, NameText(m.name) + TreeText(m.tree) + m.after, tail);
    MemberIsUtf8(q, m);
    if m.LastMember? {
      AsciiRun(Start, tail);
    } else {
      RunSplit(Start, [COMMA], MembersText(m.rest));
      AsciiRun(Start, [COMMA]);
      MembersAreUtf8(Start, m.rest);
    }
  }

  lemma {:induction false} MemberIsUtf8(q: State, m: Members)
    requires MembersOk(m) && Run(q, NameText(m.name) + TreeText(m.tree) + m.after) != Broken
    ensures q == Start && Run(q, NameText(m.name) + TreeText(m.tree) + m.after) == Start
    ensures IsUtf8(Meaning(m.name.pieces)) && ValueIsUtf8(TreeValue(m.tree))
    decreases m.tree, 2
  {
    RunSplit(q, NameText(m.name) + TreeText(m.tree), m.after);
    RunSplit(q, NameText(m.name), TreeText(m.tree));
    NameIsUtf8(q, m.name);
    TreeIsUtf8(Start, m.tree);
    BlankRun(Start, m.after);
  }

  /** From a UTF-8 document the reader returns only UTF-8 keys and strings, whatever
      mix of raw octets, escapes and paired or unpaired surrogates it holds. */
  lemma ParseKeepsUtf8(text: Bytes)
    requires IsUtf8(text) && Parse(text).Some?
    ensures ValueIsUtf8(Parse(text).value)
  {
    ParseSound(text);
    var d: Document :| DocumentOk(d) && DocumentText(d) == text && TreeValue(d.tree) == Parse(text).value;
    RecogniserIsTheGrammar(text);
    RunSplit(Start, d.before + TreeText(d.tree), d.after);
    RunSplit(Start, d.before, TreeText(d.tree));
    BlankRun(Start, d.before);
    TreeIsUtf8(Start, d.tree);
  }
}
