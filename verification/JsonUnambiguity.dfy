/** A text determines its syntax tree, however deeply it is nested: every blank, escape,
    digit and duplicate member has one place. */
module JsonUnambiguity {
  import opened ByteText
  import opened JsonGrammar
  import opened JsonReader
  import opened JsonSoundness
  import opened JsonCompleteness

  lemma BlanksUnique(a: Bytes, x: Bytes, b: Bytes, y: Bytes)
    requires AllBlank(a) && AllBlank(b) && AtToken(x) && AtToken(y) && a + x == b + y
    ensures a == b && x == y
  {
    SkipOver(a, x);
    SkipOver(b, y);
    SameSplit(a, x, b, y);
  }

  // --- Strings -----------------------------------------------------------------

  lemma PieceUnique(p: Piece, x: Bytes, q: Piece, y: Bytes)
    requires PieceOk(p) && PieceOk(q) && PieceText(p) + x == PieceText(q) + y
    ensures p == q && x == y
  {
    var a, b := PieceText(p) + x, PieceText(q) + y;
    assert a[0] == PieceText(p)[0] && b[0] == PieceText(q)[0];
    if !p.Raw? && !q.Raw? {
      assert a[1] == PieceText(p)[1] && b[1] == PieceText(q)[1];
    }
    SameSplit(PieceText(p), x, PieceText(q), y);
  }

  lemma {:induction false} PiecesUnique(ps: seq<Piece>, r: Bytes, qs: seq<Piece>, s: Bytes)
    requires PiecesOk(ps) && PiecesOk(qs)
    requires PiecesText(ps) + ([QUOTE] + r) == PiecesText(qs) + ([QUOTE] + s)
    ensures ps == qs && r == s
    decreases |ps|
  {
    PiecesStart(ps, r);
    PiecesStart(qs, s);
    if ps == [] {
      SameSplit([QUOTE], r, [QUOTE], s);
    } else {
      Concat3(PieceText(ps[0]), PiecesText(ps[1..]), [QUOTE] + r);
      Concat3(PieceText(qs[0]), PiecesText(qs[1..]), [QUOTE] + s);
      PieceUnique(ps[0], PiecesText(ps[1..]) + ([QUOTE] + r), qs[0], PiecesText(qs[1..]) + ([QUOTE] + s));
      PiecesUnique(ps[1..], r, qs[1..], s);
      assert ps == [ps[0]] + ps[1..] && qs == [qs[0]] + qs[1..];
    }
  }

  /** Only the end of a string starts with a quote. */
  lemma PiecesStart(ps: seq<Piece>, r: Bytes)
    requires PiecesOk(ps)
    ensures (PiecesText(ps) + ([QUOTE] + r))[0] == QUOTE <==> ps == []
    ensures ps == [] ==> PiecesText(ps) + ([QUOTE] + r) == [QUOTE] + r
  {
    if ps != [] {
      assert (PiecesText(ps) + ([QUOTE] + r))[0] == PieceText(ps[0])[0];
    }
  }

  lemma StringUnique(ps: seq<Piece>, r: Bytes, qs: seq<Piece>, s: Bytes)
    requires PiecesOk(ps) && PiecesOk(qs) && StringText(ps) + r == StringText(qs) + s
    ensures ps == qs && r == s
  {
    StringParts(ps, r);
    StringParts(qs, s);
    SameSplit([QUOTE], PiecesText(ps) + ([QUOTE] + r), [QUOTE], PiecesText(qs) + ([QUOTE] + s));
    PiecesUnique(ps, r, qs, s);
  }

  lemma StringParts(ps: seq<Piece>, r: Bytes)
    ensures StringText(ps) + r == [QUOTE] + (PiecesText(ps) + ([QUOTE] + r))
  {
    Concat4([QUOTE], PiecesText(ps), [QUOTE], r);
  }

  // --- Values ------------------------------------------------------------------

  /** What the first octet says of a value: literals, numbers and strings each have
      their own, and an array or object may or may not be empty. */
  function Kind(b: byte): int
  {
    if b == QUOTE then 1 else if b == OPEN_BRACKET then 2 else if b == OPEN_BRACE then 3
    else if b == LOWER_N then 4 else if b == LOWER_T then 5 else if b == LOWER_F then 6 else 7
  }

  function TreeKind(t: Tree): int
  {
    match t
    case StringTree(_) => 1
    case EmptyArrayTree(_) => 2
    case ArrayTree(_) => 2
    case EmptyObjectTree(_) => 3
    case ObjectTree(_) => 3
    case NullTree => 4
    case BoolTree(flag) => if flag then 5 else 6
    case NumberTree(_) => 7
  }

  lemma StartTellsKind(t: Tree, r: Bytes)
    requires TreeOk(t)
    ensures TreeText(t) != [] && Kind((TreeText(t) + r)[0]) == TreeKind(t)
  {
    TreeStart(t);
    if t.NumberTree? {
      NumberStart(t.decimal);
    }
  }

  lemma {:induction false} TreeUnique(t: Tree, r: Bytes, u: Tree, s: Bytes)
    requires TreeOk(t) && TreeOk(u) && EndsNumber(r) && EndsNumber(s) && TreeText(t) + r == TreeText(u) + s
    ensures t == u && r == s
    decreases t, 1
  {
    StartTellsKind(t, r);
    StartTellsKind(u, s);
    match t
    case NullTree => SameSplit(TreeText(t), r, TreeText(u), s);
    case BoolTree(_) => SameSplit(TreeText(t), r, TreeText(u), s);
    case NumberTree(d) =>
      NumberComplete(d, r);
      NumberComplete(u.decimal, s);
    case StringTree(ps) => StringUnique(ps, r, u.pieces, s);
    case EmptyArrayTree(_) => ContainerUnique(t, r, u, s);
    case ArrayTree(_) => ContainerUnique(t, r, u, s);
    case EmptyObjectTree(_) => ContainerUnique(t, r, u, s);
    case ObjectTree(_) => ContainerUnique(t, r, u, s);
  }

  predicate IsContainer(t: Tree) { t.EmptyArrayTree? || t.ArrayTree? || t.EmptyObjectTree? || t.ObjectTree? }

  /** What stands behind the opening bracket or brace. */
  function Inside(t: Tree, r: Bytes): Bytes
    requires IsContainer(t)
  {
    match t
    case EmptyArrayTree(blank) => blank + ([CLOSE_BRACKET] + r)
    case EmptyObjectTree(blank) => blank + ([CLOSE_BRACE] + r)
    case ArrayTree(items) => ItemsText(items) + r
    case ObjectTree(members) => MembersText(members) + r
  }

  lemma ContainerParts(t: Tree, r: Bytes)
    requires IsContainer(t) && TreeOk(t)
    ensures (TreeText(t) + r)[1..] == Inside(t, r)
    ensures var next := SkipBlanks(Inside(t, r));
            next != [] && (next[0] == (if TreeKind(t) == 2 then CLOSE_BRACKET else CLOSE_BRACE)
                           <==> t.EmptyArrayTree? || t.EmptyObjectTree?)
  {
    match t
    case EmptyArrayTree(blank) =>
      Concat4([OPEN_BRACKET], blank, [CLOSE_BRACKET], r);
      SkipOver(blank, [CLOSE_BRACKET] + r);
    case EmptyObjectTree(blank) =>
      Concat4([OPEN_BRACE], blank, [CLOSE_BRACE], r);
      SkipOver(blank, [CLOSE_BRACE] + r);
    case ArrayTree(items) =>
      OpenComplete(OPEN_BRACKET, ItemsText(items), r);
      ItemsSkip(items, r);
    case ObjectTree(members) =>
      OpenComplete(OPEN_BRACE, MembersText(members), r);
      MembersSkip(members, r);
  }

  lemma {:induction false} ContainerUnique(t: Tree, r: Bytes, u: Tree, s: Bytes)
    requires IsContainer(t) && TreeKind(t) == TreeKind(u) && TreeOk(t) && TreeOk(u)
    requires TreeText(t) + r == TreeText(u) + s
    ensures t == u && r == s
    decreases t, 0
  {
    ContainerParts(t, r);
    ContainerParts(u, s);
    match t
    case EmptyArrayTree(blank) =>
      BlanksUnique(blank, [CLOSE_BRACKET] + r, u.blank, [CLOSE_BRACKET] + s);
      SameSplit([CLOSE_BRACKET], r, [CLOSE_BRACKET], s);
    case EmptyObjectTree(blank) =>
      BlanksUnique(blank, [CLOSE_BRACE] + r, u.blank, [CLOSE_BRACE] + s);
      SameSplit([CLOSE_BRACE], r, [CLOSE_BRACE], s);
    case ArrayTree(items) => ItemsUnique(items, r, u.items, s);
    case ObjectTree(members) => MembersUnique(members, r, u.members, s);
  }

  /** A blank, a value and what follows, up to the next token. */
  lemma {:induction false} ItemUnique(a: Bytes, t: Tree, b: Bytes, x: Bytes, a': Bytes, t': Tree, b': Bytes, x': Bytes)
    requires AllBlank(a) && AllBlank(a') && TreeOk(t) && TreeOk(t') && AllBlank(b) && AllBlank(b')
    requires AtToken(x) && AtToken(x') && EndsNumber(x) && EndsNumber(x')
    requires a + (TreeText(t) + (b + x)) == a' + (TreeText(t') + (b' + x'))
    ensures a == a' && t == t' && b == b' && x == x'
    decreases t, 2
  {
    TreeStart(t);
    TreeStart(t');
    BlanksUnique(a, TreeText(t) + (b + x), a', TreeText(t') + (b' + x'));
    BlankEndsNumber(b, x);
    BlankEndsNumber(b', x');
    TreeUnique(t, b + x, t', b' + x');
    BlanksUnique(b, x, b', x');
  }

  lemma {:induction false} ItemsUnique(i: Items, r: Bytes, j: Items, s: Bytes)
    requires ItemsOk(i) && ItemsOk(j) && ItemsText(i) + r == ItemsText(j) + s
    ensures i == j && r == s
    decreases i, 0
  {
    ItemParts(i, r);
    ItemParts(j, s);
    ItemUnique(i.before, i.tree, i.after, ItemTail(i, r), j.before, j.tree, j.after, ItemTail(j, s));
    assert i.LastItem? <==> ItemTail(i, r)[0] == CLOSE_BRACKET;
    assert j.LastItem? <==> ItemTail(j, s)[0] == CLOSE_BRACKET;
    assert ItemTail(i, r)[1..] == if i.LastItem? then r else ItemsText(i.rest) + r;
    assert ItemTail(j, s)[1..] == if j.LastItem? then s else ItemsText(j.rest) + s;
    if i.NextItem? {
      ItemsUnique(i.rest, r, j.rest, s);
    }
  }

  lemma NameUnique(n: Name, x: Bytes, m: Name, y: Bytes)
    requires NameOk(n) && NameOk(m) && AtToken(x) && AtToken(y) && NameText(n) + x == NameText(m) + y
    ensures n == m && x == y
  {
    var a, b := [COLON] + (n.afterColon + x), [COLON] + (m.afterColon + y);
    NameSplit(n, x);
    NameSplit(m, y);
    var c, d := StringText(n.pieces) + (n.beforeColon + a), StringText(m.pieces) + (m.beforeColon + b);
    BlanksUnique(n.before, c, m.before, d);
    StringUnique(n.pieces, n.beforeColon + a, m.pieces, m.beforeColon + b);
    BlanksUnique(n.beforeColon, a, m.beforeColon, b);
    SameSplit([COLON], n.afterColon + x, [COLON], m.afterColon + y);
    BlanksUnique(n.afterColon, x, m.afterColon, y);
  }

  lemma NameSplit(n: Name, x: Bytes)
    ensures NameText(n) + x == n.before + (StringText(n.pieces) + (n.beforeColon + ([COLON] + (n.afterColon + x))))
  {
    Concat5(n.before, StringText(n.pieces), n.beforeColon, [COLON], n.afterColon + x);
    Concat3(n.before + StringText(n.pieces) + n.beforeColon + [COLON], n.afterColon, x);
  }

  lemma {:induction false} MemberUnique(n: Name, t: Tree, b: Bytes, x: Bytes, n': Name, t': Tree, b': Bytes, x': Bytes)
    requires NameOk(n) && NameOk(n') && TreeOk(t) && TreeOk(t') && AllBlank(b) && AllBlank(b')
    requires AtToken(x) && AtToken(x') && EndsNumber(x) && EndsNumber(x')
    requires NameText(n) + (TreeText(t) + (b + x)) == NameText(n') + (TreeText(t') + (b' + x'))
    ensures n == n' && t == t' && b == b' && x == x'
    decreases t, 2
  {
    TreeStart(t);
    TreeStart(t');
    NameUnique(n, TreeText(t) + (b + x), n', TreeText(t') + (b' + x'));
    BlankEndsNumber(b, x);
    BlankEndsNumber(b', x');
    TreeUnique(t, b + x, t', b' + x');
    BlanksUnique(b, x, b', x');
  }

  lemma {:induction false} MembersUnique(m: Members, r: Bytes, k: Members, s: Bytes)
    requires MembersOk(m) && MembersOk(k) && MembersText(m) + r == MembersText(k) + s
    ensures m == k && r == s
    decreases m, 0
  {
    MemberParts(m, r);
    MemberParts(k, s);
    MemberUnique(m.name, m.tree, m.after, MemberTail(m, r), k.name, k.tree, k.after, MemberTail(k, s));
    assert m.LastMember? <==> MemberTail(m, r)[0] == CLOSE_BRACE;
    assert k.LastMember? <==> MemberTail(k, s)[0] == CLOSE_BRACE;
    assert MemberTail(m, r)[1..] == if m.LastMember? then r else MembersText(m.rest) + r;
    assert MemberTail(k, s)[1..] == if k.LastMember? then s else MembersText(k.rest) + s;
    if m.NextMember? {
      MembersUnique(m.rest, r, k.rest, s);
    }
  }

  /** A text is the text of at most one document. */
  lemma GrammarIsUnambiguous(d: Document, e: Document)
    requires DocumentOk(d) && DocumentOk(e) && DocumentText(d) == DocumentText(e)
    ensures d == e
  {
    var x, y := TreeText(d.tree) + d.after, TreeText(e.tree) + e.after;
    Concat3(d.before, TreeText(d.tree), d.after);
    Concat3(e.before, TreeText(e.tree), e.after);
    TreeStart(d.tree);
    TreeStart(e.tree);
    BlanksUnique(d.before, x, e.before, y);
    BlankEndsNumber(d.after, []);
    BlankEndsNumber(e.after, []);
    assert d.after + [] == d.after && e.after + [] == e.after;
    TreeUnique(d.tree, d.after, e.tree, e.after);
  }
}
