/** The JSON grammar of RFC 8259, sections 2 to 7, as syntax trees: what a tree
    spells and what it denotes. Two productions are wider than the RFC's, because
    the reader's are: a number may be any decimal `std::from_chars` reads, and an
    unescaped octet above 0x7F need not belong to a UTF-8 character. */
module JsonGrammar {
  import opened ByteText
  import opened Wrappers
  import Utf8

  /** A JSON value. A number is kept as the decimal it was written as: which double
      that rounds to is left open here. */
  datatype Value =
    | Null
    | Bool(flag: bool)
    | Number(decimal: Decimal)
    | Text(bytes: Bytes)
    | Array(items: seq<Value>)
    | Object(members: map<Bytes, Value>)

  // --- Strings (section 7) -----------------------------------------------------

  datatype Piece =
    | Raw(b: byte)
    | Simple(letter: byte)
    | Unit(h0: byte, h1: byte, h2: byte, h3: byte)

  predicate IsRaw(b: byte) { 0x20 <= b && b != QUOTE && b != BACKSLASH }

  predicate IsSimpleEscape(letter: byte)
  {
    letter == QUOTE || letter == BACKSLASH || letter == SLASH || letter == LOWER_B || letter == LOWER_F
    || letter == LOWER_N || letter == LOWER_R || letter == LOWER_T
  }

  function SimpleEscapeValue(letter: byte): (b: byte)
    requires IsSimpleEscape(letter)
    ensures b < 0x80
  {
    if letter == LOWER_B then 0x08
    else if letter == LOWER_F then 0x0C
    else if letter == LOWER_N then LINE_FEED
    else if letter == LOWER_R then CARRIAGE_RETURN
    else if letter == LOWER_T then TAB
    else letter
  }

  predicate PieceOk(p: Piece)
  {
    match p
    case Raw(b) => IsRaw(b)
    case Simple(letter) => IsSimpleEscape(letter)
    case Unit(h0, h1, h2, h3) => IsHexDigit(h0) && IsHexDigit(h1) && IsHexDigit(h2) && IsHexDigit(h3)
  }

  predicate PiecesOk(ps: seq<Piece>) { forall i | 0 <= i < |ps| :: PieceOk(ps[i]) }

  function PieceText(p: Piece): (s: Bytes)
    ensures s != []
  {
    match p
    case Raw(b) => [b]
    case Simple(letter) => [BACKSLASH, letter]
    case Unit(h0, h1, h2, h3) => [BACKSLASH, LOWER_U, h0, h1, h2, h3]
  }

  function PiecesText(ps: seq<Piece>): Bytes
  {
    if ps == [] then [] else PieceText(ps[0]) + PiecesText(ps[1..])
  }

  function StringText(ps: seq<Piece>): Bytes { [QUOTE] + PiecesText(ps) + [QUOTE] }

  function QuadValue(h0: byte, h1: byte, h2: byte, h3: byte): (u: nat)
    requires IsHexDigit(h0) && IsHexDigit(h1) && IsHexDigit(h2) && IsHexDigit(h3)
    ensures u <= 0xFFFF
  {
    HexDigitValue(h0) * 0x1000 + HexDigitValue(h1) * 0x100 + HexDigitValue(h2) * 0x10 + HexDigitValue(h3)
  }

  function UnitValue(p: Piece): (u: nat)
    requires p.Unit? && PieceOk(p)
    ensures u <= 0xFFFF
  {
    QuadValue(p.h0, p.h1, p.h2, p.h3)
  }

  predicate IsHigh(p: Piece) { p.Unit? && PieceOk(p) && Utf8.IsHighSurrogate(UnitValue(p)) }

  predicate IsLow(p: Piece) { p.Unit? && PieceOk(p) && Utf8.IsLowSurrogate(UnitValue(p)) }

  /** A code unit on its own: a scalar value stands for itself, an unpaired
      surrogate for the replacement character. */
  function LoneUnit(u: nat): (c: nat)
    requires u <= 0xFFFF
    ensures Utf8.IsScalar(c)
  {
    if Utf8.IsScalar(u) then u else Utf8.REPLACEMENT
  }

  /** The octets a string denotes. A high surrogate directly followed by a low one
      is one supplementary character. */
  function Meaning(ps: seq<Piece>): Bytes
    requires PiecesOk(ps)
    decreases |ps|
  {
    if ps == [] then []
    else match ps[0]
      case Raw(b) => [b] + Meaning(ps[1..])
      case Simple(letter) => [SimpleEscapeValue(letter)] + Meaning(ps[1..])
      case Unit(_, _, _, _) =>
        if IsHigh(ps[0]) && |ps| > 1 && IsLow(ps[1]) then
          Utf8.Encode(Utf8.Combine(UnitValue(ps[0]), UnitValue(ps[1]))) + Meaning(ps[2..])
        else
          Utf8.Encode(LoneUnit(UnitValue(ps[0]))) + Meaning(ps[1..])
  }

  // --- Numbers (section 6, widened) ----------------------------------------------

  datatype Exponent = Exponent(e: byte, sign: Bytes, digits: Bytes)

  datatype Decimal = Decimal(minus: bool, whole: Bytes, fraction: Option<Bytes>, exponent: Option<Exponent>)

  predicate ExponentOk(x: Exponent)
  {
    && (x.e == LOWER_E || x.e == UPPER_E)
    && (x.sign == [] || x.sign == [PLUS] || x.sign == [MINUS])
    && x.digits != [] && AllDigits(x.digits)
  }

  function FractionDigits(f: Option<Bytes>): Bytes { if f.Some? then f.value else [] }

  /** The decimals `from_chars` reads: digits around an optional point, at least one
      digit in all, and an optional exponent. */
  predicate DecimalOk(d: Decimal)
  {
    && AllDigits(d.whole)
    && AllDigits(FractionDigits(d.fraction))
    && |d.whole| + |FractionDigits(d.fraction)| > 0
    && (d.exponent.Some? ==> ExponentOk(d.exponent.value))
  }

  /** The decimals of RFC 8259, section 6: no leading zero, digits on both sides of a point. */
  predicate RfcDecimal(d: Decimal)
  {
    && DecimalOk(d)
    && d.whole != [] && (d.whole[0] == 0x30 ==> |d.whole| == 1)
    && d.fraction != Some([])
  }

  function FractionText(f: Option<Bytes>): Bytes { if f.Some? then [POINT] + f.value else [] }

  function ExponentText(x: Option<Exponent>): Bytes
  {
    if x.Some? then [x.value.e] + x.value.sign + x.value.digits else []
  }

  function SignText(minus: bool): Bytes { if minus then [MINUS] else [] }

  function DecimalText(d: Decimal): Bytes
  {
    SignText(d.minus) + d.whole + FractionText(d.fraction) + ExponentText(d.exponent)
  }

  // --- Values, objects and arrays (sections 2 to 5) --------------------------------

  datatype Tree =
    | NullTree
    | BoolTree(flag: bool)
    | NumberTree(decimal: Decimal)
    | StringTree(pieces: seq<Piece>)
    | EmptyArrayTree(blank: Bytes)
    | ArrayTree(items: Items)
    | EmptyObjectTree(blank: Bytes)
    | ObjectTree(members: Members)

  datatype Items =
    | LastItem(before: Bytes, tree: Tree, after: Bytes)
    | NextItem(before: Bytes, tree: Tree, after: Bytes, rest: Items)

  datatype Members =
    | LastMember(name: Name, tree: Tree, after: Bytes)
    | NextMember(name: Name, tree: Tree, after: Bytes, rest: Members)

  /** A member's name with its colon and the blanks around both. */
  datatype Name = Name(before: Bytes, pieces: seq<Piece>, beforeColon: Bytes, afterColon: Bytes)

  predicate NameOk(n: Name)
  {
    AllBlank(n.before) && PiecesOk(n.pieces) && AllBlank(n.beforeColon) && AllBlank(n.afterColon)
  }

  predicate TreeOk(t: Tree)
  {
    match t
    case NullTree => true
    case BoolTree(_) => true
    case NumberTree(d) => DecimalOk(d)
    case StringTree(ps) => PiecesOk(ps)
    case EmptyArrayTree(blank) => AllBlank(blank)
    case ArrayTree(items) => ItemsOk(items)
    case EmptyObjectTree(blank) => AllBlank(blank)
    case ObjectTree(members) => MembersOk(members)
  }

  predicate ItemsOk(i: Items)
  {
    && AllBlank(i.before) && TreeOk(i.tree) && AllBlank(i.after)
    && (i.NextItem? ==> ItemsOk(i.rest))
  }

  predicate MembersOk(m: Members)
  {
    && NameOk(m.name) && TreeOk(m.tree) && AllBlank(m.after)
    && (m.NextMember? ==> MembersOk(m.rest))
  }

  function NameText(n: Name): Bytes
  {
    n.before + StringText(n.pieces) + n.beforeColon + [COLON] + n.afterColon
  }

  function TreeText(t: Tree): Bytes
  {
    match t
    case NullTree => NULL_TEXT
    case BoolTree(flag) => if flag then TRUE_TEXT else FALSE_TEXT
    case NumberTree(d) => DecimalText(d)
    case StringTree(ps) => StringText(ps)
    case EmptyArrayTree(blank) => [OPEN_BRACKET] + blank + [CLOSE_BRACKET]
    case ArrayTree(items) => [OPEN_BRACKET] + ItemsText(items)
    case EmptyObjectTree(blank) => [OPEN_BRACE] + blank + [CLOSE_BRACE]
    case ObjectTree(members) => [OPEN_BRACE] + MembersText(members)
  }

  function ItemsText(i: Items): Bytes
  {
    i.before + TreeText(i.tree) + i.after + (if i.LastItem? then [CLOSE_BRACKET] else [COMMA] + ItemsText(i.rest))
  }

  function MembersText(m: Members): Bytes
  {
    NameText(m.name) + TreeText(m.tree) + m.after
    + (if m.LastMember? then [CLOSE_BRACE] else [COMMA] + MembersText(m.rest))
  }

  function TreeValue(t: Tree): Value
    requires TreeOk(t)
  {
    match t
    case NullTree => Null
    case BoolTree(flag) => Bool(flag)
    case NumberTree(d) => Number(d)
    case StringTree(ps) => Text(Meaning(ps))
    case EmptyArrayTree(_) => Array([])
    case ArrayTree(items) => Array(ItemsValue(items))
    case EmptyObjectTree(_) => Object(map[])
    case ObjectTree(members) => Object(LastBindings(Bindings(members)))
  }

  function ItemsValue(i: Items): seq<Value>
    requires ItemsOk(i)
  {
    [TreeValue(i.tree)] + (if i.LastItem? then [] else ItemsValue(i.rest))
  }

  /** The members of an object in the order they are written. */
  function Bindings(m: Members): seq<(Bytes, Value)>
    requires MembersOk(m)
  {
    [(Meaning(m.name.pieces), TreeValue(m.tree))] + (if m.LastMember? then [] else Bindings(m.rest))
  }

  function Names(bs: seq<(Bytes, Value)>): set<Bytes> { set i | 0 <= i < |bs| :: bs[i].0 }

  /** The value of the last binding of `k`. */
  function LastOf(bs: seq<(Bytes, Value)>, k: Bytes): (v: Value)
    requires k in Names(bs)
    ensures exists i :: 0 <= i < |bs| && bs[i] == (k, v) && forall j | i < j < |bs| :: bs[j].0 != k
  {
    var last := |bs| - 1;
    if bs[last].0 == k then bs[last].1
    else
      var before := bs[..last];
      assert forall i | 0 <= i < last :: before[i] == bs[i];
      LastOf(before, k)
  }

  /** Of several members with one name the last wins. */
  function LastBindings(bs: seq<(Bytes, Value)>): map<Bytes, Value>
  {
    map k | k in Names(bs) :: LastOf(bs, k)
  }

  lemma LastBindingsExtend(bs: seq<(Bytes, Value)>, k: Bytes, v: Value)
    ensures LastBindings(bs + [(k, v)]) == LastBindings(bs)[k := v]
  {
    var more := bs + [(k, v)];
    assert more[..|bs|] == bs;
    assert Names(more) == Names(bs) + {k} by {
      forall i | 0 <= i < |bs| ensures bs[i].0 in Names(more) { assert more[i].0 == bs[i].0; }
      assert more[|bs|].0 == k;
    }
  }

  /** How many containers enclose the deepest value. */
  function Height(t: Tree): nat
  {
    match t
    case ArrayTree(items) => 1 + ItemsHeight(items)
    case ObjectTree(members) => 1 + MembersHeight(members)
    case _ => 0
  }

  function ItemsHeight(i: Items): nat
  {
    var rest := if i.LastItem? then 0 else ItemsHeight(i.rest);
    if Height(i.tree) < rest then rest else Height(i.tree)
  }

  function MembersHeight(m: Members): nat
  {
    var rest := if m.LastMember? then 0 else MembersHeight(m.rest);
    if Height(m.tree) < rest then rest else Height(m.tree)
  }

  /** JSON-text = ws value ws. */
  datatype Document = Document(before: Bytes, tree: Tree, after: Bytes)

  predicate DocumentOk(d: Document) { AllBlank(d.before) && TreeOk(d.tree) && AllBlank(d.after) }

  function DocumentText(d: Document): Bytes { d.before + TreeText(d.tree) + d.after }

  /** The grammar derives `v` from `text`, with no value below `depth` containers. */
  ghost predicate Derives(text: Bytes, v: Value, depth: nat)
  {
    exists d: Document ::
      DocumentOk(d) && DocumentText(d) == text && TreeValue(d.tree) == v && Height(d.tree) <= depth
  }

  // --- The RFC's own texts ---------------------------------------------------------

  /** Every number in it is a number of the RFC. */
  predicate RfcTree(t: Tree)
  {
    match t
    case NumberTree(d) => RfcDecimal(d)
    case ArrayTree(items) => RfcItems(items)
    case ObjectTree(members) => RfcMembers(members)
    case _ => true
  }

  predicate RfcItems(i: Items) { RfcTree(i.tree) && (i.NextItem? ==> RfcItems(i.rest)) }

  predicate RfcMembers(m: Members) { RfcTree(m.tree) && (m.NextMember? ==> RfcMembers(m.rest)) }

  /** JSON text of RFC 8259: sections 2 to 7 with the numbers of section 6, in the UTF-8
      of section 8.1. */
  ghost predicate IsRfcText(text: Bytes)
  {
    Utf8.IsUtf8(text) && exists d: Document :: DocumentOk(d) && DocumentText(d) == text && RfcTree(d.tree)
  }
}
