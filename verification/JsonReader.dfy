/** The reader of cpp/src/json.cpp as functions from the unread bytes to the value
    read and the bytes left. The methods of `JsonParser` are proved to compute them. */
module JsonReader {
  import opened ByteText
  import opened Wrappers
  import opened JsonGrammar
  import Utf8

  const MAX_DEPTH: nat := 64

  datatype Read<+T> = Fail | Done(value: T, rest: Bytes)

  // --- Runs of bytes -----------------------------------------------------------

  datatype Class = Blank | Digit | NumberByte

  predicate Is(p: Class, b: byte)
  {
    match p
    case Blank => IsBlank(b)
    case Digit => IsDigit(b)
    case NumberByte => IsNumberByte(b)
  }

  predicate IsNumberByte(b: byte)
  {
    IsDigit(b) || b == POINT || b == LOWER_E || b == UPPER_E || b == PLUS || b == MINUS
  }

  /** What is left after the longest run of bytes of one class. */
  function After(p: Class, s: Bytes): (r: Bytes)
    ensures |r| <= |s|
  {
    if s == [] || !Is(p, s[0]) then s else After(p, s[1..])
  }

  lemma {:induction false} AfterSplits(p: Class, s: Bytes) returns (run: Bytes)
    ensures s == run + After(p, s) && forall i | 0 <= i < |run| :: Is(p, run[i])
    ensures After(p, s) == [] || !Is(p, After(p, s)[0])
  {
    if s == [] || !Is(p, s[0]) {
      run := [];
    } else {
      var more := AfterSplits(p, s[1..]);
      run := [s[0]] + more;
    }
  }

  lemma {:induction false} AfterRun(p: Class, run: Bytes, rest: Bytes)
    requires forall i | 0 <= i < |run| :: Is(p, run[i])
    requires rest == [] || !Is(p, rest[0])
    ensures After(p, run + rest) == rest
  {
    if run == [] {
      assert run + rest == rest;
    } else {
      assert (run + rest)[1..] == run[1..] + rest;
      AfterRun(p, run[1..], rest);
    }
  }

  function SkipBlanks(s: Bytes): (r: Bytes)
    ensures |r| <= |s|
  {
    After(Blank, s)
  }

  // --- Numbers -----------------------------------------------------------------

  /** The bytes of `s` before its suffix `rest`. */
  function Before(s: Bytes, rest: Bytes): Bytes
    requires |rest| <= |s|
  {
    s[..|s| - |rest|]
  }

  /** An exponent, if there is one; an exponent without digits is not read at all. */
  function ReadExponent(s: Bytes): (r: (Option<Exponent>, Bytes))
    ensures |r.1| <= |s|
  {
    if s != [] && (s[0] == LOWER_E || s[0] == UPPER_E) then
      var signed := |s| > 1 && (s[1] == PLUS || s[1] == MINUS);
      var x := if signed then s[2..] else s[1..];
      var rest := After(Digit, x);
      if rest == x then (None, s)
      else (Some(Exponent(s[0], if signed then [s[1]] else [], Before(x, rest))), rest)
    else (None, s)
  }

  function ReadFraction(s: Bytes): (r: (Option<Bytes>, Bytes))
    ensures |r.1| <= |s|
  {
    if s != [] && s[0] == POINT then
      var rest := After(Digit, s[1..]);
      (Some(Before(s[1..], rest)), rest)
    else (None, s)
  }

  function ReadMagnitude(minus: bool, s: Bytes): (r: Read<Decimal>)
    ensures r.Done? ==> |r.rest| <= |s|
  {
    var afterWhole := After(Digit, s);
    var whole := Before(s, afterWhole);
    var fraction := ReadFraction(afterWhole);
    if whole == [] && FractionDigits(fraction.0) == [] then Fail
    else
      var exponent := ReadExponent(fraction.1);
      Done(Decimal(minus, whole, fraction.0, exponent.0), exponent.1)
  }

  /** What `std::from_chars` reads of a decimal number, and what it leaves unread. */
  function FromChars(s: Bytes): (r: Read<Decimal>)
    ensures r.Done? ==> |r.rest| <= |s|
  {
    if s != [] && s[0] == MINUS then ReadMagnitude(true, s[1..]) else ReadMagnitude(false, s)
  }

  function ReadNumber(s: Bytes): (r: Read<Value>)
    ensures r.Done? ==> |r.rest| < |s|
  {
    var rest := After(NumberByte, s);
    var token := Before(s, rest);
    if token == [] then Fail
    else
      var number := FromChars(token);
      if number.Fail? || number.rest != [] then Fail else Done(Number(number.value), rest)
  }

  // --- Strings -----------------------------------------------------------------

  /** Four hexadecimal digits. */
  function ReadHexQuad(s: Bytes): (r: Read<nat>)
    ensures r.Done? ==> r.value <= 0xFFFF && |s| >= 4 && r.rest == s[4..]
  {
    if |s| >= 4 && IsHexDigit(s[0]) && IsHexDigit(s[1]) && IsHexDigit(s[2]) && IsHexDigit(s[3]) then
      Done(QuadValue(s[0], s[1], s[2], s[3]), s[4..])
    else Fail
  }

  predicate StartsUnit(s: Bytes) { |s| >= 2 && s[0] == BACKSLASH && s[1] == LOWER_U }

  /** The rest of an escape after its "\u". */
  function ReadUnicodeEscape(s: Bytes): (r: Read<Bytes>)
    ensures r.Done? ==> |r.rest| < |s|
  {
    match ReadHexQuad(s)
    case Fail => Fail
    case Done(u, rest) =>
      if Utf8.IsHighSurrogate(u) && StartsUnit(rest) then
        match ReadHexQuad(rest[2..])
        case Done(low, after) =>
          if Utf8.IsLowSurrogate(low) then Done(Utf8.Encode(Utf8.Combine(u, low)), after)
          else Done(Utf8.Encode(Utf8.REPLACEMENT), rest)
        case Fail => Done(Utf8.Encode(Utf8.REPLACEMENT), rest)
      else if Utf8.IsHighSurrogate(u) || Utf8.IsLowSurrogate(u) then Done(Utf8.Encode(Utf8.REPLACEMENT), rest)
      else Done(Utf8.Encode(u), rest)
  }

  /** The rest of an escape after its backslash. */
  function ReadEscape(s: Bytes): (r: Read<Bytes>)
    ensures r.Done? ==> |r.rest| < |s|
  {
    if s == [] then Fail
    else if s[0] == LOWER_U then ReadUnicodeEscape(s[1..])
    else if IsSimpleEscape(s[0]) then Done([SimpleEscapeValue(s[0])], s[1..])
    else Fail
  }

  function Prepend(a: Bytes, r: Read<Bytes>): Read<Bytes>
  {
    match r case Fail => Fail case Done(v, rest) => Done(a + v, rest)
  }

  /** The rest of a string after its opening quote. */
  function ReadChars(s: Bytes): (r: Read<Bytes>)
    ensures r.Done? ==> |r.rest| < |s|
    decreases |s|
  {
    if s == [] then Fail
    else if s[0] == QUOTE then Done([], s[1..])
    else if s[0] == BACKSLASH then
      match ReadEscape(s[1..])
      case Fail => Fail
      case Done(v, rest) => Prepend(v, ReadChars(rest))
    else if s[0] < 0x20 then Fail
    else Prepend([s[0]], ReadChars(s[1..]))
  }

  function ReadString(s: Bytes): (r: Read<Bytes>)
    ensures r.Done? ==> |r.rest| < |s|
  {
    if s == [] || s[0] != QUOTE then Fail else ReadChars(s[1..])
  }

  // --- Values ------------------------------------------------------------------

  function ReadLiteral(s: Bytes, literal: Bytes, v: Value): (r: Read<Value>)
    requires literal != []
    ensures r.Done? ==> |r.rest| < |s|
  {
    if literal <= s then Done(v, s[|literal|..]) else Fail
  }

  function ReadValue(s: Bytes, depth: nat): (r: Read<Value>)
    ensures r.Done? ==> |r.rest| < |s|
    decreases |s|, 1
  {
    if depth > MAX_DEPTH || s == [] then Fail
    else if s[0] == OPEN_BRACE then
      var inside := SkipBlanks(s[1..]);
      if inside != [] && inside[0] == CLOSE_BRACE then Done(Object(map[]), inside[1..])
      else ReadMembers(inside, depth, map[])
    else if s[0] == OPEN_BRACKET then
      var inside := SkipBlanks(s[1..]);
      if inside != [] && inside[0] == CLOSE_BRACKET then Done(Array([]), inside[1..])
      else ReadItems(inside, depth, [])
    else if s[0] == QUOTE then
      match ReadString(s) case Fail => Fail case Done(text, rest) => Done(Text(text), rest)
    else if s[0] == LOWER_T then ReadLiteral(s, TRUE_TEXT, Bool(true))
    else if s[0] == LOWER_F then ReadLiteral(s, FALSE_TEXT, Bool(false))
    else if s[0] == LOWER_N then ReadLiteral(s, NULL_TEXT, Null)
    else ReadNumber(s)
  }

  /** A member's name, its colon and the blanks around both. */
  function ReadName(s: Bytes): (r: Read<Bytes>)
    ensures r.Done? ==> |r.rest| < |s|
  {
    match ReadString(SkipBlanks(s))
    case Fail => Fail
    case Done(key, rest) =>
      var colon := SkipBlanks(rest);
      if colon != [] && colon[0] == COLON then Done(key, SkipBlanks(colon[1..])) else Fail
  }

  /** The rest of an object that has read `seen` and expects a member. */
  function ReadMembers(s: Bytes, depth: nat, seen: map<Bytes, Value>): (r: Read<Value>)
    ensures r.Done? ==> |r.rest| < |s|
    decreases |s|, 0
  {
    match ReadName(s)
    case Fail => Fail
    case Done(key, rest) =>
      match ReadValue(rest, depth + 1)
      case Fail => Fail
      case Done(v, after) =>
        var next := SkipBlanks(after);
        if next != [] && next[0] == COMMA then ReadMembers(next[1..], depth, seen[key := v])
        else if next != [] && next[0] == CLOSE_BRACE then Done(Object(seen[key := v]), next[1..])
        else Fail
  }

  /** The rest of an array that has read `seen` and expects an element. */
  function ReadItems(s: Bytes, depth: nat, seen: seq<Value>): (r: Read<Value>)
    ensures r.Done? ==> |r.rest| < |s|
    decreases |s|, 2
  {
    match ReadValue(SkipBlanks(s), depth + 1)
    case Fail => Fail
    case Done(v, after) =>
      var next := SkipBlanks(after);
      if next != [] && next[0] == COMMA then ReadItems(next[1..], depth, seen + [v])
      else if next != [] && next[0] == CLOSE_BRACKET then Done(Array(seen + [v]), next[1..])
      else Fail
  }

  /** The object that results from assigning the bindings `bs` in order. */
  function Assign(seen: map<Bytes, Value>, bs: seq<(Bytes, Value)>): map<Bytes, Value>
    decreases |bs|
  {
    if bs == [] then seen else Assign(seen[bs[0].0 := bs[0].1], bs[1..])
  }

  /** Assigning in order leaves the last binding of each name. */
  lemma {:induction false} AssignKeepsLast(seen: seq<(Bytes, Value)>, bs: seq<(Bytes, Value)>)
    ensures Assign(LastBindings(seen), bs) == LastBindings(seen + bs)
    decreases |bs|
  {
    if bs == [] {
      assert seen + bs == seen;
    } else {
      LastBindingsExtend(seen, bs[0].0, bs[0].1);
      AssignKeepsLast(seen + [bs[0]], bs[1..]);
      assert seen + [bs[0]] + bs[1..] == seen + bs;
    }
  }

  lemma AssignIsLastBindings(bs: seq<(Bytes, Value)>)
    ensures Assign(map[], bs) == LastBindings(bs)
  {
    assert LastBindings([]) == map[];
    AssignKeepsLast([], bs);
    assert [] + bs == bs;
  }

  /** A whole document: one value and nothing but blanks around it. */
  function Parse(text: Bytes): Option<Value>
  {
    match ReadValue(SkipBlanks(text), 0)
    case Fail => None
    case Done(v, rest) => if SkipBlanks(rest) == [] then Some(v) else None
  }
}
