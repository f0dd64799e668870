/** The reader as cpp/src/json.cpp writes it: one pass that moves a position over
    the text. Every method computes the function of `JsonReader` it is named after. */
module JsonParser {
  import opened ByteText
  import opened Wrappers
  import opened JsonGrammar
  import opened JsonReader
  import Utf8

  /** What a method returned and left unread is what the function says. */
  ghost predicate Agrees<T>(r: Option<T>, unread: Bytes, spec: Read<T>)
  {
    match r case None => spec.Fail? case Some(v) => spec == Done(v, unread)
  }

  datatype CharStep = Closed | Failed | More

  lemma Drop(s: Bytes, i: nat, n: nat)
    requires i + n <= |s|
    ensures s[i..][n..] == s[i + n..]
  {
  }

  lemma SliceIsPrefix(s: Bytes, i: nat, literal: Bytes)
    requires i <= |s|
    ensures literal <= s[i..] <==> i + |literal| <= |s| && s[i..i + |literal|] == literal
  {
    if i + |literal| <= |s| {
      assert s[i..i + |literal|] == s[i..][..|literal|];
    }
  }

  class Parser {
    const text: Bytes
    var position: nat

    ghost predicate Valid() reads this { position <= |text| }

    ghost function Unread(): Bytes
      reads this
      requires Valid()
    {
      text[position..]
    }

    constructor (text: Bytes)
      ensures Valid() && this.text == text && Unread() == text
    {
      this.text := text;
      position := 0;
    }

    method ParseDocument() returns (r: Option<Value>)
      requires Valid() && position == 0
      modifies this
      ensures r == Parse(text)
    {
      assert Unread() == text;
      SkipWhitespace();
      r := ParseValue(0);
      if r.None? {
        return None;
      }
      SkipWhitespace();
      r := if position == |text| then r else None;
    }

    method ParseValue(depth: nat) returns (r: Option<Value>)
      requires Valid() && depth <= MAX_DEPTH + 1
      modifies this
      ensures Valid() && Agrees(r, Unread(), ReadValue(old(Unread()), depth))
      decreases |text| - position, 1
    {
      if depth > MAX_DEPTH || position >= |text| {
        return None;
      }
      var b := text[position];
      if b == OPEN_BRACE {
        r := ParseObject(depth);
      } else if b == OPEN_BRACKET {
        r := ParseArray(depth);
      } else if b == QUOTE {
        var s := ParseString();
        r := if s.Some? then Some(Text(s.value)) else None;
      } else if b == LOWER_T {
        r := ParseLiteral(TRUE_TEXT, Bool(true));
      } else if b == LOWER_F {
        r := ParseLiteral(FALSE_TEXT, Bool(false));
      } else if b == LOWER_N {
        r := ParseLiteral(NULL_TEXT, Null);
      } else {
        r := ParseNumber();
      }
    }

    method ParseLiteral(literal: Bytes, v: Value) returns (r: Option<Value>)
      requires Valid() && literal != []
      modifies this
      ensures Valid() && Agrees(r, Unread(), ReadLiteral(old(Unread()), literal, v))
    {
      SliceIsPrefix(text, position, literal);
      if position + |literal| > |text| || text[position..position + |literal|] != literal {
        return None;
      }
      Drop(text, position, |literal|);
      position := position + |literal|;
      r := Some(v);
    }

    method ParseNumber() returns (r: Option<Value>)
      requires Valid()
      modifies this
      ensures Valid() && Agrees(r, Unread(), ReadNumber(old(Unread())))
    {
      var start := position;
      SkipNumberBytes();
      var token := text[start..position];
      Slice(text, start, position);
      if position == start {
        return None;
      }
      var number := FromChars(token);
      if number.Fail? || number.rest != [] {
        return None;
      }
      r := Some(Number(number.value));
    }

    /** The two loops of ParseNumber: a sign, then every byte a number may hold. */
    method SkipNumberBytes()
      requires Valid()
      modifies this
      ensures Valid() && position >= old(position) && Unread() == After(NumberByte, old(Unread()))
    {
      if position < |text| && text[position] == MINUS {
        Drop(text, position, 1);
        position := position + 1;
      }
      while position < |text| && IsNumberByte(text[position])
        invariant old(position) <= position <= |text|
        invariant After(NumberByte, Unread()) == After(NumberByte, old(Unread()))
      {
        Drop(text, position, 1);
        position := position + 1;
      }
    }

    method ParseString() returns (r: Option<Bytes>)
      requires Valid()
      modifies this
      ensures Valid() && Agrees(r, Unread(), ReadString(old(Unread())))
    {
      if position >= |text| || text[position] != QUOTE {
        return None;
      }
      Drop(text, position, 1);
      position := position + 1;
      var out: Bytes := [];
      PrependNothing(ReadChars(Unread()));
      ghost var spec := ReadString(old(Unread()));
      while position < |text|
        invariant Valid() && spec == Prepend(out, ReadChars(Unread()))
        decreases |text| - position
      {
        var step, more := ParseChar(out);
        match step
        case Closed => return Some(out);
        case Failed => return None;
        case More => out := more;
      }
      r := None;
    }

    /** One turn of ParseString's loop. */
    method ParseChar(out: Bytes) returns (step: CharStep, more: Bytes)
      requires Valid() && position < |text|
      modifies this
      ensures Valid() && position > old(position)
      ensures var spec := Prepend(out, ReadChars(old(Unread())));
              match step
              case Closed => spec == Done(out, Unread())
              case Failed => spec == Fail
              case More => spec == Prepend(more, ReadChars(Unread()))
    {
      more := out;
      var b := text[position];
      Drop(text, position, 1);
      position := position + 1;
      if b == QUOTE {
        assert out + [] == out;
        step := Closed;
      } else if b != BACKSLASH {
        if b < 0x20 {
          return Failed, out;
        }
        PrependTwice(out, [b], ReadChars(Unread()));
        step, more := More, out + [b];
      } else {
        ghost var escape := ReadEscape(Unread());
        var ok;
        ok, more := ParseEscape(out);
        if ok {
          PrependTwice(out, escape.value, ReadChars(Unread()));
        }
        step := if ok then More else Failed;
      }
    }

    /** Extends `out`, or leaves the parser failed. */
    method ParseEscape(out: Bytes) returns (ok: bool, more: Bytes)
      requires Valid()
      modifies this
      ensures Valid() && position >= old(position)
      ensures ok <==> ReadEscape(old(Unread())).Done?
      ensures ok ==> more == out + ReadEscape(old(Unread())).value && Unread() == ReadEscape(old(Unread())).rest
      ensures ok ==> position > old(position)
    {
      more := out;
      if position >= |text| {
        return false, out;
      }
      var escape := text[position];
      Drop(text, position, 1);
      position := position + 1;
      if escape == LOWER_U {
        ok, more := ParseUnicodeEscape(out);
      } else if IsSimpleEscape(escape) {
        ok, more := true, out + [SimpleEscapeValue(escape)];
      } else {
        ok := false;
      }
    }

    method ParseUnicodeEscape(out: Bytes) returns (ok: bool, more: Bytes)
      requires Valid()
      modifies this
      ensures Valid() && position >= old(position)
      ensures ok <==> ReadUnicodeEscape(old(Unread())).Done?
      ensures ok ==> more == out + ReadUnicodeEscape(old(Unread())).value
      ensures ok ==> Unread() == ReadUnicodeEscape(old(Unread())).rest
    {
      var first := ParseHexQuad();
      if first.None? {
        return false, out;
      }
      var codePoint := first.value;
      if Utf8.IsHighSurrogate(codePoint) && position + 2 <= |text|
         && text[position..position + 2] == [BACKSLASH, LOWER_U] {
        assert StartsUnit(Unread()) by { assert text[position..position + 2] == Unread()[..2]; }
        var saved := position;
        Drop(text, position, 2);
        position := position + 2;
        var low := ParseHexQuad();
        if low.Some? && Utf8.IsLowSurrogate(low.value) {
          codePoint := Utf8.Combine(codePoint, low.value);
        } else {
          position := saved;
          codePoint := Utf8.REPLACEMENT;
        }
      } else {
        assert Utf8.IsHighSurrogate(codePoint) && StartsUnit(Unread()) ==> false by {
          if StartsUnit(Unread()) {
            assert text[position..position + 2] == Unread()[..2];
          }
        }
        if Utf8.IsHighSurrogate(codePoint) || Utf8.IsLowSurrogate(codePoint) {
          codePoint := Utf8.REPLACEMENT;
        }
      }
      assert Utf8.IsScalar(codePoint);
      ok, more := true, AppendUtf8(out, codePoint);
    }

    /** Only scalar values are ever encoded. */
    static function AppendUtf8(out: Bytes, codePoint: nat): (more: Bytes)
      requires Utf8.IsScalar(codePoint)
      ensures Utf8.IsUtf8(out) ==> Utf8.IsUtf8(more)
    {
      Utf8.AppendKeepsUtf8(out, codePoint);
      out + Utf8.Encode(codePoint)
    }

    method ParseHexQuad() returns (r: Option<nat>)
      requires Valid()
      modifies this
      ensures Valid() && position == old(position) + (if r.Some? then 4 else 0)
      ensures Agrees(r, Unread(), ReadHexQuad(old(Unread())))
    {
      if position + 4 > |text| {
        return None;
      }
      var q := text[position..position + 4];
      assert q == Unread()[..4];
      assert forall i | 0 <= i < 4 :: q[i] == Unread()[i];
      if !(IsHexDigit(q[0]) && IsHexDigit(q[1]) && IsHexDigit(q[2]) && IsHexDigit(q[3])) {
        return None;
      }
      Drop(text, position, 4);
      position := position + 4;
      r := Some(QuadValue(q[0], q[1], q[2], q[3]));
    }

    method ParseObject(depth: nat) returns (r: Option<Value>)
      requires Valid() && depth <= MAX_DEPTH && position < |text| && text[position] == OPEN_BRACE
      modifies this
      ensures Valid() && Agrees(r, Unread(), ReadValue(old(Unread()), depth))
      decreases |text| - position, 0
    {
      Drop(text, position, 1);
      position := position + 1;
      SkipWhitespace();
      var done := Consume(CLOSE_BRACE);
      if done {
        return Some(Object(map[]));
      }
      r := ParseMembers(depth);
    }

    /** The loop of ParseObject. */
    method ParseMembers(depth: nat) returns (r: Option<Value>)
      requires Valid() && depth <= MAX_DEPTH
      modifies this
      ensures Valid() && Agrees(r, Unread(), ReadMembers(old(Unread()), depth, map[]))
      decreases |text| - position, 3
    {
      var members: map<Bytes, Value> := map[];
      while true
        invariant Valid() && position >= old(position)
        invariant ReadMembers(old(Unread()), depth, map[]) == ReadMembers(Unread(), depth, members)
        decreases |text| - position
      {
        ghost var start := Unread();
        var key := ParseName();
        if key.None? {
          return None;
        }
        var v := ParseValue(depth + 1);
        if v.None? {
          return None;
        }
        assert |Unread()| < |start|;
        members := members[key.value := v.value];
        SkipWhitespace();
        var comma := Consume(COMMA);
        if !comma {
          var close := Consume(CLOSE_BRACE);
          return if close then Some(Object(members)) else None;
        }
      }
    }

    /** The head of a member: its name, the colon and the blanks around both. */
    method ParseName() returns (key: Option<Bytes>)
      requires Valid()
      modifies this
      ensures Valid() && Agrees(key, Unread(), ReadName(old(Unread())))
    {
      SkipWhitespace();
      key := ParseString();
      if key.None? {
        return;
      }
      SkipWhitespace();
      var colon := Consume(COLON);
      if !colon {
        return None;
      }
      SkipWhitespace();
    }

    method ParseArray(depth: nat) returns (r: Option<Value>)
      requires Valid() && depth <= MAX_DEPTH && position < |text| && text[position] == OPEN_BRACKET
      modifies this
      ensures Valid() && Agrees(r, Unread(), ReadValue(old(Unread()), depth))
      decreases |text| - position, 0
    {
      Drop(text, position, 1);
      position := position + 1;
      SkipWhitespace();
      var done := Consume(CLOSE_BRACKET);
      if done {
        return Some(Array([]));
      }
      r := ParseItems(depth);
    }

    /** The loop of ParseArray. */
    method ParseItems(depth: nat) returns (r: Option<Value>)
      requires Valid() && depth <= MAX_DEPTH
      modifies this
      ensures Valid() && Agrees(r, Unread(), ReadItems(old(Unread()), depth, []))
      decreases |text| - position, 3
    {
      var items: seq<Value> := [];
      while true
        invariant Valid() && position >= old(position)
        invariant ReadItems(old(Unread()), depth, []) == ReadItems(Unread(), depth, items)
        decreases |text| - position
      {
        ghost var start := Unread();
        var v := ParseItem(depth + 1);
        if v.None? {
          return None;
        }
        assert |Unread()| < |start|;
        items := items + [v.value];
        SkipWhitespace();
        var comma := Consume(COMMA);
        if !comma {
          var close := Consume(CLOSE_BRACKET);
          return if close then Some(Array(items)) else None;
        }
      }
    }

    /** The blanks before an element, and the element. */
    method ParseItem(depth: nat) returns (r: Option<Value>)
      requires Valid() && depth <= MAX_DEPTH + 1
      modifies this
      ensures Valid() && Agrees(r, Unread(), ReadValue(SkipBlanks(old(Unread())), depth))
      decreases |text| - position, 2
    {
      SkipWhitespace();
      r := ParseValue(depth);
    }

    method Consume(expected: byte) returns (ok: bool)
      requires Valid()
      modifies this
      ensures Valid() && (ok <==> old(Unread()) != [] && old(Unread())[0] == expected)
      ensures Unread() == if ok then old(Unread())[1..] else old(Unread())
    {
      ok := position < |text| && text[position] == expected;
      if ok {
        Drop(text, position, 1);
        position := position + 1;
      }
    }

    method SkipWhitespace()
      requires Valid()
      modifies this
      ensures Valid() && Unread() == SkipBlanks(old(Unread()))
    {
      while position < |text| && IsBlank(text[position])
        invariant Valid() && SkipBlanks(Unread()) == SkipBlanks(old(Unread()))
      {
        Drop(text, position, 1);
        position := position + 1;
      }
    }
  }

  lemma PrependNothing(r: Read<Bytes>)
    ensures Prepend([], r) == r
  {
    if r.Done? {
      assert [] + r.value == r.value;
    }
  }

  lemma PrependTwice(a: Bytes, b: Bytes, r: Read<Bytes>)
    ensures Prepend(a, Prepend(b, r)) == Prepend(a + b, r)
  {
    if r.Done? {
      assert a + (b + r.value) == a + b + r.value;
    }
  }

  lemma Slice(s: Bytes, i: nat, j: nat)
    requires i <= j <= |s|
    ensures s[i..j] == s[i..][..j - i]
  {
  }

  /** The library's entry point. */
  method ParseText(text: Bytes) returns (r: Option<Value>)
    ensures r == Parse(text)
  {
    var parser := new Parser(text);
    r := parser.ParseDocument();
  }
}
