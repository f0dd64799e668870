/** The number production of RFC 8259, section 6, octet by octet. */
module RfcNumber {
  import opened ByteText
  import opened Wrappers
  import opened JsonGrammar

  /** How far into a number: behind nothing, its minus, a leading zero, other integer
      digits, the point, fraction digits, the "e", its sign, exponent digits, or off. */
  datatype Place = Begin | Minus | Zero | Integer | Point | Fraction | E | Sign | Power | Off

  function Next(q: Place, b: byte): Place
  {
    match q
    case Begin =>
      if b == 0x2D then Minus else if b == 0x30 then Zero else if 0x31 <= b <= 0x39 then Integer else Off
    case Minus => if b == 0x30 then Zero else if 0x31 <= b <= 0x39 then Integer else Off
    case Zero => if b == 0x2E then Point else if b == 0x65 || b == 0x45 then E else Off
    case Integer =>
      if 0x30 <= b <= 0x39 then Integer else if b == 0x2E then Point else if b == 0x65 || b == 0x45 then E else Off
    case Point => if 0x30 <= b <= 0x39 then Fraction else Off
    case Fraction => if 0x30 <= b <= 0x39 then Fraction else if b == 0x65 || b == 0x45 then E else Off
    case E => if b == 0x2B || b == 0x2D then Sign else if 0x30 <= b <= 0x39 then Power else Off
    case Sign => if 0x30 <= b <= 0x39 then Power else Off
    case Power => if 0x30 <= b <= 0x39 then Power else Off
    case Off => Off
  }

  function Walk(q: Place, s: Bytes): Place
    decreases |s|
  {
    if s == [] then q else Walk(Next(q, s[0]), s[1..])
  }

  predicate IsRfcNumber(s: Bytes) { Walk(Begin, s) in {Zero, Integer, Fraction, Power} }

  lemma {:induction false} WalkConcat(q: Place, a: Bytes, b: Bytes)
    ensures Walk(q, a + b) == Walk(Walk(q, a), b)
    decreases |a|
  {
    if a == [] {
      assert a + b == b;
    } else {
      assert (a + b)[1..] == a[1..] + b;
      WalkConcat(Next(q, a[0]), a[1..], b);
    }
  }

  lemma {:induction false} WalkOff(s: Bytes)
    ensures Walk(Off, s) == Off
  {
    if s != [] {
      WalkOff(s[1..]);
    }
  }

  /** Digits stay where digits may go on, and leave elsewhere. */
  lemma {:induction false} WalkDigits(q: Place, s: Bytes)
    requires AllDigits(s) && q in {Integer, Fraction, Power}
    ensures Walk(q, s) == q
    decreases |s|
  {
    if s != [] {
      WalkDigits(q, s[1..]);
    }
  }

  lemma WalkWhole(q: Place, s: Bytes)
    requires AllDigits(s) && q in {Begin, Minus}
    ensures Walk(q, s) == if s == [] then q else if s == [0x30] then Zero else if s[0] == 0x30 then Off else Integer
  {
    if s != [] {
      assert IsDigit(s[0]);
      if s[0] == 0x30 {
        if |s| > 1 {
          assert IsDigit(s[1]) && s[1..][0] == s[1];
          WalkOff(s[1..][1..]);
        } else {
          assert s == [0x30];
        }
      } else {
        WalkDigits(Integer, s[1..]);
      }
    }
  }

  lemma WalkFraction(q: Place, f: Option<Bytes>)
    requires AllDigits(FractionDigits(f))
    ensures Walk(q, FractionText(f))
         == if f.None? then q
            else if q !in {Zero, Integer} then Off
            else if f.value == [] then Point else Fraction
  {
    if f.Some? {
      var s := FractionText(f);
      assert s[1..] == f.value;
      if q in {Zero, Integer} {
        if f.value != [] {
          assert IsDigit(f.value[0]);
          WalkDigits(Fraction, f.value[1..]);
        }
      } else {
        WalkOff(f.value);
      }
    }
  }

  lemma WalkPower(sign: Bytes, digits: Bytes)
    requires sign == [] || sign == [PLUS] || sign == [MINUS]
    requires digits != [] && AllDigits(digits)
    ensures Walk(E, sign + digits) == Power
  {
    WalkConcat(E, sign, digits);
    assert IsDigit(digits[0]);
    if sign != [] {
      assert sign[1..] == [];
    }
    WalkDigits(Power, digits[1..]);
  }

  lemma WalkExponent(q: Place, x: Option<Exponent>)
    requires x.Some? ==> ExponentOk(x.value)
    ensures Walk(q, ExponentText(x)) == if x.None? then q else if q in {Zero, Integer, Fraction} then Power else Off
  {
    if x.Some? {
      var s := ExponentText(x);
      assert s[0] == x.value.e && s[1..] == x.value.sign + x.value.digits;
      WalkPower(x.value.sign, x.value.digits);
      WalkOff(s[1..]);
    }
  }

  /** Of the decimals the reader accepts, those of the RFC are those of its production. */
  lemma RfcDecimalIsTheProduction(d: Decimal)
    requires DecimalOk(d)
    ensures RfcDecimal(d) <==> IsRfcNumber(DecimalText(d))
  {
    var sign := SignText(d.minus);
    var start := if d.minus then Minus else Begin;
    WalkConcat(Begin, sign + d.whole + FractionText(d.fraction), ExponentText(d.exponent));
    WalkConcat(Begin, sign + d.whole, FractionText(d.fraction));
    WalkConcat(Begin, sign, d.whole);
    assert sign != [] ==> sign[1..] == [];
    assert Walk(Begin, sign) == start;
    WalkWhole(start, d.whole);
    WalkFraction(Walk(start, d.whole), d.fraction);
    WalkExponent(Walk(Walk(start, d.whole), FractionText(d.fraction)), d.exponent);
    assert d.whole == [0x30] <==> |d.whole| == 1 && d.whole[0] == 0x30;
  }
}
