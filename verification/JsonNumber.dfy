/** Integers in JSON text: how they are printed, the exact value of a decimal, and
    how a number is read back as an integer. */
module JsonNumber {
  import opened ByteText
  import opened Wrappers
  import opened JsonGrammar

  // --- Exact values ----------------------------------------------------------------

  /** The number a run of digits spells. */
  function Magnitude(digits: Bytes): nat
    requires AllDigits(digits)
  {
    if digits == [] then 0
    else 10 * Magnitude(digits[..|digits| - 1]) + (digits[|digits| - 1] - 0x30)
  }

  function PowerOfTen(n: nat): (r: real)
    ensures r > 0.0
  {
    if n == 0 then 1.0 else 10.0 * PowerOfTen(n - 1)
  }

  /** `r` scaled by ten to the power `e`. */
  function Scaled(r: real, e: int): real
  {
    if e >= 0 then r * PowerOfTen(e) else r / PowerOfTen(-e)
  }

  function ExponentValue(x: Option<Exponent>): int
    requires x.Some? ==> ExponentOk(x.value)
  {
    if x.None? then 0
    else
      var n: int := Magnitude(x.value.digits);
      if x.value.sign == [MINUS] then -n else n
  }

  /** The real number a decimal denotes. */
  function DecimalValue(d: Decimal): real
    requires DecimalOk(d)
  {
    var f := FractionDigits(d.fraction);
    var m := Scaled(Magnitude(d.whole + f) as real, ExponentValue(d.exponent) - |f|);
    if d.minus then -m else m
  }

  lemma ScaledStep(r: real, e: int)
    ensures Scaled(r, e + 1) == 10.0 * Scaled(r, e)
  {
    if e < 0 {
      TenTimes(r, PowerOfTen(-e - 1));
    }
  }

  lemma TenTimes(r: real, p: real)
    requires p > 0.0
    ensures r / p == 10.0 * (r / (10.0 * p))
  {
    var q := r / (10.0 * p);
    assert q * (10.0 * p) == r;
    assert (10.0 * q) * p == r;
  }

  /** Moving the point one digit to the right multiplies by ten. */
  lemma MovingThePoint(d: Decimal, b: byte, f: Bytes)
    requires DecimalOk(d) && d.fraction == Some([b] + f)
    ensures var e := d.(whole := d.whole + [b], fraction := Some(f));
            DecimalOk(e) && DecimalValue(e) == 10.0 * DecimalValue(d)
  {
    assert AllDigits([b] + f) && ([b] + f)[0] == b && ([b] + f)[1..] == f;
    assert d.whole + [b] + f == d.whole + ([b] + f);
    ScaledStep(Magnitude(d.whole + ([b] + f)) as real, ExponentValue(d.exponent) - |f| - 1);
  }

  /** A final point adds nothing, and digits alone denote the integer they spell. */
  lemma WithoutAFraction(d: Decimal)
    requires DecimalOk(d) && d.exponent.None? && d.fraction == Some([])
    ensures DecimalValue(d) == DecimalValue(d.(fraction := None))
    ensures DecimalValue(d) == if d.minus then -(Magnitude(d.whole) as real) else Magnitude(d.whole) as real
  {
    assert d.whole + [] == d.whole;
  }

  /** One more in the exponent multiplies or divides by ten, by its sign; zero does nothing. */
  lemma StepOfTheExponent(d: Decimal, x: Exponent, y: Exponent)
    requires DecimalOk(d) && ExponentOk(x) && ExponentOk(y) && x.sign == y.sign
    requires Magnitude(y.digits) == Magnitude(x.digits) + 1
    ensures var v, w := DecimalValue(d.(exponent := Some(x))), DecimalValue(d.(exponent := Some(y)));
            if x.sign == [0x2D] then v == 10.0 * w else w == 10.0 * v
    ensures Magnitude(x.digits) == 0 ==> DecimalValue(d.(exponent := Some(x))) == DecimalValue(d.(exponent := None))
  {
    var f := FractionDigits(d.fraction);
    var m := Magnitude(d.whole + f) as real;
    var e := ExponentValue(Some(x)) - |f|;
    if x.sign == [0x2D] {
      ScaledStep(m, e - 1);
    } else {
      ScaledStep(m, e);
    }
  }

  // --- Printing ----------------------------------------------------------------------

  function Digits(n: nat): (s: Bytes)
    ensures AllDigits(s) && s != [] && Magnitude(s) == n
  {
    if n < 10 then [0x30 + n]
    else
      var s := Digits(n / 10) + [0x30 + n % 10];
      assert s[..|s| - 1] == Digits(n / 10);
      s
  }

  function IntegerDecimal(n: int): (d: Decimal)
    ensures DecimalOk(d) && DecimalValue(d) == n as real
  {
    var m: nat := if n < 0 then -n else n;
    assert Digits(m) + [] == Digits(m);
    Decimal(n < 0, Digits(m), None, None)
  }

  /** `std::to_string`. */
  function IntegerText(n: int): (s: Bytes)
    ensures s == DecimalText(IntegerDecimal(n))
  {
    if n < 0 then [MINUS] + Digits(-n) else Digits(n)
  }

  // --- Reading -----------------------------------------------------------------------

  const TWO_TO_53: int := 0x20_0000_0000_0000
  const TWO_TO_63: int := 0x8000_0000_0000_0000

  predicate IsInteger(x: real) { x == x.Floor as real }

  /** How a decimal rounds to a double. All that is known of it is that the integers
      up to 2^53 are doubles; which double any other decimal becomes is left open. */
  ghost predicate RoundsLikeDoubles(round: Decimal -> real)
  {
    forall d: Decimal | DecimalOk(d) && IsInteger(DecimalValue(d)) ::
      -TWO_TO_53 as real <= DecimalValue(d) <= TWO_TO_53 as real ==> round(d) == DecimalValue(d)
  }

  /** Conversion of a double to an integer drops the fraction. */
  function Truncate(x: real): (n: int)
    ensures x >= 0.0 ==> n as real <= x < n as real + 1.0
    ensures x <= 0.0 ==> n as real - 1.0 < x <= n as real
  {
    if x >= 0.0 then x.Floor else -(-x).Floor
  }

  function AsInt(v: Value, round: Decimal -> real): Option<int>
  {
    if !v.Number? then None
    else
      var x := round(v.decimal);
      if x < -TWO_TO_63 as real || x > TWO_TO_63 as real then None else Some(Truncate(x))
  }

  /** However an integer up to 2^53 is written, it reads back as itself. */
  lemma IntegersReadBack(d: Decimal, n: int, round: Decimal -> real)
    requires RoundsLikeDoubles(round) && DecimalOk(d) && DecimalValue(d) == n as real
    requires -TWO_TO_53 <= n <= TWO_TO_53
    ensures AsInt(Number(d), round) == Some(n)
  {
    assert IsInteger(n as real);
    assert round(d) == n as real;
    assert (n as real).Floor == n && (-(n as real)).Floor == -n;
  }

  lemma IntegerDecimalIsInjective(a: int, b: int)
    requires IntegerDecimal(a) == IntegerDecimal(b)
    ensures a == b
  {
    assert DecimalValue(IntegerDecimal(a)) == a as real;
    assert DecimalValue(IntegerDecimal(b)) == b as real;
  }
}
