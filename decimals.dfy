/**
 * Exact decimal numbers, standing in for the binary floats the clock fields
 * are read into: `float()` on a field, the weighted sum of the fields, and the
 * rounding to whole microseconds that building a timedelta from a number of
 * seconds performs (round half to even).
 */
module Decimals {
  import opened Wrappers
  import opened Text

  /** `mantissa` units of `10^-scale`. */
  datatype Decimal = Decimal(mantissa: int, scale: nat)

  function Max(a: nat, b: nat): nat {
    if a < b then b else a
  }

  lemma {:induction false} Pow10Add(a: nat, b: nat)
    ensures Pow10(a + b) == Pow10(a) * Pow10(b)
    decreases a
  {
    if a > 0 {
      Pow10Add(a - 1, b);
      assert Pow10(a + b) == 10 * Pow10(a - 1 + b);
    }
  }

  /** The value of `x` counted in units of `10^-k`. */
  function Units(x: Decimal, k: nat): int
    requires x.scale <= k
  {
    x.mantissa * Pow10(k - x.scale)
  }

  /** Counting in a unit ten times smaller multiplies the count by ten, step after step. */
  lemma UnitsRescale(x: Decimal, k: nat, k': nat)
    requires x.scale <= k <= k'
    ensures Units(x, k') == Units(x, k) * Pow10(k' - k)
  {
    Pow10Add(k - x.scale, k' - k);
    assert k' - x.scale == (k - x.scale) + (k' - k);
  }

  /** The exact sum of two decimals, at the finer of their two scales. */
  function Add(x: Decimal, y: Decimal): (r: Decimal)
    ensures r.scale == Max(x.scale, y.scale)
  {
    var s := Max(x.scale, y.scale);
    Decimal(Units(x, s) + Units(y, s), s)
  }

  /** The sum is exact: counted in any unit fine enough for it, it is the two counts added. */
  lemma AddUnits(x: Decimal, y: Decimal)
    ensures forall k :: Add(x, y).scale <= k ==> Units(Add(x, y), k) == Units(x, k) + Units(y, k)
  {
    var s, r := Max(x.scale, y.scale), Add(x, y);
    forall k | s <= k
      ensures Units(r, k) == Units(x, k) + Units(y, k)
    {
      UnitsRescale(r, s, k);
      UnitsRescale(x, s, k);
      UnitsRescale(y, s, k);
      assert Units(r, k) == (Units(x, s) + Units(y, s)) * Pow10(k - s);
    }
  }

  /** The exact product of a decimal and an integer weight. */
  function Scale(x: Decimal, w: int): (r: Decimal)
    ensures r.scale == x.scale
    ensures forall k :: r.scale <= k ==> Units(r, k) == w * Units(x, k)
  {
    Decimal(x.mantissa * w, x.scale)
  }

  /* ---------- float() ---------- */

  /**
   * `float(s)` on plain decimal notation: an optional sign, then digits with at
   * most one `.`, and at least one digit in all. The value is exact: every
   * digit after the point is one unit of scale.
   */
  function ParseDecimal(s: string): (r: Option<Decimal>)
    ensures r.Some? ==> r.value.scale < |s|
    ensures r.Some? && r.value.mantissa < 0 ==> s[0] == '-'
  {
    var negative := |s| > 0 && s[0] == '-';
    var body := s[SignLength(s)..];
    var pieces := Split(body, '.');
    if |pieces| == 1 && |body| >= 1 && AllDigits(body) then
      Some(Decimal(Signed(negative, DigitsValue(body)), 0))
    else if |pieces| == 2 && AllDigits(pieces[0]) && AllDigits(pieces[1])
            && |pieces[0]| + |pieces[1]| >= 1 then
      SplitParts(body, '.');
      assert Join(pieces[1..], '.') == pieces[1];
      DigitsValueAppend(pieces[0], pieces[1]);
      Some(Decimal(Signed(negative, DigitsValue(pieces[0] + pieces[1])), |pieces[1]|))
    else
      None
  }

  /** A signed or unsigned integer numeral reads as a whole number. */
  lemma ParseDecimalInteger(negative: bool, digits: string)
    requires |digits| >= 1 && AllDigits(digits)
    ensures ParseDecimal((if negative then "-" else "") + digits)
            == Some(Decimal(Signed(negative, DigitsValue(digits)), 0))
  {
    var s := (if negative then "-" else "") + digits;
    assert s[SignLength(s)..] == digits;
    SplitNoSeparator(digits, '.');
  }

  /** `whole.fraction` reads as the digits of both, in units of the last fraction digit. */
  lemma ParseDecimalFraction(whole: string, fraction: string)
    requires |whole| >= 1 && AllDigits(whole) && AllDigits(fraction)
    ensures AllDigits(whole + fraction)
    ensures ParseDecimal(whole + "." + fraction) == Some(Decimal(DigitsValue(whole + fraction), |fraction|))
    ensures DigitsValue(whole + fraction) == DigitsValue(whole) * Pow10(|fraction|) + DigitsValue(fraction)
  {
    var s := whole + "." + fraction;
    assert s == whole + ['.'] + fraction;
    SplitAfterPart(whole, '.', fraction);
    SplitNoSeparator(fraction, '.');
    assert s[0] == whole[0];
    assert s[0..] == s;
    DigitsValueAppend(whole, fraction);
  }

  /* ---------- rounding to microseconds ---------- */

  /**
   * `n / d` rounded to the nearest integer, a tie going to the even
   * neighbour: the rounding a timedelta applies to its microseconds.
   */
  function RoundHalfEven(n: int, d: int): (q: int)
    requires d >= 1
    ensures -d <= 2 * (n - q * d) <= d
    ensures 2 * (n - q * d) == d || 2 * (n - q * d) == -d ==> q % 2 == 0
  {
    var q, r := n / d, n % d;
    Remainders(n, d, q, r);
    if 2 * r < d then q
    else if 2 * r > d then q + 1
    else if q % 2 == 0 then q
    else q + 1
  }

  /** What is left of `n` after `q` and after `q + 1` units of `d`. */
  lemma Remainders(n: int, d: int, q: int, r: int)
    requires n == q * d + r
    ensures n - q * d == r && n - (q + 1) * d == r - d
  {
  }

  lemma {:induction false} MulAtLeast(a: int, d: int)
    requires a >= 1 && d >= 1
    ensures a * d >= d
    decreases a
  {
    if a > 1 {
      MulAtLeast(a - 1, d);
      assert a * d == (a - 1) * d + d;
    }
  }

  lemma DivModUnique(n: int, d: int, q: int, r: int)
    requires d >= 1 && 0 <= r < d && n == q * d + r
    ensures n / d == q && n % d == r
  {
    var q', r' := n / d, n % d;
    assert n == q' * d + r';
    assert (q - q') * d == r' - r by {
      assert (q - q') * d == q * d - q' * d;
    }
    if q > q' {
      MulAtLeast(q - q', d);
    } else if q < q' {
      MulAtLeast(q' - q, d);
    }
  }

  /** Adding an even number of whole units moves the rounded result by exactly that many. */
  lemma RoundHalfEvenShift(n: int, d: int, j: int)
    requires d >= 1 && j % 2 == 0
    ensures RoundHalfEven(n + j * d, d) == RoundHalfEven(n, d) + j
  {
    DivModUnique(n + j * d, d, n / d + j, n % d);
    assert (n / d + j) % 2 == (n / d) % 2;
  }

  /** Microseconds in one second. */
  const MicrosPerSecond: int := 1_000_000

  /**
   * A number of seconds as a whole number of microseconds, rounded half to
   * even; exact when the decimal has at most six fraction digits.
   */
  function ToMicros(x: Decimal): (us: int)
    ensures x.scale <= 6 ==> us == Units(x, 6)
    ensures x.scale > 6 ==> -(Pow10(x.scale - 6) as int) <= 2 * (x.mantissa - us * Pow10(x.scale - 6)) <= Pow10(x.scale - 6)
  {
    if x.scale <= 6 then Units(x, 6) else RoundHalfEven(x.mantissa, Pow10(x.scale - 6))
  }

  /** Converting exact sums is additive. */
  lemma ToMicrosAdd(x: Decimal, y: Decimal)
    requires x.scale <= 6 && y.scale <= 6
    ensures ToMicros(Add(x, y)) == ToMicros(x) + ToMicros(y)
  {
    AddUnits(x, y);
  }

  /** Converting exact products by an integer weight is linear. */
  lemma ToMicrosScale(x: Decimal, w: int)
    requires x.scale <= 6
    ensures ToMicros(Scale(x, w)) == w * ToMicros(x)
  {
  }

  /**
   * Adding whole seconds before rounding is the same as adding them after,
   * whatever the number of fraction digits.
   */
  lemma ToMicrosAddSeconds(x: Decimal, k: int)
    ensures ToMicros(Add(x, Decimal(k, 0))) == ToMicros(x) + k * MicrosPerSecond
  {
    if x.scale <= 6 {
      ToMicrosAdd(x, Decimal(k, 0));
      assert Pow10(6) == MicrosPerSecond;
    } else {
      RoundedAddSeconds(x, k);
    }
  }

  /** With more than six fraction digits, whole seconds are an even number of rounding steps. */
  lemma RoundedAddSeconds(x: Decimal, k: int)
    requires x.scale > 6
    ensures ToMicros(Add(x, Decimal(k, 0))) == ToMicros(x) + k * MicrosPerSecond
  {
    var d, shift := Pow10(x.scale - 6), k * MicrosPerSecond;
    AddWhole(x, k);
    SecondsInSteps(k, x.scale);
    RoundHalfEvenShift(x.mantissa, d, shift);
  }

  /** Adding whole seconds adds them, counted in the decimal's own unit, to its mantissa. */
  lemma AddWhole(x: Decimal, k: int)
    ensures Add(x, Decimal(k, 0)) == Decimal(x.mantissa + k * Pow10(x.scale), x.scale)
  {
    assert Units(x, x.scale) == x.mantissa;
  }

  /** `k` seconds in units of `10^-scale` are `k` million rounding steps of `10^(scale-6)` units. */
  lemma SecondsInSteps(k: int, scale: nat)
    requires scale >= 6
    ensures k * Pow10(scale) == (k * MicrosPerSecond) * Pow10(scale - 6)
  {
    Pow10Add(6, scale - 6);
    assert Pow10(6) == MicrosPerSecond;
    assert k * (MicrosPerSecond * Pow10(scale - 6)) == (k * MicrosPerSecond) * Pow10(scale - 6);
  }
}
