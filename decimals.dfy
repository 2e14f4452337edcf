// Exact decimal numbers standing in for the `f64` values of src/main.rs, and the
// rounding to hundredths done by `(number * 100.0).round() / 100.0`.
module Decimals {
  import opened Digits

  /** The exact value mantissa * 10^exponent. */
  datatype Decimal = Decimal(mantissa: int, exponent: int)

  /** A hundred times the value of d is the fraction Num100(d) / Den100(d). */
  function Num100(d: Decimal): int {
    if d.exponent + 2 >= 0 then d.mantissa * Pow10(d.exponent + 2) else d.mantissa
  }

  function Den100(d: Decimal): (den: nat)
    ensures den >= 1
  {
    if d.exponent + 2 >= 0 then 1 else Pow10(-(d.exponent + 2))
  }

  /** d is exactly h hundredths. */
  predicate IsHundredths(d: Decimal, h: int) {
    Num100(d) == h * Den100(d)
  }

  /** h is num / den rounded to the nearest integer, a tie going away from zero. */
  predicate NearestTiesAway(num: int, den: nat, h: int) {
    && 2 * Abs(num - h * den) <= den
    && (2 * Abs(num - h * den) == den ==> Abs(h * den) > Abs(num))
  }

  /** Rust's `f64::round` applied to num / den. */
  function RoundQuotient(num: int, den: nat): (h: int)
    requires den >= 1
    ensures NearestTiesAway(num, den, h)
  {
    if num >= 0 then
      var q := (2 * num + den) / (2 * den);
      assert 2 * den * q <= 2 * num + den < 2 * den * q + 2 * den;
      q
    else
      var q := (2 * -num + den) / (2 * den);
      assert 2 * den * q <= 2 * -num + den < 2 * den * q + 2 * den;
      -q
  }

  /** The number of hundredths `(number * 100.0).round()` yields (src/main.rs:88, 114). */
  function RoundHundredths(d: Decimal): (h: int)
    ensures NearestTiesAway(Num100(d), Den100(d), h)
  {
    RoundQuotient(Num100(d), Den100(d))
  }

  /** 1 / f64::EPSILON, that is 2^52. */
  const InverseEpsilon: nat := 4503599627370496

  /** `(number - rounded).abs() > f64::EPSILON` (src/main.rs:117), evaluated exactly:
      |d - h/100| > 2^-52 is |Num100 - h * Den100| * 2^52 > 100 * Den100. */
  predicate WasRounded(d: Decimal): (b: bool)
    ensures b ==> !IsHundredths(d, RoundHundredths(d))
  {
    var h := RoundHundredths(d);
    Abs(Num100(d) - h * Den100(d)) * InverseEpsilon > 100 * Den100(d)
  }

  /** At most one integer is the nearest, ties away from zero. */
  lemma NearestUnique(num: int, den: nat, h1: int, h2: int)
    requires den >= 1
    requires NearestTiesAway(num, den, h1) && NearestTiesAway(num, den, h2)
    ensures h1 == h2
  {
    if h1 < h2 {
      NotTwoNearest(num, den, h1, h2);
    } else if h2 < h1 {
      NotTwoNearest(num, den, h2, h1);
    }
  }

  lemma NotTwoNearest(num: int, den: nat, lo: int, hi: int)
    requires den >= 1 && lo < hi
    requires NearestTiesAway(num, den, lo)
    ensures !NearestTiesAway(num, den, hi)
  {
    MultiplesApart(den, lo, hi);
    NotTwoMultiples(num, den, lo * den, hi * den);
  }

  lemma MultiplesApart(den: nat, lo: int, hi: int)
    requires den >= 1 && lo < hi
    ensures hi * den - lo * den >= den
    ensures lo >= 0 ==> lo * den >= 0
    ensures hi <= 0 ==> hi * den <= 0
    ensures hi > lo + 1 ==> hi * den - lo * den > den
  {
    var k := hi - lo;
    assert hi * den - lo * den == k * den;
    assert k * den == (k - 1) * den + den;
    if k > 1 {
      assert k * den == (k - 2) * den + 2 * den;
    }
  }

  /** Two multiples of den, den apart and on the same side of zero, or further apart,
      cannot both be the nearest to num: num would lie midway between them, and the tie
      cannot go away from zero on both sides. */
  lemma NotTwoMultiples(num: int, den: nat, l: int, u: int)
    requires den >= 1 && u - l >= den && (l >= 0 || u <= 0 || u - l > den)
    requires 2 * Abs(num - l) <= den && (2 * Abs(num - l) == den ==> Abs(l) > Abs(num))
    ensures !(2 * Abs(num - u) <= den && (2 * Abs(num - u) == den ==> Abs(u) > Abs(num)))
  {
  }

  /** A value that already is a whole number of hundredths is neither changed nor annotated. */
  lemma RoundExact(d: Decimal, h: int)
    requires IsHundredths(d, h)
    ensures RoundHundredths(d) == h
    ensures !WasRounded(d)
  {
    assert NearestTiesAway(Num100(d), Den100(d), h);
    NearestUnique(Num100(d), Den100(d), h, RoundHundredths(d));
  }

  /** Rounding the rounded value again changes nothing and is not annotated. */
  lemma RoundIdempotent(d: Decimal)
    ensures RoundHundredths(Decimal(RoundHundredths(d), -2)) == RoundHundredths(d)
    ensures !WasRounded(Decimal(RoundHundredths(d), -2))
  {
    var h := RoundHundredths(d);
    assert IsHundredths(Decimal(h, -2), h);
    RoundExact(Decimal(h, -2), h);
  }

  /** The `(rounded)` test only fires when rounding changed the value, and for any input
      with an exponent of at least -15 (at most 15 digits after the point when written
      without an exponent) it fires exactly when rounding changed the value. */
  lemma WasRoundedMeansChanged(d: Decimal)
    ensures WasRounded(d) ==> !IsHundredths(d, RoundHundredths(d))
    ensures d.exponent >= -15 ==> (WasRounded(d) <==> !IsHundredths(d, RoundHundredths(d)))
  {
    var h := RoundHundredths(d);
    if d.exponent >= -15 && !IsHundredths(d, h) {
      var diff := Abs(Num100(d) - h * Den100(d));
      assert diff >= 1;
      if d.exponent + 2 < 0 {
        Pow10Monotone(-(d.exponent + 2), 13);
        assert Pow10(13) == 10000000000000;
        assert Den100(d) <= 10000000000000;
      }
      assert diff * InverseEpsilon >= InverseEpsilon > 100 * Den100(d);
    }
  }

  /** The absolute epsilon hides very small differences: 10^-19 rounds to 0 hundredths, the
      value changed, yet the source prints no `(rounded)` note. */
  lemma TinyDifferenceNotAnnotated()
    ensures RoundHundredths(Decimal(1, -19)) == 0
    ensures !IsHundredths(Decimal(1, -19), 0)
    ensures !WasRounded(Decimal(1, -19))
  {
    var d := Decimal(1, -19);
    Pow10Add(13, 4);
    assert Pow10(13) == 10000000000000 && Pow10(4) == 10000;
    assert Den100(d) == Pow10(17) == 100000000000000000;
    assert NearestTiesAway(Num100(d), Den100(d), 0);
    NearestUnique(Num100(d), Den100(d), 0, RoundHundredths(d));
  }
}
