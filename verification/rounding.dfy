/**
 `formatNumber`: rounding a number to at most two decimal places.

 The result is a number, not a fixed-width string, so a value that rounds to
 a whole number is that whole number. Ties are rounded away from zero.
 */
module Rounding {

  function Abs(x: real): (r: real)
  {
    if x < 0.0 then -x else x
  }

  /** A value with at most two decimal places: a whole number of hundredths. */
  predicate IsCents(r: real)
  {
    (r * 100.0).Floor as real == r * 100.0
  }

  /**
   The whole number of hundredths nearest to `x`; of two equally near,
   the one farther from zero.
   */
  function RoundCents(x: real): (k: int)
    ensures Abs(x * 100.0 - k as real) <= 0.5
    ensures Abs(x * 100.0 - k as real) == 0.5 ==> Abs(k as real) > Abs(x * 100.0)
  {
    if x >= 0.0 then (x * 100.0 + 0.5).Floor else -((-x * 100.0 + 0.5).Floor)
  }

  /** `formatNumber(x)`. */
  function FormatNumber(x: real): (r: real)
    ensures IsCents(r)
    ensures Abs(r - x) <= 0.005
    ensures x >= 0.0 ==> r >= 0.0
  {
    RoundCents(x) as real / 100.0
  }

  /**
   The rounding rule determines the result: any whole number of hundredths
   within half a hundredth of `x`, breaking a tie away from zero, is the
   one `FormatNumber` picks.
   */
  lemma RoundCentsUnique(x: real, k: int)
    requires Abs(x * 100.0 - k as real) <= 0.5
    requires Abs(x * 100.0 - k as real) == 0.5 ==> Abs(k as real) > Abs(x * 100.0)
    ensures k == RoundCents(x)
  {
    var j := RoundCents(x);
    assert -1 <= k - j <= 1;
  }

  /** No whole number of hundredths is nearer to `x` than the rounded one. */
  lemma RoundCentsNearest(x: real, j: int)
    ensures Abs(x * 100.0 - RoundCents(x) as real) <= Abs(x * 100.0 - j as real)
  {
    var y := x * 100.0;
    var k := RoundCents(x);
    if j < k {
      assert j as real <= k as real - 1.0;
    } else if j > k {
      assert j as real >= k as real + 1.0;
    }
  }

  /** Adding a half to a whole number does not reach the next one. */
  lemma FloorPlusHalf(n: int)
    ensures (n as real + 0.5).Floor == n
  {
  }

  /** Rounding an already rounded value changes nothing. */
  lemma FormatNumberIdempotent(x: real)
    ensures FormatNumber(FormatNumber(x)) == FormatNumber(x)
  {
    FormatNumberFixesCents(FormatNumber(x));
  }

  /** A value with at most two decimal places is its own rounding. */
  lemma FormatNumberFixesCents(r: real)
    requires IsCents(r)
    ensures FormatNumber(r) == r
  {
    var k := (r * 100.0).Floor;
    if r >= 0.0 {
      FloorPlusHalf(k);
      assert r * 100.0 + 0.5 == k as real + 0.5;
    } else {
      FloorPlusHalf(-k);
      assert -r * 100.0 + 0.5 == (-k) as real + 0.5;
    }
    assert RoundCents(r) == k;
  }

  /** A whole number is displayed as itself. */
  lemma FormatNumberWhole(n: int)
    ensures FormatNumber(n as real) == n as real
  {
    assert (n as real * 100.0) == (n * 100) as real;
    FormatNumberFixesCents(n as real);
  }

  /** The two roundings the monitor's test fixes. */
  lemma FormatNumberExamples()
    ensures FormatNumber(100.123) == 100.12
    ensures FormatNumber(100.0000123) == 100.0
  {
  }
}
