/** Soil-moisture conversion of node SF_A: a raw ADC reading is mapped to a
    percentage through a wet/dry calibration pair, truncated toward zero and
    clamped to [0, 100]. Degenerate calibration (wet == dry) yields 0. */
module Moisture {

  /** Calibration of channel 1 (pot 1). */
  const WET_1: int := 1375
  const DRY_1: int := 2885
  /** Calibration of channel 2 (pot 2). */
  const WET_2: int := 2433
  const DRY_2: int := 2686
  /** Below this percentage a pot counts as dry. */
  const THRESHOLD: int := 30

  function Abs(x: int): nat
  {
    if x < 0 then -x else x
  }

  lemma DivBounds(a: nat, b: nat)
    requires b > 0
    ensures 0 <= a / b
    ensures (a / b) * b <= a < (a / b + 1) * b
  {
    var m, r := a / b, a % b;
    assert a == m * b + r;
    assert (m + 1) * b == m * b + b;
  }

  lemma MulMonotone(x: int, y: int, d: nat)
    requires x <= y
    ensures x * d <= y * d
  {
    assert y * d - x * d == (y - x) * d;
  }

  /** Integer division rounding toward zero, which is what converting a true
      quotient back to an integer does. Dafny's own `/` is Euclidean and
      disagrees with this whenever the dividend is negative and the division
      is inexact. */
  function TruncDiv(a: int, b: int): (q: int)
    requires b != 0
    ensures Abs(q) * Abs(b) <= Abs(a) < (Abs(q) + 1) * Abs(b)
    ensures q == 0 || ((q < 0) <==> ((a < 0) != (b < 0)))
  {
    var A, B := Abs(a), Abs(b);
    var m := A / B;
    DivBounds(A, B);
    if (a < 0) == (b < 0) then m else -m
  }

  /** Truncation is symmetric in the signs of both operands. */
  lemma TruncDivNegateBoth(a: int, b: int)
    requires b != 0
    ensures TruncDiv(-a, -b) == TruncDiv(a, b)
  {
    assert Abs(-a) == Abs(a) && Abs(-b) == Abs(b);
  }

  /** For a non-negative dividend and a positive divisor, the truncated
      quotient is the largest k with k * d <= n. */
  lemma TruncDivFloor(n: int, d: int, k: int)
    requires n >= 0 && d > 0
    ensures TruncDiv(n, d) >= k <==> n >= k * d
  {
    var q := TruncDiv(n, d);
    assert q >= 0;
    assert q * d <= n < (q + 1) * d;
    if k <= q {
      MulMonotone(k, q, d);
    } else {
      MulMonotone(q + 1, k, d);
    }
  }

  /** A non-positive dividend over a positive divisor truncates to at most 0;
      a dividend of at least 100 divisors truncates to at least 100. */
  lemma TruncDivEnds(n: int, d: int)
    requires d != 0
    ensures d > 0 && n <= 0 ==> TruncDiv(n, d) <= 0
    ensures d > 0 && n >= 100 * d ==> TruncDiv(n, d) >= 100
  {
    if d > 0 && n >= 100 * d {
      TruncDivFloor(n, d, 100);
    }
  }

  function Clamp(lo: int, hi: int, x: int): int
    requires lo <= hi
  {
    if x < lo then lo else if x > hi then hi else x
  }

  /** Moisture percentage of reading `adc` for calibration pair (wet, dry). */
  function Percent(adc: int, wet: int, dry: int): (p: int)
    ensures 0 <= p <= 100
    ensures dry == wet ==> p == 0
    ensures wet < dry && adc <= wet ==> p == 0
    ensures wet < dry && dry <= adc ==> p == 100
  {
    if dry == wet then 0
    else
      var n, d := (adc - wet) * 100, dry - wet;
      TruncDivEnds(n, d);
      Clamp(0, 100, TruncDiv(n, d))
  }

  /** Independent characterisation for a normal calibration (wet < dry):
      the percentage reaches a positive k exactly when the reading has covered
      k percent of the wet-to-dry span. */
  lemma PercentAtLeast(adc: int, wet: int, dry: int, k: int)
    requires wet < dry
    requires 0 < k <= 100
    ensures Percent(adc, wet, dry) >= k <==> (adc - wet) * 100 >= k * (dry - wet)
  {
    var n := (adc - wet) * 100;
    var d := dry - wet;
    if n < 0 {
      assert Percent(adc, wet, dry) == 0;
      MulMonotone(0, k, d);
    } else {
      TruncDivFloor(n, d, k);
    }
  }

  /** For a normal calibration the percentage never decreases as the raw
      reading grows. */
  lemma PercentMonotone(a: int, b: int, wet: int, dry: int)
    requires wet < dry
    requires a <= b
    ensures Percent(a, wet, dry) <= Percent(b, wet, dry)
  {
    var k := Percent(a, wet, dry);
    if k > 0 {
      PercentAtLeast(a, wet, dry, k);
      PercentAtLeast(b, wet, dry, k);
      assert (a - wet) * 100 <= (b - wet) * 100;
    }
  }

  /** Negating the reading and both calibration points leaves the percentage
      unchanged; this is what makes an inverted calibration (dry < wet)
      behave as the mirror image of a normal one. */
  lemma PercentMirror(adc: int, wet: int, dry: int)
    ensures Percent(-adc, -wet, -dry) == Percent(adc, wet, dry)
  {
    if dry != wet {
      assert (-adc - -wet) * 100 == -((adc - wet) * 100);
      TruncDivNegateBoth((adc - wet) * 100, dry - wet);
    }
  }

  /** Inverted calibration (the reading falls as the soil dries). */
  lemma PercentInverted(adc: int, wet: int, dry: int, k: int)
    requires dry < wet
    requires 0 < k <= 100
    ensures Percent(adc, wet, dry) >= k <==> (wet - adc) * 100 >= k * (wet - dry)
    ensures wet <= adc ==> Percent(adc, wet, dry) == 0
    ensures adc <= dry ==> Percent(adc, wet, dry) == 100
  {
    PercentMirror(adc, wet, dry);
    PercentAtLeast(-adc, -wet, -dry, k);
  }

  /** Channel 1 drives pump A1: its percentage is below the threshold exactly
      for raw readings below 1828. */
  lemma Channel1DryBelow(adc: int)
    ensures Percent(adc, WET_1, DRY_1) < THRESHOLD <==> adc < 1828
  {
    PercentAtLeast(adc, WET_1, DRY_1, THRESHOLD);
  }

  /** Channel 2's percentage is below the threshold exactly for raw readings
      below 2509. */
  lemma Channel2DryBelow(adc: int)
    ensures Percent(adc, WET_2, DRY_2) < THRESHOLD <==> adc < 2509
  {
    PercentAtLeast(adc, WET_2, DRY_2, THRESHOLD);
  }
}
