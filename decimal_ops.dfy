/**
 * The two decimal.js operations the engine relies on, over exact reals:
 * `pow` with an integer exponent, and `toNearest(0.01, ROUND_HALF_UP)`
 * expressed on amounts measured in cents.
 */
module DecimalOps {

  /** x raised to a natural exponent. */
  function Pow(x: real, n: nat): real
  {
    if n == 0 then 1.0 else x * Pow(x, n - 1)
  }

  lemma {:induction false} PowOne(n: nat)
    ensures Pow(1.0, n) == 1.0
  {
    if n > 0 { PowOne(n - 1); }
  }

  lemma {:induction false} PowPositive(x: real, n: nat)
    requires x > 0.0
    ensures Pow(x, n) > 0.0
  {
    if n > 0 { PowPositive(x, n - 1); }
  }

  lemma {:induction false} PowAtLeastOne(x: real, n: nat)
    requires x >= 1.0
    ensures Pow(x, n) >= 1.0
    ensures x > 1.0 && n >= 1 ==> Pow(x, n) > 1.0
  {
    if n > 0 {
      PowAtLeastOne(x, n - 1);
      var p := Pow(x, n - 1);
      assert x * p >= 1.0 * p;
      assert x > 1.0 ==> x * p > 1.0 * p;
    }
  }

  /** Raising to the same positive power preserves strict order on positive bases. */
  lemma {:induction false} PowStrictlyMonotone(x: real, y: real, n: nat)
    requires 0.0 < x < y
    requires n >= 1
    ensures Pow(x, n) < Pow(y, n)
  {
    if n > 1 {
      PowStrictlyMonotone(x, y, n - 1);
      PowPositive(x, n - 1);
      var a, b := Pow(x, n - 1), Pow(y, n - 1);
      assert x * a < y * a;
      assert y * a < y * b;
    }
  }

  /** Below one, every positive power stays below one. */
  lemma PowBelowOne(x: real, n: nat)
    requires 0.0 < x < 1.0
    requires n >= 1
    ensures Pow(x, n) < 1.0
  {
    PowStrictlyMonotone(x, 1.0, n);
    PowOne(n);
  }

  /** From a base of at least one, a larger exponent gives a larger power. */
  lemma {:induction false} PowExponentMonotone(x: real, m: nat, n: nat)
    requires x >= 1.0
    requires m <= n
    ensures Pow(x, m) <= Pow(x, n)
    decreases n
  {
    if m < n {
      PowExponentMonotone(x, m, n - 1);
      PowAtLeastOne(x, n - 1);
      var p := Pow(x, n - 1);
      assert x * p >= 1.0 * p;
    }
  }

  /** Bernoulli's inequality: (1 + i)^n >= 1 + n i for i >= 0. */
  lemma {:induction false} Bernoulli(i: real, n: nat)
    requires i >= 0.0
    ensures Pow(1.0 + i, n) >= 1.0 + (n as real) * i
  {
    if n > 0 {
      Bernoulli(i, n - 1);
      var p := Pow(1.0 + i, n - 1);
      var k := (n - 1) as real;
      MultiplyPreservesOrder(1.0 + i, 1.0 + k * i, p);
      assert (1.0 + i) * (1.0 + k * i) == 1.0 + (k + 1.0) * i + k * (i * i);
      MultiplyPreservesOrder(k, 0.0, i * i);
    }
  }

  lemma MultiplyPreservesOrder(c: real, a: real, b: real)
    requires c >= 0.0 && a <= b
    ensures c * a <= c * b
  {
  }

  lemma MultiplyRightPreservesOrder(a: real, b: real, c: real)
    requires a <= b && c >= 0.0
    ensures a * c <= b * c
  {
    MultiplyPreservesOrder(c, a, b);
  }

  lemma ProductNonNegative(a: real, b: real)
    ensures a >= 0.0 && b >= 0.0 ==> a * b >= 0.0
  {
    if a >= 0.0 && b >= 0.0 { MultiplyPreservesOrder(a, 0.0, b); }
  }

  lemma MultiplyStrictlyPreservesOrder(c: real, a: real, b: real)
    requires c > 0.0 && a < b
    ensures c * a < c * b
  {
  }

  /**
   * toNearest(0.01, ROUND_HALF_UP) on an amount of cents: the nearest whole
   * number of cents, a tie going away from zero.
   */
  function RoundHalfUp(x: real): (n: int)
    ensures x >= 0.0 ==> (n as real) - 0.5 <= x < (n as real) + 0.5
    ensures x < 0.0 ==> (n as real) - 0.5 < x <= (n as real) + 0.5
  {
    if x >= 0.0 then (x + 0.5).Floor else -((-x + 0.5).Floor)
  }

  /** Rounding never reverses the order of two amounts. */
  lemma RoundHalfUpMonotone(x: real, y: real)
    requires x <= y
    ensures RoundHalfUp(x) <= RoundHalfUp(y)
  {
  }

  /** A tie away from zero on both sides: rounding commutes with negation. */
  lemma RoundHalfUpSymmetric(x: real)
    ensures RoundHalfUp(-x) == -RoundHalfUp(x)
  {
  }

  /** A whole number of cents is left as it is. */
  lemma RoundHalfUpWhole(k: int)
    ensures RoundHalfUp(k as real) == k
  {
  }
}
