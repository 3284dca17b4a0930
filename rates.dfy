/**
 * Interest-rate conversions: the quoted rate (compounded semi-annually) to an
 * effective annual rate, the annual rate to a monthly one, and the monthly
 * rate to the rate of one payment period of the chosen frequency.
 *
 * A conversion with a fractional exponent, (1 + rate)^(num/den) - 1, has no
 * exact counterpart over the reals that Dafny can compute. It is modelled by
 * the relation the result satisfies: (1 + result)^den == (1 + rate)^num with
 * 1 + result positive, which pins the result down uniquely.
 */
module Rates {
  import opened DecimalOps
  import opened Frequency

  /** (1 + quoted / 2)^2 - 1: two half-year compounding periods. */
  function ConvertQuotedRateToAnnual(quoted: real): (annual: real)
    ensures annual == quoted + quoted * quoted / 4.0
    ensures quoted >= 0.0 ==> annual >= quoted
  {
    var half := 1.0 + quoted / 2.0;
    assert Pow(half, 1) == half * Pow(half, 0) == half;
    assert half * half == 1.0 + quoted + quoted * quoted / 4.0;
    Pow(half, 2) - 1.0
  }

  /** On non-negative quoted rates a higher quote gives a higher annual rate. */
  lemma QuotedToAnnualStrictlyIncreasing(q1: real, q2: real)
    requires 0.0 <= q1 < q2
    ensures ConvertQuotedRateToAnnual(q1) < ConvertQuotedRateToAnnual(q2)
  {
    var d := q2 - q1;
    assert ConvertQuotedRateToAnnual(q2) - ConvertQuotedRateToAnnual(q1) == d * (1.0 + (q1 + q2) / 4.0);
    MultiplyPreservesOrder(d, 1.0, 1.0 + (q1 + q2) / 4.0);
  }

  /** How one rate is turned into another. */
  datatype RateConversion =
    | Unchanged
      /** rate |-> (1 + rate)^(numerator / denominator) - 1 */
    | Compound(numerator: nat, denominator: nat)

  /** result is what conversion c makes of rate. */
  predicate IsConversion(c: RateConversion, rate: real, result: real)
  {
    match c
    case Unchanged => result == rate
    case Compound(num, den) => 1.0 + result > 0.0 && Pow(1.0 + result, den) == Pow(1.0 + rate, num)
  }

  /** The annual-to-monthly conversion: (1 + annual)^(1/12) - 1. */
  const AnnualToMonthly: RateConversion := Compound(1, 12)

  /** The dispatch on the frequency that selects the periodic-rate conversion. */
  function PeriodicRateConversion(f: PaymentFrequency): (c: RateConversion)
    ensures c == Unchanged <==> f == Monthly
    ensures c.Compound? ==> c.numerator == 12 && c.denominator == NumberOfPaymentsPerYear(f)
  {
    match f
    case Monthly => Unchanged
    case AcceleratedBiWeekly | BiWeekly => Compound(12, 26)
    case AcceleratedWeekly | Weekly => Compound(12, 52)
  }

  /** An accelerated frequency converts the rate exactly as its counterpart does. */
  lemma AcceleratedSharesRateConversion(f: PaymentFrequency)
    ensures PeriodicRateConversion(f) == PeriodicRateConversion(Counterpart(f))
  {
  }

  /** A conversion has at most one result. */
  lemma ConversionUnique(c: RateConversion, rate: real, r1: real, r2: real)
    requires c.Compound? ==> c.denominator >= 1
    requires IsConversion(c, rate, r1) && IsConversion(c, rate, r2)
    ensures r1 == r2
  {
    if c.Compound? && r1 != r2 {
      var den := c.denominator;
      if r1 < r2 {
        PowStrictlyMonotone(1.0 + r1, 1.0 + r2, den);
      } else {
        PowStrictlyMonotone(1.0 + r2, 1.0 + r1, den);
      }
    }
  }

  /**
   * Spreading a non-negative rate over at least as many shorter periods keeps
   * it non-negative and no larger, and keeps a positive rate positive.
   */
  lemma ConversionSign(c: RateConversion, rate: real, result: real)
    requires c.Compound? ==> 1 <= c.numerator <= c.denominator
    requires rate >= 0.0
    requires IsConversion(c, rate, result)
    ensures 0.0 <= result <= rate
    ensures rate > 0.0 ==> result > 0.0
  {
    if c.Compound? {
      var num, den := c.numerator, c.denominator;
      var x, y := 1.0 + rate, 1.0 + result;
      PowAtLeastOne(x, num);
      if result < 0.0 {
        PowBelowOne(y, den);
        assert false;
      }
      if rate > 0.0 && result == 0.0 {
        PowOne(den);
        assert false;
      }
      if result > rate {
        PowStrictlyMonotone(x, y, den);
        PowExponentMonotone(x, num, den);
        assert false;
      }
    }
  }

  /** The periodic rate is non-negative, below the monthly rate, and positive with it. */
  lemma PeriodicRateBounds(f: PaymentFrequency, monthlyRate: real, periodicRate: real)
    requires monthlyRate >= 0.0
    requires IsConversion(PeriodicRateConversion(f), monthlyRate, periodicRate)
    ensures 0.0 <= periodicRate <= monthlyRate
    ensures monthlyRate > 0.0 ==> periodicRate > 0.0
  {
    ConversionSign(PeriodicRateConversion(f), monthlyRate, periodicRate);
  }

  /** The monthly rate of a non-negative quoted rate is non-negative, and positive with it. */
  lemma MonthlyRateBounds(quoted: real, monthlyRate: real)
    requires quoted >= 0.0
    requires IsConversion(AnnualToMonthly, ConvertQuotedRateToAnnual(quoted), monthlyRate)
    ensures 0.0 <= monthlyRate <= ConvertQuotedRateToAnnual(quoted)
    ensures quoted > 0.0 ==> monthlyRate > 0.0
  {
    ConversionSign(AnnualToMonthly, ConvertQuotedRateToAnnual(quoted), monthlyRate);
  }

  /**
   * A quoted rate of 1% gives a monthly rate above zero and at most 0.1%.
   */
  lemma OnePercentQuoteMonthlyRate(monthlyRate: real)
    requires IsConversion(AnnualToMonthly, ConvertQuotedRateToAnnual(0.01), monthlyRate)
    ensures 0.0 < monthlyRate <= 0.001
  {
    MonthlyRateBounds(0.01, monthlyRate);
    var annual := ConvertQuotedRateToAnnual(0.01);
    assert Pow(1.0 + annual, 1) == 1.0 + annual;
    if monthlyRate > 0.001 {
      PowStrictlyMonotone(1.001, 1.0 + monthlyRate, 12);
      Bernoulli(0.001, 12);
      assert false;
    }
  }

  /**
   * Rate composition: compounding the periodic rate over one year's payments
   * gives what compounding half the quoted rate twice gives.
   */
  lemma {:induction false} RateComposition(quoted: real, monthlyRate: real, f: PaymentFrequency, periodicRate: real)
    requires IsConversion(AnnualToMonthly, ConvertQuotedRateToAnnual(quoted), monthlyRate)
    requires IsConversion(PeriodicRateConversion(f), monthlyRate, periodicRate)
    ensures Pow(1.0 + periodicRate, NumberOfPaymentsPerYear(f)) == Pow(1.0 + quoted / 2.0, 2)
  {
    var annual := ConvertQuotedRateToAnnual(quoted);
    assert Pow(1.0 + annual, 1) == 1.0 + annual;
    assert Pow(1.0 + monthlyRate, 12) == Pow(1.0 + quoted / 2.0, 2);
  }
}
