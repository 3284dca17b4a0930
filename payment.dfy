/**
 * The payment amount: the annuity formula on the monthly rate, its
 * conversion to the chosen frequency, and the rounding to cents.
 */
module Payments {
  import opened DecimalOps
  import opened Frequency

  /**
   * The monthly payment re-expressed for frequency f. Over one year the
   * regular frequencies pay twelve monthly payments, the accelerated ones
   * thirteen.
   */
  function ConvertMonthlyPaymentToPaymentFrequency(monthlyPayment: real, f: PaymentFrequency): (r: real)
    ensures r * (NumberOfPaymentsPerYear(f) as real) == (if IsAccelerated(f) then 13.0 else 12.0) * monthlyPayment
    ensures monthlyPayment >= 0.0 ==> r >= 0.0
  {
    match f
    case Monthly => monthlyPayment
    case AcceleratedBiWeekly => monthlyPayment / 2.0
    case BiWeekly => monthlyPayment * 12.0 / 26.0
    case AcceleratedWeekly => monthlyPayment / 4.0
    case Weekly => monthlyPayment * 12.0 / 52.0
  }

  /** Monthly keeps the payment as it is. */
  lemma MonthlyPaymentUnchanged(monthlyPayment: real)
    ensures ConvertMonthlyPaymentToPaymentFrequency(monthlyPayment, Monthly) == monthlyPayment
  {
  }

  /** An accelerated frequency pays at least what its counterpart pays, on the same dates. */
  lemma AcceleratedPaysAtLeastCounterpart(monthlyPayment: real, f: PaymentFrequency)
    requires monthlyPayment >= 0.0
    requires IsAccelerated(f)
    ensures ConvertMonthlyPaymentToPaymentFrequency(monthlyPayment, f)
         >= ConvertMonthlyPaymentToPaymentFrequency(monthlyPayment, Counterpart(f))
  {
  }

  /** A regular frequency pays at most the monthly payment each time. */
  lemma RegularPaysAtMostMonthly(monthlyPayment: real, f: PaymentFrequency)
    requires monthlyPayment >= 0.0
    requires !IsAccelerated(f)
    ensures 0.0 <= ConvertMonthlyPaymentToPaymentFrequency(monthlyPayment, f) <= monthlyPayment
  {
  }

  /** 1 - (1 + i)^(-n), written with a positive power. */
  function AnnuityDenominator(monthlyRate: real, months: nat): (d: real)
    requires monthlyRate > -1.0
    ensures d * Pow(1.0 + monthlyRate, months) == Pow(1.0 + monthlyRate, months) - 1.0
    ensures monthlyRate > 0.0 && months >= 1 ==> 0.0 < d < 1.0
  {
    var growth := Pow(1.0 + monthlyRate, months);
    PowPositive(1.0 + monthlyRate, months);
    PowAtLeastOneIfNonNegative(monthlyRate, months);
    1.0 - 1.0 / growth
  }

  lemma PowAtLeastOneIfNonNegative(rate: real, n: nat)
    requires rate > -1.0
    ensures rate >= 0.0 ==> Pow(1.0 + rate, n) >= 1.0
    ensures rate > 0.0 && n >= 1 ==> Pow(1.0 + rate, n) > 1.0
  {
    if rate >= 0.0 { PowAtLeastOne(1.0 + rate, n); }
  }

  /** At a zero rate the denominator vanishes, so the annuity formula divides 0 by 0. */
  lemma ZeroRateDenominatorVanishes(months: nat)
    ensures AnnuityDenominator(0.0, months) == 0.0
  {
    PowOne(months);
  }

  /**
   * The annuity formula as the engine writes it: principal * i / (1 - (1 + i)^(-n)).
   * It is defined only for a positive rate. The payment exceeds the interest
   * of the first month.
   */
  function AnnuityPayment(principal: real, monthlyRate: real, months: nat): (payment: real)
    requires monthlyRate > 0.0 && months >= 1
    ensures principal > 0.0 ==> payment > principal * monthlyRate
    ensures payment * AnnuityDenominator(monthlyRate, months) == principal * monthlyRate
  {
    var d := AnnuityDenominator(monthlyRate, months);
    DivisionByFractionIncreases(principal * monthlyRate, d);
    principal * monthlyRate / d
  }

  lemma DivisionByFractionIncreases(a: real, d: real)
    requires 0.0 < d < 1.0
    ensures (a / d) * d == a
    ensures a > 0.0 ==> a / d > a
  {
    var q := a / d;
    assert q * d == a;
    if a > 0.0 && q <= a {
      MultiplyPreservesOrder(d, q, a);
      MultiplyStrictlyPreservesOrder(a, d, 1.0);
      assert false;
    }
  }

  /**
   * The monthly payment with the zero-rate case handled: principal / n when
   * the rate is zero, the annuity formula otherwise.
   */
  function MonthlyPeriodicPayment(principal: real, monthlyRate: real, months: nat): (payment: real)
    requires monthlyRate >= 0.0 && months >= 1
    ensures monthlyRate == 0.0 ==> payment * (months as real) == principal
    ensures monthlyRate > 0.0 ==> payment * AnnuityDenominator(monthlyRate, months) == principal * monthlyRate
  {
    if monthlyRate == 0.0 then principal / (months as real)
    else AnnuityPayment(principal, monthlyRate, months)
  }

  /**
   * The balance of an exactly computed (unrounded) loan after k monthly
   * payments: each month charges interest on the balance, then the payment
   * is deducted.
   */
  function ExactBalance(principal: real, monthlyRate: real, payment: real, k: nat): real
  {
    if k == 0 then principal
    else ExactBalance(principal, monthlyRate, payment, k - 1) * (1.0 + monthlyRate) - payment
  }

  /**
   * The closed form of a balance b after months that compounded the
   * principal by x in all: b * i == P * i * x - payment * (x - 1).
   */
  predicate ClosedForm(b: real, principal: real, rate: real, payment: real, x: real)
  {
    b * rate == principal * rate * x - payment * (x - 1.0)
  }

  /** The exact balance after k months satisfies the closed form with x = (1 + i)^k. */
  lemma {:induction false} ExactBalanceClosedForm(principal: real, monthlyRate: real, payment: real, k: nat)
    ensures ClosedForm(ExactBalance(principal, monthlyRate, payment, k), principal, monthlyRate, payment,
                       Pow(1.0 + monthlyRate, k))
  {
    if k > 0 {
      ExactBalanceClosedForm(principal, monthlyRate, payment, k - 1);
      ExactBalanceStep(principal, monthlyRate, payment, k);
    }
  }

  /** The closed form carries over from month k - 1 to month k. */
  lemma ExactBalanceStep(principal: real, monthlyRate: real, payment: real, k: nat)
    requires k > 0
    requires ClosedForm(ExactBalance(principal, monthlyRate, payment, k - 1), principal, monthlyRate, payment,
                        Pow(1.0 + monthlyRate, k - 1))
    ensures ClosedForm(ExactBalance(principal, monthlyRate, payment, k), principal, monthlyRate, payment,
                       Pow(1.0 + monthlyRate, k))
  {
    var b := ExactBalance(principal, monthlyRate, payment, k - 1);
    var x := Pow(1.0 + monthlyRate, k - 1);
    assert ExactBalance(principal, monthlyRate, payment, k) == b * (1.0 + monthlyRate) - payment;
    assert Pow(1.0 + monthlyRate, k) == (1.0 + monthlyRate) * x;
    BalanceStep(ExactBalance(principal, monthlyRate, payment, k), b, principal, monthlyRate, payment,
                Pow(1.0 + monthlyRate, k), x);
  }

  /** One month of the closed form, with every quantity abstract. */
  lemma BalanceStep(next: real, b: real, principal: real, rate: real, payment: real, xNext: real, x: real)
    requires next == b * (1.0 + rate) - payment && xNext == (1.0 + rate) * x
    requires ClosedForm(b, principal, rate, payment, x)
    ensures ClosedForm(next, principal, rate, payment, xNext)
  {
    var growth := 1.0 + rate;
    assert (b * growth - payment) * rate == growth * (b * rate) - payment * rate;
    assert growth * (b * rate) == growth * (principal * rate * x) - growth * (payment * (x - 1.0));
  }

  /** At a zero rate the balance falls by one payment each month. */
  lemma {:induction false} ExactBalanceAtZeroRate(principal: real, payment: real, k: nat)
    ensures ExactBalance(principal, 0.0, payment, k) == principal - (k as real) * payment
  {
    if k > 0 { ExactBalanceAtZeroRate(principal, payment, k - 1); }
  }

  /** The monthly payment pays the loan off exactly after the given number of months. */
  lemma MonthlyPaymentAmortizes(principal: real, monthlyRate: real, months: nat)
    requires monthlyRate >= 0.0 && months >= 1
    ensures ExactBalance(principal, monthlyRate, MonthlyPeriodicPayment(principal, monthlyRate, months), months) == 0.0
  {
    var payment := MonthlyPeriodicPayment(principal, monthlyRate, months);
    if monthlyRate == 0.0 {
      ExactBalanceAtZeroRate(principal, payment, months);
    } else {
      AnnuityExcess(payment, principal, monthlyRate, Pow(1.0 + monthlyRate, months),
                    AnnuityDenominator(monthlyRate, months));
      ExactBalanceClosedForm(principal, monthlyRate, payment, months);
      ProductVanishes(ExactBalance(principal, monthlyRate, payment, months), monthlyRate);
    }
  }

  /**
   * With x = (1 + i)^n and d = 1 - 1/x, a payment with payment * d == P * i
   * exceeds the first month's interest by an amount that, over x - 1, makes up
   * that interest; equivalently payment * (x - 1) == P * i * x.
   */
  lemma AnnuityExcess(payment: real, principal: real, rate: real, x: real, d: real)
    requires d * x == x - 1.0
    requires payment * d == principal * rate
    ensures payment * (x - 1.0) == principal * rate * x
    ensures (payment - principal * rate) * (x - 1.0) == principal * rate
  {
    assert payment * (x - 1.0) == (payment * d) * x;
  }

  lemma ProductVanishes(b: real, rate: real)
    requires rate > 0.0 && b * rate == 0.0
    ensures b == 0.0
  {
  }

  /** The monthly payment covers the first month's interest, and at most 1/n of the principal more. */
  lemma MonthlyPaymentBounds(principal: real, monthlyRate: real, months: nat)
    requires monthlyRate >= 0.0 && months >= 1
    requires principal >= 0.0
    ensures 0.0 <= principal * monthlyRate <= MonthlyPeriodicPayment(principal, monthlyRate, months)
    ensures MonthlyPeriodicPayment(principal, monthlyRate, months) <= principal * monthlyRate + principal / (months as real)
  {
    MultiplyPreservesOrder(principal, 0.0, monthlyRate);
    if monthlyRate > 0.0 {
      AnnuityPaymentBounds(principal, monthlyRate, months);
    }
  }

  lemma AnnuityPaymentBounds(principal: real, monthlyRate: real, months: nat)
    requires monthlyRate > 0.0 && months >= 1
    requires principal >= 0.0
    ensures principal * monthlyRate <= AnnuityPayment(principal, monthlyRate, months)
    ensures AnnuityPayment(principal, monthlyRate, months) <= principal * monthlyRate + principal / (months as real)
  {
    Bernoulli(monthlyRate, months);
    AnnuityBounds(AnnuityPayment(principal, monthlyRate, months), principal, monthlyRate,
                  Pow(1.0 + monthlyRate, months), AnnuityDenominator(monthlyRate, months), months as real);
  }

  /** The bounds on an annuity payment, with every quantity abstract. */
  lemma AnnuityBounds(payment: real, principal: real, rate: real, x: real, d: real, n: real)
    requires principal >= 0.0
    requires rate > 0.0
    requires n > 0.0
    requires d * x == x - 1.0
    requires x >= 1.0 + n * rate
    requires payment * d == principal * rate
    ensures principal * rate <= payment <= principal * rate + principal / n
  {
    AnnuityExcess(payment, principal, rate, x, d);
    ExcessBounds(payment - principal * rate, principal, rate, x, n);
  }

  /**
   * An excess e with e * (x - 1) == P * i, where x - 1 >= n * i, lies
   * between 0 and P / n.
   */
  lemma ExcessBounds(excess: real, principal: real, rate: real, x: real, n: real)
    requires principal >= 0.0 && rate > 0.0 && n > 0.0
    requires x >= 1.0 + n * rate
    requires excess * (x - 1.0) == principal * rate
    ensures 0.0 <= excess <= principal / n
  {
    MultiplyPreservesOrder(principal, 0.0, rate);
    MultiplyStrictlyPreservesOrder(n, 0.0, rate);
    if excess < 0.0 {
      MultiplyStrictlyPreservesOrder(x - 1.0, excess, 0.0);
      assert false;
    }
    MultiplyPreservesOrder(excess, n * rate, x - 1.0);
    assert (excess * n) * rate <= principal * rate;
    if excess * n > principal {
      MultiplyStrictlyPreservesOrder(rate, principal, excess * n);
      assert false;
    }
    assert excess * n <= principal;
  }

  /**
   * The nominal payment of each period: the monthly payment converted to
   * the frequency and rounded half-up to cents.
   */
  function PeriodicPayment(principal: int, monthlyRate: real, amortizationPeriod: nat, f: PaymentFrequency): (cents: int)
    requires monthlyRate >= 0.0 && amortizationPeriod >= 1
    ensures principal >= 0 ==> cents >= 0
  {
    var monthly := MonthlyPeriodicPayment(principal as real, monthlyRate, 12 * amortizationPeriod);
    MonthlyPaymentSign(principal as real, monthlyRate, 12 * amortizationPeriod);
    RoundHalfUp(ConvertMonthlyPaymentToPaymentFrequency(monthly, f))
  }

  lemma MonthlyPaymentSign(principal: real, monthlyRate: real, months: nat)
    requires monthlyRate >= 0.0 && months >= 1
    ensures principal >= 0.0 ==> MonthlyPeriodicPayment(principal, monthlyRate, months) >= 0.0
  {
    if principal >= 0.0 { MonthlyPaymentBounds(principal, monthlyRate, months); }
  }

  /** Rounded to cents, an accelerated payment is still at least its counterpart's. */
  lemma AcceleratedPeriodicPaymentAtLeastCounterpart(principal: int, monthlyRate: real, amortizationPeriod: nat, f: PaymentFrequency)
    requires monthlyRate >= 0.0 && amortizationPeriod >= 1
    requires principal >= 0
    requires IsAccelerated(f)
    ensures PeriodicPayment(principal, monthlyRate, amortizationPeriod, f)
         >= PeriodicPayment(principal, monthlyRate, amortizationPeriod, Counterpart(f))
  {
    var monthly := MonthlyPeriodicPayment(principal as real, monthlyRate, 12 * amortizationPeriod);
    MonthlyPaymentBounds(principal as real, monthlyRate, 12 * amortizationPeriod);
    AcceleratedPaysAtLeastCounterpart(monthly, f);
    RoundHalfUpMonotone(ConvertMonthlyPaymentToPaymentFrequency(monthly, Counterpart(f)),
                        ConvertMonthlyPaymentToPaymentFrequency(monthly, f));
  }
}
