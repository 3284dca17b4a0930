/**
 * The entry point: from the principal, the monthly and periodic rates, the
 * amortization period in years and the frequency, the nominal periodic
 * payment and the schedule the loop produces.
 */
module MortgageCalculations {
  import opened Frequency
  import opened Payments
  import opened Schedule

  /** The loop would never reach a zero balance for these inputs. */
  datatype ScheduleError = NonAmortizing

  datatype Result<T> = Success(value: T) | Failure(error: ScheduleError)

  /**
   * The schedule for a principal in cents. The rates come from the rate
   * conversions; both are non-negative for a non-negative quoted rate.
   * Where the engine's loop would run forever the result is a failure.
   */
  method CalculateAmortizationSchedule(principal: int, monthlyRate: real, periodicRate: real,
                                       amortizationPeriod: nat, f: PaymentFrequency)
    returns (result: Result<seq<AmortizationScheduleEntry>>)
    requires monthlyRate >= 0.0 && periodicRate >= 0.0
    requires amortizationPeriod >= 1
    ensures result.Failure? <==>
      !Amortizes(principal, PeriodicPayment(principal, monthlyRate, amortizationPeriod, f), periodicRate)
    ensures result.Success? ==>
      FollowsLoop(result.value, principal, PeriodicPayment(principal, monthlyRate, amortizationPeriod, f), periodicRate)
  {
    var periodicPayment := PeriodicPayment(principal, monthlyRate, amortizationPeriod, f);
    if !Amortizes(principal, periodicPayment, periodicRate) {
      return Failure(NonAmortizing);
    }
    var schedule := GenerateSchedule(principal, periodicPayment, periodicRate);
    return Success(schedule);
  }

  /**
   * For equal principal, rates and term, the schedule of an accelerated
   * frequency is no longer than that of its counterpart.
   */
  lemma AcceleratedScheduleNoLonger(principal: int, monthlyRate: real, periodicRate: real, amortizationPeriod: nat,
                                    f: PaymentFrequency,
                                    accelerated: seq<AmortizationScheduleEntry>, regular: seq<AmortizationScheduleEntry>)
    requires monthlyRate >= 0.0 && periodicRate >= 0.0 && amortizationPeriod >= 1
    requires principal >= 0 && IsAccelerated(f)
    requires FollowsLoop(accelerated, principal, PeriodicPayment(principal, monthlyRate, amortizationPeriod, f), periodicRate)
    requires FollowsLoop(regular, principal, PeriodicPayment(principal, monthlyRate, amortizationPeriod, Counterpart(f)), periodicRate)
    ensures |accelerated| <= |regular|
  {
    AcceleratedPeriodicPaymentAtLeastCounterpart(principal, monthlyRate, amortizationPeriod, f);
    LargerPaymentNoLongerSchedule(accelerated, regular, principal,
                                  PeriodicPayment(principal, monthlyRate, amortizationPeriod, f),
                                  PeriodicPayment(principal, monthlyRate, amortizationPeriod, Counterpart(f)),
                                  periodicRate);
  }

  /**
   * A loan of $1.00 over 25 years or more, at a monthly rate of at most 0.1%
   * (a quoted rate of 1%, say): the payment rounds to zero cents, so the
   * engine's loop keeps a balance of $1.00 forever.
   */
  lemma SmallLoanNeverPaysOff(monthlyRate: real, periodicRate: real, amortizationPeriod: nat, f: PaymentFrequency, k: nat)
    requires 0.0 < monthlyRate <= 0.001
    requires 0.0 <= periodicRate <= monthlyRate
    requires amortizationPeriod >= 25
    ensures PeriodicPayment(100, monthlyRate, amortizationPeriod, f) == 0
    ensures !Amortizes(100, 0, periodicRate)
    ensures BalanceAfter(100, 0, periodicRate, k) >= 100
  {
    var months := 12 * amortizationPeriod;
    var monthly := MonthlyPeriodicPayment(100.0, monthlyRate, months);
    MonthlyPaymentBounds(100.0, monthlyRate, months);
    assert 100.0 / (months as real) <= 1.0 / 3.0;
    assert monthly < 0.5;
    var converted := ConvertMonthlyPaymentToPaymentFrequency(monthly, f);
    assert 0.0 <= converted <= monthly;
    assert 100.0 * periodicRate <= 0.1;
    assert Interest(100, periodicRate) == 0;
    NonAmortizingNeverPaysOff(100, 0, periodicRate, k);
  }

  /**
   * With the zero-rate payment principal / n, $1,000.00 over one year pays
   * $83.33 a month; twelve payments leave 4 cents, so a thirteenth entry
   * follows.
   */
  lemma ZeroRateYearNeedsThirteenthEntry()
    ensures PeriodicPayment(100000, 0.0, 1, Monthly) == 8333
    ensures BalanceAfter(100000, 8333, 0.0, 12) == 4
    ensures BalanceAfter(100000, 8333, 0.0, 13) == 0
  {
    assert MonthlyPeriodicPayment(100000.0, 0.0, 12) == 100000.0 / 12.0;
    ZeroRateBalanceFalls(100000, 8333, 12);
    assert Interest(4, 0.0) == 0;
  }
}
