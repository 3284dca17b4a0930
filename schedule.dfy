/**
 * The schedule generator: the loop that charges each period's interest on the
 * outstanding balance, splits the payment into interest and principal, and
 * stops when the balance reaches zero. All amounts are whole cents; the
 * periodic rate is a non-negative real.
 */
module Schedule {
  import opened DecimalOps

  /** One row of the schedule; every amount is in cents. */
  datatype AmortizationScheduleEntry = AmortizationScheduleEntry(
    paymentNumber: nat,
    periodicPayment: int,
    interestPayment: int,
    principalPayment: int,
    remainingPrincipal: int)

  /** The interest due for one period on a balance, rounded half-up to the cent. */
  function Interest(balance: int, rate: real): (cents: int)
    ensures balance >= 0 && rate >= 0.0 ==> cents >= 0
  {
    ProductNonNegative(balance as real, rate);
    RoundHalfUp(balance as real * rate)
  }

  /** On a non-negative rate, a smaller balance never owes more interest. */
  lemma InterestMonotone(b1: int, b2: int, rate: real)
    requires 0 <= b1 <= b2 && rate >= 0.0
    ensures Interest(b1, rate) <= Interest(b2, rate)
  {
    ProductNonNegative(b1 as real, rate);
    ProductNonNegative(b2 as real, rate);
    MultiplyRightPreservesOrder(b1 as real, b2 as real, rate);
    RoundHalfUpMonotone(b1 as real * rate, b2 as real * rate);
  }

  /**
   * The principal part of one payment: the whole balance when it is below the
   * nominal payment, otherwise whatever of the payment the interest leaves.
   */
  function PrincipalPortion(opening: int, payment: int, interest: int): int
  {
    if opening < payment then opening else payment - interest
  }

  /** The balance after one iteration of the loop body, from a balance of `opening`. */
  function NextBalance(opening: int, payment: int, rate: real): (next: int)
    ensures opening > 0 && rate >= 0.0 ==> next >= 0
    ensures opening > 0 && rate >= 0.0 ==>
      (next == 0 <==> opening < payment || (opening == payment && Interest(opening, rate) == 0))
    ensures opening > 0 ==>
      (next < opening <==> opening < payment || Interest(opening, rate) < payment)
  {
    opening - PrincipalPortion(opening, payment, Interest(opening, rate))
  }

  /**
   * The loop makes progress from `principal` on: the balance is already paid
   * off, falls below the payment, or owes less interest than the payment.
   */
  predicate Amortizes(principal: int, payment: int, rate: real)
  {
    principal <= 0 || principal < payment || Interest(principal, rate) < payment
  }

  /** Progress carries over to every smaller balance. */
  lemma AmortizesDownward(b1: int, b2: int, payment: int, rate: real)
    requires b1 <= b2 && rate >= 0.0
    requires Amortizes(b2, payment, rate)
    ensures Amortizes(b1, payment, rate)
  {
    if b1 > 0 { InterestMonotone(b1, b2, rate); }
  }

  /**
   * The balance the loop holds after k iterations; once the balance is no
   * longer positive the guard fails and it stays as it is.
   */
  function BalanceAfter(principal: int, payment: int, rate: real, k: nat): int
  {
    if k == 0 then principal
    else
      var b := BalanceAfter(principal, payment, rate, k - 1);
      if b <= 0 then b else NextBalance(b, payment, rate)
  }

  /** The entry the loop emits in its (k+1)-th iteration. */
  function EntryAt(principal: int, payment: int, rate: real, k: nat): (e: AmortizationScheduleEntry)
    ensures e.paymentNumber == k + 1
    ensures e.periodicPayment == e.principalPayment + e.interestPayment
    ensures e.interestPayment == Interest(BalanceAfter(principal, payment, rate, k), rate)
    ensures e.principalPayment == BalanceAfter(principal, payment, rate, k) - e.remainingPrincipal
    ensures BalanceAfter(principal, payment, rate, k) > 0 ==>
      e.remainingPrincipal == BalanceAfter(principal, payment, rate, k + 1)
  {
    var opening := BalanceAfter(principal, payment, rate, k);
    var interest := Interest(opening, rate);
    var principalPayment := PrincipalPortion(opening, payment, interest);
    AmortizationScheduleEntry(k + 1, principalPayment + interest, interest, principalPayment, opening - principalPayment)
  }

  /** s is what the first |s| iterations of the loop emit, each on a positive balance. */
  predicate EmittedSoFar(s: seq<AmortizationScheduleEntry>, principal: int, payment: int, rate: real)
  {
    forall k {:trigger s[k]} :: 0 <= k < |s| ==>
      BalanceAfter(principal, payment, rate, k) > 0 && s[k] == EntryAt(principal, payment, rate, k)
  }

  /** One more iteration on a positive balance appends its entry. */
  lemma EmittedSoFarExtends(s: seq<AmortizationScheduleEntry>, principal: int, payment: int, rate: real)
    requires EmittedSoFar(s, principal, payment, rate)
    requires BalanceAfter(principal, payment, rate, |s|) > 0
    ensures EmittedSoFar(s + [EntryAt(principal, payment, rate, |s|)], principal, payment, rate)
  {
    var t := s + [EntryAt(principal, payment, rate, |s|)];
    forall k | 0 <= k < |t|
      ensures BalanceAfter(principal, payment, rate, k) > 0 && t[k] == EntryAt(principal, payment, rate, k)
    {
      if k < |s| { assert t[k] == s[k]; }
    }
  }

  /** s is what the loop emits: one entry per iteration while the balance is positive. */
  predicate FollowsLoop(s: seq<AmortizationScheduleEntry>, principal: int, payment: int, rate: real)
  {
    EmittedSoFar(s, principal, payment, rate) && BalanceAfter(principal, payment, rate, |s|) <= 0
  }

  /** Total principal paid by a sequence of entries. */
  function SumPrincipal(s: seq<AmortizationScheduleEntry>): int
  {
    if s == [] then 0 else SumPrincipal(s[..|s| - 1]) + s[|s| - 1].principalPayment
  }

  /**
   * The loop of the engine: while the balance is positive, charge the rounded
   * interest, take the principal part of the payment, and append the entry.
   */
  method GenerateSchedule(principal: int, periodicPayment: int, rate: real)
    returns (schedule: seq<AmortizationScheduleEntry>)
    requires rate >= 0.0
    requires Amortizes(principal, periodicPayment, rate)
    ensures FollowsLoop(schedule, principal, periodicPayment, rate)
  {
    schedule := [];
    var remainingPrincipal := principal;
    var i: nat := 1;
    while remainingPrincipal > 0
      invariant i == |schedule| + 1
      invariant remainingPrincipal == BalanceAfter(principal, periodicPayment, rate, |schedule|)
      invariant Amortizes(remainingPrincipal, periodicPayment, rate)
      invariant EmittedSoFar(schedule, principal, periodicPayment, rate)
      decreases remainingPrincipal
    {
      var interestPayment := Interest(remainingPrincipal, rate);
      var principalPayment;
      if remainingPrincipal < periodicPayment {
        principalPayment := remainingPrincipal;
      } else {
        principalPayment := periodicPayment - interestPayment;
      }
      ghost var opening, n := remainingPrincipal, |schedule|;
      remainingPrincipal := remainingPrincipal - principalPayment;
      assert remainingPrincipal == NextBalance(opening, periodicPayment, rate) == BalanceAfter(principal, periodicPayment, rate, n + 1);
      AmortizesDownward(remainingPrincipal, opening, periodicPayment, rate);
      var entry := AmortizationScheduleEntry(i, principalPayment + interestPayment, interestPayment, principalPayment, remainingPrincipal);
      assert entry == EntryAt(principal, periodicPayment, rate, n);
      EmittedSoFarExtends(schedule, principal, periodicPayment, rate);
      schedule := schedule + [entry];
      i := i + 1;
    }
  }

  /** With a non-negative principal and rate the balance is never negative. */
  lemma {:induction false} BalanceNonNegative(principal: int, payment: int, rate: real, k: nat)
    requires principal >= 0 && rate >= 0.0
    ensures BalanceAfter(principal, payment, rate, k) >= 0
  {
    if k > 0 { BalanceNonNegative(principal, payment, rate, k - 1); }
  }

  /** A loop that makes progress at the start keeps making progress, below the principal. */
  lemma {:induction false} BalanceStaysAmortizing(principal: int, payment: int, rate: real, k: nat)
    requires rate >= 0.0
    requires Amortizes(principal, payment, rate)
    ensures BalanceAfter(principal, payment, rate, k) <= principal
    ensures Amortizes(BalanceAfter(principal, payment, rate, k), payment, rate)
  {
    if k > 0 {
      BalanceStaysAmortizing(principal, payment, rate, k - 1);
      var b := BalanceAfter(principal, payment, rate, k - 1);
      if b > 0 {
        AmortizesDownward(NextBalance(b, payment, rate), b, payment, rate);
      }
    }
  }

  /** Termination: a loop that makes progress pays the loan off within `principal` iterations. */
  lemma AmortizingPaysOff(principal: nat, payment: int, rate: real)
    requires rate >= 0.0
    requires Amortizes(principal, payment, rate)
    ensures BalanceAfter(principal, payment, rate, principal) == 0
  {
    BalanceFallsEachIteration(principal, payment, rate, principal);
    BalanceNonNegative(principal, payment, rate, principal);
  }

  lemma {:induction false} BalanceFallsEachIteration(principal: nat, payment: int, rate: real, k: nat)
    requires rate >= 0.0
    requires Amortizes(principal, payment, rate)
    ensures BalanceAfter(principal, payment, rate, k) <= 0 || BalanceAfter(principal, payment, rate, k) <= principal - k
  {
    if k > 0 {
      BalanceFallsEachIteration(principal, payment, rate, k - 1);
      BalanceStaysAmortizing(principal, payment, rate, k - 1);
    }
  }

  /**
   * Non-termination: when the payment does not exceed the interest on a
   * principal that is not below it, the balance never falls below the
   * principal, so the loop never ends.
   */
  lemma {:induction false} NonAmortizingNeverPaysOff(principal: int, payment: int, rate: real, k: nat)
    requires principal > 0 && rate >= 0.0
    requires !Amortizes(principal, payment, rate)
    ensures BalanceAfter(principal, payment, rate, k) >= principal
  {
    if k > 0 {
      NonAmortizingNeverPaysOff(principal, payment, rate, k - 1);
      var b := BalanceAfter(principal, payment, rate, k - 1);
      InterestMonotone(principal, b, rate);
    }
  }

  /** A schedule the loop completed means the loop made progress from the start. */
  lemma FollowsLoopAmortizes(s: seq<AmortizationScheduleEntry>, principal: int, payment: int, rate: real)
    requires rate >= 0.0
    requires FollowsLoop(s, principal, payment, rate)
    ensures Amortizes(principal, payment, rate)
  {
    if !Amortizes(principal, payment, rate) {
      NonAmortizingNeverPaysOff(principal, payment, rate, |s|);
    }
  }

  /** Each entry of a completed loop comes from an iteration on a positive balance. */
  lemma LoopEntry(s: seq<AmortizationScheduleEntry>, principal: int, payment: int, rate: real, k: nat)
    requires FollowsLoop(s, principal, payment, rate)
    requires k < |s|
    ensures BalanceAfter(principal, payment, rate, k) > 0
    ensures s[k] == EntryAt(principal, payment, rate, k)
  {
    var e := s[k];
    assert BalanceAfter(principal, payment, rate, k) > 0 && e == EntryAt(principal, payment, rate, k);
  }

  /** A completed loop ran no further than the first iteration whose balance is not positive. */
  lemma LoopStopsBy(s: seq<AmortizationScheduleEntry>, principal: int, payment: int, rate: real, k: nat)
    requires FollowsLoop(s, principal, payment, rate)
    requires BalanceAfter(principal, payment, rate, k) <= 0
    ensures |s| <= k
  {
    if k < |s| {
      LoopEntry(s, principal, payment, rate, k);
      assert false;
    }
  }

  /** The loop is deterministic: at most one schedule follows it. */
  lemma FollowsLoopUnique(s1: seq<AmortizationScheduleEntry>, s2: seq<AmortizationScheduleEntry>,
                          principal: int, payment: int, rate: real)
    requires FollowsLoop(s1, principal, payment, rate) && FollowsLoop(s2, principal, payment, rate)
    ensures s1 == s2
  {
    LoopStopsBy(s1, principal, payment, rate, |s2|);
    LoopStopsBy(s2, principal, payment, rate, |s1|);
    forall k | 0 <= k < |s1|
      ensures s1[k] == s2[k]
    {
      LoopEntry(s1, principal, payment, rate, k);
      LoopEntry(s2, principal, payment, rate, k);
    }
  }

  /**
   * Entries chain: numbers run 1, 2, 3, ...; entry k's interest is charged on
   * the balance entry k - 1 left (the principal for the first); each payment
   * is its interest plus its principal; and the balance falls by exactly the
   * principal paid.
   */
  lemma ScheduleChains(s: seq<AmortizationScheduleEntry>, principal: int, payment: int, rate: real)
    requires FollowsLoop(s, principal, payment, rate)
    ensures forall k :: 0 <= k < |s| ==> s[k].paymentNumber == k + 1
    ensures forall k :: 0 <= k < |s| ==> s[k].periodicPayment == s[k].principalPayment + s[k].interestPayment
    ensures |s| > 0 ==> s[0].interestPayment == Interest(principal, rate)
    ensures |s| > 0 ==> s[0].remainingPrincipal == principal - s[0].principalPayment
    ensures forall k :: 0 < k < |s| ==> s[k].interestPayment == Interest(s[k - 1].remainingPrincipal, rate)
    ensures forall k :: 0 < k < |s| ==> s[k].remainingPrincipal == s[k - 1].remainingPrincipal - s[k].principalPayment
  {
    forall k | 0 < k < |s|
      ensures s[k - 1].remainingPrincipal == BalanceAfter(principal, payment, rate, k)
    {
      assert s[k - 1] == EntryAt(principal, payment, rate, k - 1);
    }
  }

  /** The sum of the principal paid by the first k entries, against the balance left. */
  lemma {:induction false} PrefixConservation(s: seq<AmortizationScheduleEntry>, principal: int, payment: int, rate: real, k: nat)
    requires FollowsLoop(s, principal, payment, rate)
    requires k <= |s|
    ensures SumPrincipal(s[..k]) == principal - BalanceAfter(principal, payment, rate, k)
  {
    if k > 0 {
      PrefixConservation(s, principal, payment, rate, k - 1);
      var prefix := s[..k];
      assert prefix[..k - 1] == s[..k - 1];
      assert prefix[k - 1] == s[k - 1] == EntryAt(principal, payment, rate, k - 1);
      assert SumPrincipal(prefix) == SumPrincipal(s[..k - 1]) + s[k - 1].principalPayment;
    }
  }

  /**
   * Principal conservation: the schedule of a positive principal ends with a
   * balance of exactly zero, and its principal payments add up to the
   * principal; a principal that is not positive yields no entry.
   */
  lemma SchedulePaysOffPrincipal(s: seq<AmortizationScheduleEntry>, principal: int, payment: int, rate: real)
    requires rate >= 0.0
    requires FollowsLoop(s, principal, payment, rate)
    ensures principal <= 0 <==> s == []
    ensures principal > 0 ==> s[|s| - 1].remainingPrincipal == 0
    ensures principal > 0 ==> SumPrincipal(s) == principal
  {
    if principal <= 0 {
      LoopStopsBy(s, principal, payment, rate, 0);
    } else {
      assert |s| > 0;
      BalanceNonNegative(principal, payment, rate, |s|);
      PrefixConservation(s, principal, payment, rate, |s|);
      assert s[..|s|] == s;
      assert s[|s| - 1] == EntryAt(principal, payment, rate, |s| - 1);
    }
  }

  /**
   * Balance monotonicity: each entry leaves a balance that is not negative
   * and strictly below the one before, so each period repays at least one cent.
   */
  lemma ScheduleBalanceDecreases(s: seq<AmortizationScheduleEntry>, principal: int, payment: int, rate: real)
    requires rate >= 0.0
    requires FollowsLoop(s, principal, payment, rate)
    ensures forall k :: 0 <= k < |s| ==> s[k].remainingPrincipal >= 0
    ensures forall k :: 0 <= k < |s| ==> s[k].principalPayment >= 1
    ensures |s| > 0 ==> s[0].remainingPrincipal < principal
    ensures forall k :: 0 < k < |s| ==> s[k].remainingPrincipal < s[k - 1].remainingPrincipal
  {
    FollowsLoopAmortizes(s, principal, payment, rate);
    forall k | 0 <= k < |s|
      ensures 0 <= s[k].remainingPrincipal < BalanceAfter(principal, payment, rate, k)
    {
      BalanceStaysAmortizing(principal, payment, rate, k);
      assert s[k] == EntryAt(principal, payment, rate, k);
    }
    ScheduleChains(s, principal, payment, rate);
  }

  /** Interest never rises from one entry to the next. */
  lemma ScheduleInterestNonIncreasing(s: seq<AmortizationScheduleEntry>, principal: int, payment: int, rate: real)
    requires rate >= 0.0
    requires FollowsLoop(s, principal, payment, rate)
    ensures forall k :: 0 < k < |s| ==> s[k].interestPayment <= s[k - 1].interestPayment
  {
    ScheduleBalanceDecreases(s, principal, payment, rate);
    ScheduleChains(s, principal, payment, rate);
    forall k | 0 < k < |s|
      ensures s[k].interestPayment <= s[k - 1].interestPayment
    {
      var before := if k == 1 then principal else s[k - 2].remainingPrincipal;
      assert s[k - 1].interestPayment == Interest(before, rate);
      InterestMonotone(s[k - 1].remainingPrincipal, before, rate);
    }
  }

  /**
   * Nominal payment stability: every entry but the last reports exactly the
   * nominal payment. The last reports at most the nominal payment plus its
   * own interest, since the payoff test compares the balance alone with the
   * payment.
   */
  lemma ScheduleNominalPayments(s: seq<AmortizationScheduleEntry>, principal: int, payment: int, rate: real)
    requires rate >= 0.0
    requires FollowsLoop(s, principal, payment, rate)
    ensures forall k :: 0 <= k < |s| - 1 ==> s[k].periodicPayment == payment
    ensures |s| > 0 ==> s[|s| - 1].periodicPayment <= payment + s[|s| - 1].interestPayment
  {
    forall k | 0 <= k < |s| - 1
      ensures s[k].periodicPayment == payment
    {
      LoopEntry(s, principal, payment, rate, k);
      LoopEntry(s, principal, payment, rate, k + 1);
    }
    if |s| > 0 {
      LoopEntry(s, principal, payment, rate, 0);
      LoopEntry(s, principal, payment, rate, |s| - 1);
      BalanceNonNegative(principal, payment, rate, |s| - 1);
    }
  }

  /** At a zero rate no entry charges interest. */
  lemma ZeroRateChargesNoInterest(s: seq<AmortizationScheduleEntry>, principal: int, payment: int)
    requires FollowsLoop(s, principal, payment, 0.0)
    ensures forall k :: 0 <= k < |s| ==> s[k].interestPayment == 0 && s[k].periodicPayment == s[k].principalPayment
  {
    forall k | 0 <= k < |s|
      ensures s[k].interestPayment == 0
    {
      LoopEntry(s, principal, payment, 0.0, k);
    }
  }

  /** At a zero rate, while the balance covers the payment, each iteration removes one payment. */
  lemma {:induction false} ZeroRateBalanceFalls(principal: int, payment: int, k: nat)
    requires payment > 0 && k * payment <= principal
    ensures BalanceAfter(principal, payment, 0.0, k) == principal - k * payment
  {
    if k > 0 {
      assert (k - 1) * payment == k * payment - payment;
      ZeroRateBalanceFalls(principal, payment, k - 1);
      RoundHalfUpWhole(0);
      assert Interest(principal - (k - 1) * payment, 0.0) == 0;
    }
  }

  /** A balance of $999.00 against a $1,000.00 payment at 0.5% ends with a $1,004.00 payment. */
  lemma FinalPaymentCanExceedNominal()
    ensures FollowsLoop([AmortizationScheduleEntry(1, 100400, 500, 99900, 0)], 99900, 100000, 0.005)
  {
    assert Interest(99900, 0.005) == 500;
    assert BalanceAfter(99900, 100000, 0.005, 1) == 0;
    assert EntryAt(99900, 100000, 0.005, 0) == AmortizationScheduleEntry(1, 100400, 500, 99900, 0);
  }

  /** One iteration leaves no more with a smaller balance and a larger payment. */
  lemma NextBalanceMonotone(b1: int, b2: int, p1: int, p2: int, rate: real)
    requires 0 < b1 <= b2 && p2 <= p1 && rate >= 0.0
    ensures NextBalance(b1, p1, rate) <= NextBalance(b2, p2, rate)
  {
    InterestMonotone(b1, b2, rate);
  }

  /** A larger payment never leaves a larger balance after the same number of iterations. */
  lemma {:induction false} LargerPaymentLeavesLess(principal: int, p1: int, p2: int, rate: real, k: nat)
    requires principal >= 0 && p2 <= p1 && rate >= 0.0
    ensures BalanceAfter(principal, p1, rate, k) <= BalanceAfter(principal, p2, rate, k)
  {
    if k > 0 {
      LargerPaymentLeavesLess(principal, p1, p2, rate, k - 1);
      BalanceNonNegative(principal, p1, rate, k);
      BalanceNonNegative(principal, p2, rate, k - 1);
      var b1, b2 := BalanceAfter(principal, p1, rate, k - 1), BalanceAfter(principal, p2, rate, k - 1);
      if b1 > 0 {
        NextBalanceMonotone(b1, b2, p1, p2, rate);
      }
    }
  }

  /** A larger payment never yields a longer schedule. */
  lemma LargerPaymentNoLongerSchedule(s1: seq<AmortizationScheduleEntry>, s2: seq<AmortizationScheduleEntry>,
                                      principal: int, p1: int, p2: int, rate: real)
    requires p2 <= p1 && rate >= 0.0
    requires FollowsLoop(s1, principal, p1, rate) && FollowsLoop(s2, principal, p2, rate)
    ensures |s1| <= |s2|
  {
    if principal <= 0 {
      LoopStopsBy(s1, principal, p1, rate, 0);
    } else {
      LargerPaymentLeavesLess(principal, p1, p2, rate, |s2|);
      LoopStopsBy(s1, principal, p1, rate, |s2|);
    }
  }
}
