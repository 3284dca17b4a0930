# Mortgage amortization schedule, modelled in Dafny

This project models the amortization engine of the Smith Manoeuvre
calculator. The engine takes four inputs:

- a principal;
- a quoted (semi-annually compounded) mortgage rate;
- an amortization period in years;
- one of five payment frequencies.

It then computes four things:

- the effective annual rate;
- the monthly rate;
- the monthly annuity payment;
- that payment's equivalent for the chosen frequency, rounded half-up to the cent.

From these it produces a schedule. In each period the loop charges interest
on the outstanding balance, rounded half-up to the cent. It splits the
payment into interest and principal and appends an entry. It stops once the
balance is no longer positive.

The model has five modules:

- `DecimalOps` covers the two decimal.js operations the engine uses over
  exact reals: `pow` with a whole exponent, and rounding half-up to cents.
- `Frequency` holds the payment frequencies and the number of payments per
  year.
- `Rates` holds the rate conversions.
  - A conversion with a fractional exponent, `(1 + r)^(a/b) - 1`, is stated
    as the relation its result satisfies: `(1 + result)^b == (1 + r)^a`
    with `1 + result > 0`.
  - `Rates.ConversionUnique` shows this relation pins the result down.
- `Payments` holds the annuity payment, its conversion to the frequency and
  its rounding. It also defines an exact, unrounded balance against which
  the annuity formula is proved to amortize.
- `Schedule` holds the loop, written as a `while` method. It also holds the
  functions that specify it:
  - `BalanceAfter` is the balance after k iterations.
  - `EntryAt` is the entry of iteration k.
  - `FollowsLoop` says a sequence is what the loop emits.

  The lemmas about the schedule are stated over `FollowsLoop`.
- `MortgageCalculations` is the entry point. It returns a failure where the
  engine's loop would never terminate.

Money is a whole number of cents. Rounding a dollar amount
`toNearest(0.01, ROUND_HALF_UP)` is the same as rounding the amount in cents
to the nearest integer, with a tie going away from zero.

Two behaviours of the schedule are worth knowing. The first is the code's
own; the second is the model's.

- **The last payment can exceed the nominal payment.** The loop tests
  whether the balance alone is below the nominal payment. So a balance
  slightly under the payment is paid off together with its interest, and
  that last payment is above the nominal one.
  `Schedule.FinalPaymentCanExceedNominal` shows one case: a $999.00
  balance, a $1,000.00 payment and a rate of 0.5% per period give a final
  payment of $1,004.00. `Schedule.ScheduleNominalPayments` states the
  bound that does hold.
- **In the model the number of entries is not exactly payments per year
  times years.** The payment is rounded to cents, and that can leave a few
  cents for one more entry. This also happens with the model's zero-rate
  payment, principal / n, which corrects the source (see "## Findings").
  `MortgageCalculations.ZeroRateYearNeedsThirteenthEntry` shows that
  $1,000.00 over one year at a zero rate pays $83.33 a month and needs a
  thirteenth entry for the last 4 cents. The source gives a NaN payment at
  a zero rate instead (see "## Left out").

## Model

| member | source | states |
|---|---|---|
| DecimalOps.RoundHalfUp | app/components/mortgage-table/mortgageCalculations.tsx:104-107 | the result is the whole number of cents within half a cent of the amount, with a tie going away from zero on either sign |
| DecimalOps.RoundHalfUpMonotone | app/components/mortgage-table/mortgageCalculations.tsx:104-107 | rounding never reverses the order of two amounts |
| DecimalOps.RoundHalfUpSymmetric | app/components/mortgage-table/mortgageCalculations.tsx:123-125 | rounding a negated amount gives the negated rounding (ROUND_HALF_UP is symmetric about zero) |
| DecimalOps.RoundHalfUpWhole | app/components/mortgage-table/mortgageCalculations.tsx:123-125 | an amount that is already whole cents is left unchanged |
| DecimalOps.Bernoulli | app/components/mortgage-table/mortgageCalculations.tsx:101 | the growth factor (1 + i)^n is at least 1 + n·i for a non-negative rate |
| Frequency.NumberOfPaymentsPerYear | app/components/mortgage-table/paymentFrequency.tsx:13-26 | 12 payments exactly for Monthly, 52 exactly for the two weekly frequencies, and 26 otherwise |
| Frequency.Counterpart | app/components/mortgage-table/paymentFrequency.tsx:1-11 | each accelerated frequency pairs with the regular one that pays on the same dates (same payments per year); a regular frequency is its own counterpart |
| Rates.ConvertQuotedRateToAnnual | app/components/mortgage-table/mortgageCalculations.tsx:10-14 | two half-year compoundings give q + q²/4, which is never below a non-negative quoted rate q |
| Rates.QuotedToAnnualStrictlyIncreasing | app/components/mortgage-table/mortgageCalculations.tsx:10-14 | on non-negative quotes a higher quoted rate gives a strictly higher annual rate |
| Rates.IsConversion | app/components/mortgage-table/mortgageCalculations.tsx:23-31 | result is what the conversion makes of rate. Unchanged leaves the rate as it is. Compound(a, b) stands for (1 + rate)^(a/b) − 1: 1 + result is positive and (1 + result)^b equals (1 + rate)^a |
| Rates.AnnualToMonthly | app/components/mortgage-table/mortgageCalculations.tsx:26-30 | the annual-to-monthly conversion (1 + annual)^(1/12) − 1 |
| Rates.PeriodicRateConversion | app/components/mortgage-table/mortgageCalculations.tsx:51-71 | Monthly keeps the monthly rate unchanged, and it is the only frequency that does; every other frequency compounds it with exponent 12 / (payments per year) |
| Rates.AcceleratedSharesRateConversion | app/components/mortgage-table/mortgageCalculations.tsx:58-69 | an accelerated frequency converts the rate exactly as its regular counterpart does |
| Rates.ConversionUnique | app/components/mortgage-table/mortgageCalculations.tsx:23-31 | a rate conversion has at most one result |
| Rates.ConversionSign | app/components/mortgage-table/mortgageCalculations.tsx:51-71 | spreading a non-negative rate over at least as many periods gives a result between 0 and the rate, positive when the rate is positive |
| Rates.MonthlyRateBounds | app/components/mortgage-table/mortgageCalculations.tsx:23-31 | the monthly rate of a non-negative quote lies between 0 and the annual rate, and is positive for a positive quote |
| Rates.PeriodicRateBounds | app/components/mortgage-table/mortgageCalculations.tsx:108-112 | the periodic rate lies between 0 and the monthly rate, and is positive with it |
| Rates.OnePercentQuoteMonthlyRate | app/components/mortgage-table/mortgageCalculations.tsx:23-31 | a quoted rate of 1% gives a monthly rate above 0 and at most 0.1% |
| Rates.RateComposition | app/components/mortgage-table/mortgageCalculations.tsx:93-112 | compounding the periodic rate over one year's payments equals compounding half the quoted rate twice, for every frequency |
| Payments.ConvertMonthlyPaymentToPaymentFrequency | app/components/mortgage-table/mortgageCalculations.tsx:33-49 | over a year the payments add up to 13 monthly payments for an accelerated frequency and 12 otherwise; a non-negative payment stays non-negative |
| Payments.MonthlyPaymentUnchanged | app/components/mortgage-table/mortgageCalculations.tsx:38-39 | Monthly passes the monthly payment through unchanged |
| Payments.AcceleratedPaysAtLeastCounterpart | app/components/mortgage-table/mortgageCalculations.tsx:40-47 | each accelerated payment is at least its regular counterpart's payment |
| Payments.RegularPaysAtMostMonthly | app/components/mortgage-table/mortgageCalculations.tsx:42-47 | a regular frequency pays between 0 and the monthly payment each time |
| Payments.AnnuityDenominator | app/components/mortgage-table/mortgageCalculations.tsx:100-102 | the denominator equals 1 − (1 + i)^(−n), and lies strictly between 0 and 1 for a positive rate and term |
| Payments.ZeroRateDenominatorVanishes | app/components/mortgage-table/mortgageCalculations.tsx:99-102 | at a zero rate the denominator is exactly 0, so the formula divides 0 by 0 |
| Payments.AnnuityPayment | app/components/mortgage-table/mortgageCalculations.tsx:97-103 | the payment times the denominator equals principal × rate, and it exceeds the first month's interest on a positive principal |
| Payments.MonthlyPeriodicPayment | app/components/mortgage-table/mortgageCalculations.tsx:97-103 | at a zero rate, n payments add up to the principal; at a positive rate it satisfies the annuity identity |
| Payments.ExactBalanceClosedForm | app/components/mortgage-table/mortgageCalculations.tsx:97-103 | the unrounded balance after k months satisfies b·i = P·i·(1+i)^k − payment·((1+i)^k − 1) |
| Payments.ExactBalanceAtZeroRate | app/components/mortgage-table/mortgageCalculations.tsx:97-103 | at a zero rate the unrounded balance falls by one payment per month |
| Payments.MonthlyPaymentAmortizes | app/components/mortgage-table/mortgageCalculations.tsx:96-103 | the monthly payment, unrounded, brings the balance to exactly 0 after 12 × years months |
| Payments.MonthlyPaymentBounds | app/components/mortgage-table/mortgageCalculations.tsx:97-103 | the monthly payment covers the first month's interest, and exceeds it by at most principal / n |
| Payments.AnnuityPaymentBounds | app/components/mortgage-table/mortgageCalculations.tsx:97-103 | the same two bounds, for the annuity formula at a positive rate |
| Payments.PeriodicPayment | app/components/mortgage-table/mortgageCalculations.tsx:104-107 | the rounded periodic payment is never negative for a non-negative principal |
| Payments.AcceleratedPeriodicPaymentAtLeastCounterpart | app/components/mortgage-table/mortgageCalculations.tsx:104-107 | after rounding to cents, an accelerated payment is still at least its counterpart's |
| Schedule.AmortizationScheduleEntry | app/components/mortgage-table/mortgageCalculations.tsx:79-85 | one schedule row: payment number, periodic payment, interest, principal and remaining principal, the amounts in cents |
| Schedule.Interest | app/components/mortgage-table/mortgageCalculations.tsx:123-125 | the interest of a period is never negative on a non-negative balance and rate |
| Schedule.InterestMonotone | app/components/mortgage-table/mortgageCalculations.tsx:123-125 | a smaller balance never owes more interest |
| Schedule.PrincipalPortion | app/components/mortgage-table/mortgageCalculations.tsx:126-131 | the principal part is the whole balance when the balance is below the payment, otherwise the payment less the interest |
| Schedule.NextBalance | app/components/mortgage-table/mortgageCalculations.tsx:126-132 | one iteration leaves a non-negative balance. It reaches 0 exactly when the balance is below the payment or equal to it with no interest. It falls exactly when the balance is below the payment or its interest is |
| Schedule.AmortizesDownward | app/components/mortgage-table/mortgageCalculations.tsx:122-132 | if the loop makes progress from one balance, it makes progress from every smaller balance |
| Schedule.BalanceAfter | app/components/mortgage-table/mortgageCalculations.tsx:119-132 | the balance the loop holds after k iterations. It starts at the principal, takes one step of NextBalance while positive, and stays put once the guard fails |
| Schedule.EntryAt | app/components/mortgage-table/mortgageCalculations.tsx:133-139 | the entry of iteration k carries number k + 1, interest on the opening balance, a payment equal to interest plus principal, principal equal to the drop in the balance, and the next balance as its remaining principal |
| Schedule.GenerateSchedule | app/components/mortgage-table/mortgageCalculations.tsx:119-141 | on inputs where the loop makes progress, the method terminates. Its result holds exactly one entry per iteration on a positive balance and ends when the balance is no longer positive |
| Schedule.BalanceNonNegative | app/components/mortgage-table/mortgageCalculations.tsx:122-132 | the balance never becomes negative |
| Schedule.BalanceStaysAmortizing | app/components/mortgage-table/mortgageCalculations.tsx:122-132 | a loop that makes progress at the start keeps making progress, and the balance never exceeds the principal |
| Schedule.BalanceFallsEachIteration | app/components/mortgage-table/mortgageCalculations.tsx:122-140 | after k iterations the balance is paid off or at least k cents below the principal |
| Schedule.AmortizingPaysOff | app/components/mortgage-table/mortgageCalculations.tsx:122-140 | termination: a loop that makes progress reaches a balance of exactly 0 within `principal` iterations |
| Schedule.NonAmortizingNeverPaysOff | app/components/mortgage-table/mortgageCalculations.tsx:122-140 | non-termination: when the payment neither exceeds the balance nor the interest, the balance never drops below the principal, so the loop never ends |
| Schedule.FollowsLoopAmortizes | app/components/mortgage-table/mortgageCalculations.tsx:122-140 | a completed schedule implies the loop made progress from the start, the converse of GenerateSchedule's precondition |
| Schedule.FollowsLoopUnique | app/components/mortgage-table/mortgageCalculations.tsx:119-141 | the loop is deterministic: at most one schedule follows it |
| Schedule.ScheduleChains | app/components/mortgage-table/mortgageCalculations.tsx:133-139 | entries are numbered 1, 2, 3, …; each payment is interest plus principal; each interest is charged on the balance the previous entry left (the principal for the first); each balance falls by the principal paid |
| Schedule.PrefixConservation | app/components/mortgage-table/mortgageCalculations.tsx:127-132 | the principal paid by the first k entries equals the principal minus the balance after k iterations |
| Schedule.SchedulePaysOffPrincipal | app/components/mortgage-table/mortgageCalculations.tsx:119-141 | the schedule is empty exactly when the principal is not positive. Otherwise its last remaining principal is 0 and its principal payments add up to the principal |
| Schedule.ScheduleBalanceDecreases | app/components/mortgage-table/mortgageCalculations.tsx:127-139 | every remaining principal is non-negative and strictly below the previous one, and every entry repays at least one cent of principal |
| Schedule.ScheduleInterestNonIncreasing | app/components/mortgage-table/mortgageCalculations.tsx:123-125 | interest never rises from one entry to the next |
| Schedule.ScheduleNominalPayments | app/components/mortgage-table/mortgageCalculations.tsx:127-135 | every entry but the last reports exactly the nominal payment; the last reports at most the nominal payment plus its own interest |
| Schedule.ZeroRateChargesNoInterest | app/components/mortgage-table/mortgageCalculations.tsx:123-135 | at a zero rate no entry charges interest, and each payment is all principal |
| Schedule.ZeroRateBalanceFalls | app/components/mortgage-table/mortgageCalculations.tsx:122-132 | at a zero rate, while k payments fit in the principal, the balance after k iterations is the principal less k payments |
| Schedule.FinalPaymentCanExceedNominal | app/components/mortgage-table/mortgageCalculations.tsx:127-135 | a $999.00 balance against a $1,000.00 payment at 0.5% yields a single entry of $1,004.00 |
| Schedule.NextBalanceMonotone | app/components/mortgage-table/mortgageCalculations.tsx:126-132 | one iteration from a smaller balance with a larger payment leaves no more |
| Schedule.LargerPaymentLeavesLess | app/components/mortgage-table/mortgageCalculations.tsx:122-132 | a larger payment never leaves a larger balance after the same number of iterations |
| Schedule.LargerPaymentNoLongerSchedule | app/components/mortgage-table/mortgageCalculations.tsx:122-140 | a larger payment never yields a longer schedule |
| MortgageCalculations.CalculateAmortizationSchedule | app/components/mortgage-table/mortgageCalculations.tsx:87-142 | it fails exactly when the loop, started with the computed periodic payment, would never end; otherwise it returns the schedule the loop emits |
| MortgageCalculations.AcceleratedScheduleNoLonger | app/components/mortgage-table/mortgageCalculations.tsx:104-141 | for the same loan, an accelerated frequency's schedule is no longer than its counterpart's |
| MortgageCalculations.ZeroRateYearNeedsThirteenthEntry | app/components/mortgage-table/mortgageCalculations.tsx:104-140 | with the corrected zero-rate payment, $1,000.00 over one year pays $83.33, leaves 4 cents after twelve iterations, and is paid off by the thirteenth |
| MortgageCalculations.SmallLoanNeverPaysOff | app/components/mortgage-table/mortgageCalculations.tsx:96-140 | a $1.00 loan over 25 years or more, at a monthly rate of at most 0.1%, has a payment of 0 cents, makes no progress, and keeps a balance of $1.00 forever |

## Left out

- The fractional powers in `convertAnnaulInterestToMonthly` and `convertMonthlyInterestToPaymentFrequencyInterest` are described by the relation `Rates.IsConversion`.
  - Dafny cannot compute a real root, so the model proves uniqueness and bounds of the result but not that it exists.
- MortgageCalculations.CalculateAmortizationSchedule: takes the monthly and periodic rates as inputs, not the quoted rate, because of the fractional powers above.
  - `Rates.MonthlyRateBounds` and `Rates.PeriodicRateBounds` show that rates converted from a non-negative quote meet its preconditions.
- MortgageCalculations.CalculateAmortizationSchedule: requires non-negative rates and an amortization period of at least one year.
  - In the source, a period of 0 makes the power `-0` and the payment division by 0 produce Infinity/NaN.
  - The input form declares a lowest quoted rate of 0.01% and a shortest period of one year. These are only HTML `min` hints; the change handlers store whatever is typed.
- The precision of decimal.js (20 significant digits, with pow and div rounded at that precision) is not modelled; all arithmetic is exact.
- Principals are whole numbers of cents. The source accepts any decimal principal.
- An engine loop that never ends is modelled as a `Failure(NonAmortizing)` result, not as divergence. `Schedule.NonAmortizingNeverPaysOff` shows the loop would run forever in exactly those cases.
- The three `console.log` calls (lines 113-118) are output only and are left out.
- The components that drive the engine are not part of this model: app/routes/messages.tsx (the input form) and app/components/mortgage-table/index.tsx (the table and its totals).
- Payments.MonthlyPeriodicPayment: at a zero rate it uses principal / n, the correction recorded in "## Findings".
  - The source computes 0 / 0 = NaN there.
  - `lessThan(NaN)` is false, so the else branch makes the balance NaN.
  - The loop then stops after pushing one NaN entry. The model does not reproduce that NaN entry.
- MortgageCalculations.CalculateAmortizationSchedule: inherits that correction, so at a zero rate it returns a full schedule where the source returns a single NaN entry.
- The number of entries equal to payments per year × years is not stated. Rounding the payment to cents can add an entry or leave one out.

## Findings

| source | as written | input that shows it | evidently intended | confidence | as-written member | corrected member |
|---|---|---|---|---|---|---|
| app/components/mortgage-table/mortgageCalculations.tsx:97-103 | the monthly payment is principal × i / (1 − (1 + i)^(−n)) for every rate | a quoted rate of 0: the numerator and the denominator are both 0, so the payment is NaN, and the loop pushes one NaN entry and stops | principal / n at a zero rate, which pays the loan off in n months | not executed | Payments.ZeroRateDenominatorVanishes | Payments.MonthlyPaymentAmortizes |
| app/components/mortgage-table/mortgageCalculations.tsx:122-140 | the loop runs while the balance is positive, with the payment rounded to cents | principal $1.00, quoted rate 1%, 25 years or more, any frequency. The monthly rate is at most 0.1% (`Rates.OnePercentQuoteMonthlyRate`). The payment rounds to $0.00 and the interest to $0.00, so the balance stays $1.00 forever | a schedule that ends, or an error for a loan that cannot amortize | not executed | MortgageCalculations.SmallLoanNeverPaysOff | MortgageCalculations.CalculateAmortizationSchedule |
