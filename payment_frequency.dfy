/**
 * The payment frequencies a borrower can choose and how many payments each
 * makes in a year.
 */
module Frequency {

  datatype PaymentFrequency =
    | Monthly
      /** Half the monthly payment, 26 times a year. */
    | AcceleratedBiWeekly
      /** The monthly payment times 12 / 26, 26 times a year. */
    | BiWeekly
      /** A quarter of the monthly payment, 52 times a year. */
    | AcceleratedWeekly
      /** The monthly payment times 12 / 52, 52 times a year. */
    | Weekly

  /** The accelerated variants pay a plain fraction of the monthly payment. */
  predicate IsAccelerated(f: PaymentFrequency)
  {
    f == AcceleratedBiWeekly || f == AcceleratedWeekly
  }

  function NumberOfPaymentsPerYear(f: PaymentFrequency): (n: nat)
    ensures n == 12 || n == 26 || n == 52
    ensures n == 12 <==> f == Monthly
    ensures n == 52 <==> f == AcceleratedWeekly || f == Weekly
  {
    match f
    case Monthly => 12
    case AcceleratedBiWeekly | BiWeekly => 26
    case AcceleratedWeekly | Weekly => 52
  }

  /** The non-accelerated frequency that pays on the same dates as f. */
  function Counterpart(f: PaymentFrequency): (g: PaymentFrequency)
    ensures !IsAccelerated(g)
    ensures NumberOfPaymentsPerYear(g) == NumberOfPaymentsPerYear(f)
    ensures !IsAccelerated(f) ==> g == f
  {
    match f
    case AcceleratedBiWeekly => BiWeekly
    case AcceleratedWeekly => Weekly
    case _ => f
  }
}
