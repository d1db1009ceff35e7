/**
 * The three calculation modes of the calculator, as far as they compute: the monthly-payment
 * plan and the interest-saved analysis (both compare the level-payment schedule with and
 * without an extra payment), and the loan-term analysis (one schedule for a chosen payment).
 */
module Scenarios {
  import opened Calendar
  import opened PaymentSolver
  import opened Amortization
  import opened ScheduleLemmas
  import opened LevelTerm
  import opened Savings

  /** The outcome of running the level-payment schedule with and without the extra payment. */
  datatype Comparison = Comparison(
    payment: real,
    schedule: seq<Row>, months: nat, totalInterest: real,
    baseline: seq<Row>, baselineMonths: nat, baselineInterest: real,
    interestSaved: real, timeSaved: int,
    payoff: Duration, baselinePayoff: Duration, saved: Duration)

  /**
   * The "Calculate Monthly Payment" and "Calculate Interest Saved" modes: the level payment
   * for `years` years, the schedule with the extra payment and the baseline without it, the
   * interest and months saved, and the payoff times and time saved split into years and months.
   */
  method CompareWithExtra(principal: real, annualRate: real, years: nat, extra: real, start: YearMonth)
    returns (c: Comparison)
    requires principal >= 0.0 && annualRate >= 0.0 && years >= 1 && extra >= 0.0 && ValidDate(start)
    ensures c.payment == LevelPayment(principal, annualRate, years * 12)
    ensures IsSchedule(c.schedule, Loan(principal, annualRate, c.payment, extra, start))
    ensures IsSchedule(c.baseline, Loan(principal, annualRate, c.payment, 0.0, start))
    ensures c.months == |c.schedule| && c.baselineMonths == |c.baseline|
    ensures c.totalInterest == Total(c.schedule, InterestColumn)
    ensures c.baselineInterest == Total(c.baseline, InterestColumn)
    ensures c.interestSaved == c.baselineInterest - c.totalInterest && c.interestSaved >= 0.0
    ensures c.timeSaved == c.baselineMonths - c.months && c.timeSaved >= 0
    ensures principal > 0.0 ==> c.baselineMonths == years * 12
    ensures principal == 0.0 ==> c.months == 0 && c.baselineMonths == 0 && c.interestSaved == 0.0
    ensures c.payoff.years * 12 + c.payoff.months == c.months && 0 <= c.payoff.months < 12
    ensures c.baselinePayoff.years * 12 + c.baselinePayoff.months == c.baselineMonths
    ensures 0 <= c.baselinePayoff.months < 12
    ensures c.saved.years * 12 + c.saved.months == c.timeSaved && 0 <= c.saved.months < 12
    ensures c.saved.years >= 0
  {
    var n := years * 12;
    var payment := LevelPayment(principal, annualRate, n);
    LevelPaymentAmortizes(principal, annualRate, n, start);
    var schedule, months, totalInterest := CalculateAmortizationSchedule(principal, annualRate, payment, extra, start);
    var baseline, baselineMonths, baselineInterest := CalculateAmortizationSchedule(principal, annualRate, payment, 0.0, start);
    var accelerated := Loan(principal, annualRate, payment, extra, start);
    var base := Loan(principal, annualRate, payment, 0.0, start);
    ExtraPaymentNeverLengthens(schedule, baseline, accelerated, base);
    ExtraPaymentNeverCostsMoreInterest(schedule, baseline, accelerated, base);
    if principal > 0.0 {
      LevelPaymentPaysOffInTerm(baseline, base, n);
    }
    var timeSaved := baselineMonths - months;
    c := Comparison(payment, schedule, months, totalInterest, baseline, baselineMonths, baselineInterest,
                    baselineInterest - totalInterest, timeSaved,
                    SplitMonths(months), SplitMonths(baselineMonths), SplitMonths(timeSaved));
  }

  /** The outcome of the "Calculate Loan Term" mode. */
  datatype TermOutcome =
    | PaymentTooSmall
    | DateOutOfRange
    | Term(schedule: seq<Row>, months: nat, totalInterest: real, payoff: Duration, totalPayments: real)

  /**
   * The "Calculate Loan Term" mode: run the schedule for the chosen payment (which the input
   * widget keeps at or above the interest-only amount plus one cent) and report the payoff
   * time, the total interest and the total paid. There are two errors: no payment was made, or
   * a payment falls after December of `LastYear`, where computing its date raises and the
   * mode shows its exception message instead.
   */
  method LoanTerm(principal: real, annualRate: real, payment: real, extra: real, start: YearMonth)
    returns (outcome: TermOutcome)
    requires principal >= 0.0 && annualRate >= 0.0 && extra >= 0.0 && ValidDate(start)
    requires payment >= InputFloor(principal, annualRate)
    ensures outcome.PaymentTooSmall? <==> principal == 0.0
    ensures outcome.DateOutOfRange? ==>
              forall rows: seq<Row> :: IsSchedule(rows, Loan(principal, annualRate, payment, extra, start)) ==>
                rows != [] && rows[|rows| - 1].date.year > LastYear
    ensures outcome.Term? ==>
              && IsSchedule(outcome.schedule, Loan(principal, annualRate, payment, extra, start))
              && outcome.months == |outcome.schedule| > 0
              && outcome.months <= Ceil(principal / Loan(principal, annualRate, payment, extra, start).Margin())
              && outcome.totalInterest == Total(outcome.schedule, InterestColumn)
              && outcome.payoff.years * 12 + outcome.payoff.months == outcome.months
              && 0 <= outcome.payoff.months < 12
              && outcome.totalPayments == principal + outcome.totalInterest
              && outcome.totalPayments == Total(outcome.schedule, TotalPaymentColumn)
              && forall i :: 0 <= i < |outcome.schedule| ==> outcome.schedule[i].date.year <= LastYear
  {
    FloorGuaranteesAmortization(principal, annualRate, payment, extra);
    var schedule, months, totalInterest := CalculateAmortizationSchedule(principal, annualRate, payment, extra, start);
    var loan := Loan(principal, annualRate, payment, extra, start);
    if months <= 0 || |schedule| == 0 {
      outcome := PaymentTooSmall;
    } else if schedule[|schedule| - 1].date.year > LastYear {
      forall rows: seq<Row> | IsSchedule(rows, loan) ensures rows != [] && rows[|rows| - 1].date.year > LastYear {
        ScheduleUnique(rows, schedule, loan);
      }
      outcome := DateOutOfRange;
    } else {
      DatesWithinLastRow(schedule, loan);
      PaymentsCoverPrincipalAndInterest(schedule, loan);
      outcome := Term(schedule, months, totalInterest, SplitMonths(months), principal + totalInterest);
    }
  }
}
