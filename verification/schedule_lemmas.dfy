/**
 * What a schedule produced by the amortization loop satisfies: balances fall every month and
 * end at exactly zero, principal portions add up to the loan, only the last row is clamped,
 * rows are numbered and dated consecutively, and the schedule is determined by its inputs.
 */
module ScheduleLemmas {
  import opened Power
  import opened Calendar
  import opened Amortization

  /**
   * With a non-negative rate and payments that beat the initial interest, every period
   * charges non-negative interest and lowers the balance, by at least the margin
   * `payment + extra - principal * rate` unless it reaches zero.
   */
  lemma {:induction false} BalanceFallsEachPeriod(rows: seq<Row>, loan: Loan, i: nat)
    requires IsSchedule(rows, loan) && loan.annualRate >= 0.0 && loan.Amortizes()
    requires i < |rows|
    ensures Opening(rows, loan.principal, i) <= loan.principal
    ensures rows[i].interest >= 0.0
    ensures rows[i].balance < Opening(rows, loan.principal, i)
    ensures rows[i].balance == 0.0 || rows[i].balance <= Opening(rows, loan.principal, i) - loan.Margin()
  {
    if i > 0 {
      BalanceFallsEachPeriod(rows, loan, i - 1);
    }
    assert Opening(rows, loan.principal, 0) > 0.0;
    FollowsAt(rows, loan, i);
    PeriodProgress(loan, Opening(rows, loan.principal, i), i + 1);
  }

  /** The loop body runs exactly when there is a positive principal, and it leaves a zero balance. */
  lemma ScheduleEndsAtZero(rows: seq<Row>, loan: Loan)
    requires IsSchedule(rows, loan)
    ensures rows == [] <==> loan.principal <= 0.0
    ensures rows != [] ==> rows[|rows| - 1].balance == 0.0
  {
    if rows != [] {
      assert Opening(rows, loan.principal, 0) > 0.0;
      FollowsAt(rows, loan, |rows| - 1);
    }
  }

  /** The principal portions repay exactly what the balance fell by. */
  lemma {:induction false} PrincipalTelescopes(rows: seq<Row>, loan: Loan)
    requires Follows(rows, loan)
    ensures Total(rows, PrincipalColumn) == loan.principal - Opening(rows, loan.principal, |rows|)
    decreases |rows|
  {
    if rows != [] {
      var p := rows[..|rows| - 1];
      PrincipalTelescopes(p, loan);
      assert Opening(p, loan.principal, |p|) == Opening(rows, loan.principal, |p|);
    }
  }

  /** Principal conservation: the principal portions of a schedule add up to the loan amount. */
  lemma PrincipalConserved(rows: seq<Row>, loan: Loan)
    requires IsSchedule(rows, loan) && loan.principal >= 0.0
    ensures Total(rows, PrincipalColumn) == loan.principal
  {
    PrincipalTelescopes(rows, loan);
    ScheduleEndsAtZero(rows, loan);
  }

  /** Each reported payment is the interest plus the principal portion of its month. */
  lemma {:induction false} PaymentsSplitIntoInterestAndPrincipal(rows: seq<Row>, loan: Loan)
    requires Follows(rows, loan)
    ensures Total(rows, TotalPaymentColumn) == Total(rows, PrincipalColumn) + Total(rows, InterestColumn)
    decreases |rows|
  {
    if rows != [] {
      PaymentsSplitIntoInterestAndPrincipal(rows[..|rows| - 1], loan);
      FollowsAt(rows, loan, |rows| - 1);
    }
  }

  /** The payments of a schedule add up to the principal plus the total interest. */
  lemma PaymentsCoverPrincipalAndInterest(rows: seq<Row>, loan: Loan)
    requires IsSchedule(rows, loan) && loan.principal >= 0.0
    ensures Total(rows, TotalPaymentColumn) == loan.principal + Total(rows, InterestColumn)
  {
    PaymentsSplitIntoInterestAndPrincipal(rows, loan);
    PrincipalConserved(rows, loan);
  }

  /** At a zero rate no month charges interest, so the total interest is zero. */
  lemma {:induction false} ZeroRateChargesNoInterest(rows: seq<Row>, loan: Loan)
    requires Follows(rows, loan) && loan.annualRate == 0.0
    ensures forall i :: 0 <= i < |rows| ==> rows[i].interest == 0.0
    ensures Total(rows, InterestColumn) == 0.0
    decreases |rows|
  {
    if rows != [] {
      var p := rows[..|rows| - 1];
      ZeroRateChargesNoInterest(p, loan);
      FollowsAt(rows, loan, |rows| - 1);
      forall i | 0 <= i < |rows| ensures rows[i].interest == 0.0 {
        if i < |p| {
          assert rows[i] == p[i];
        }
      }
    }
  }

  /**
   * Only the last row can be clamped: every earlier row leaves a positive balance, so it
   * applied the full payment and reports the payment plus the extra.
   */
  lemma ClampOnlyOnFinalRow(rows: seq<Row>, loan: Loan, i: nat)
    requires IsSchedule(rows, loan) && i + 1 < |rows|
    ensures !Clamped(Opening(rows, loan.principal, i), loan)
    ensures rows[i].totalPayment == loan.payment + loan.extra
    ensures rows[i].principalPaid == loan.payment + loan.extra - rows[i].interest
  {
    FollowsAt(rows, loan, i);
    NextRowBalance(Opening(rows, loan.principal, i), loan, i + 1);
    assert Opening(rows, loan.principal, i + 1) > 0.0;
  }

  /** Rows are numbered 1, 2, ... and fall in consecutive calendar months after the start. */
  lemma RowsNumberedAndDated(rows: seq<Row>, loan: Loan, i: nat)
    requires Follows(rows, loan) && i < |rows|
    ensures rows[i].number == i + 1
    ensures ValidDate(rows[i].date) && MonthIndex(rows[i].date) == MonthIndex(loan.start) + i + 1
    ensures i + 1 < |rows| ==> rows[i + 1].date == NextMonth(rows[i].date)
  {
    FollowsAt(rows, loan, i);
    if i + 1 < |rows| {
      FollowsAt(rows, loan, i + 1);
      PaymentDatesConsecutive(loan.start, i + 1);
    }
  }

  /** Payment dates only move forward: no row lies in a later year than the last one. */
  lemma DatesWithinLastRow(rows: seq<Row>, loan: Loan)
    requires Follows(rows, loan) && rows != []
    ensures forall i :: 0 <= i < |rows| ==> rows[i].date.year <= rows[|rows| - 1].date.year
  {
    var last := |rows| - 1;
    RowsNumberedAndDated(rows, loan, last);
    forall i | 0 <= i < |rows| ensures rows[i].date.year <= rows[last].date.year {
      RowsNumberedAndDated(rows, loan, i);
      YearsInOrder(rows[i].date, rows[last].date);
    }
  }

  /** One underpaid period: from at least the principal, the balance does not fall. */
  lemma UnderpaidPeriod(o: real, loan: Loan, number: nat)
    requires ValidDate(loan.start) && loan.annualRate >= 0.0 && 0.0 < loan.principal <= o
    requires loan.payment + loan.extra <= loan.principal * loan.Rate()
    ensures NextRow(o, loan, number).balance >= o
  {
    var r, paid := loan.Rate(), loan.payment + loan.extra;
    var owed, grown := o * r, o * (1.0 + r);
    ScaledMonotone(loan.principal, o, r, loan.principal * r, owed);
    assert grown == o + owed by { assert o * (1.0 + r) == o * 1.0 + o * r; }
    NextRowBalanceFrom(o, loan, number, r, grown, paid);
  }

  /**
   * When the payments do not exceed the interest on the principal, no month lowers the
   * balance below the principal: the loop's guard `balance > 0` never fails.
   */
  lemma {:induction false} UnderpaymentNeverAmortizes(rows: seq<Row>, loan: Loan)
    requires Follows(rows, loan) && loan.annualRate >= 0.0 && loan.principal > 0.0
    requires loan.payment + loan.extra <= loan.principal * loan.Rate()
    ensures forall i :: 0 <= i <= |rows| ==> Opening(rows, loan.principal, i) >= loan.principal
    decreases |rows|
  {
    if rows != [] {
      var p := rows[..|rows| - 1];
      UnderpaymentNeverAmortizes(p, loan);
      var o := Opening(rows, loan.principal, |p|);
      assert o == Opening(p, loan.principal, |p|);
      FollowsAt(rows, loan, |p|);
      UnderpaidPeriod(o, loan, |p| + 1);
      forall i | 0 <= i <= |rows| ensures Opening(rows, loan.principal, i) >= loan.principal {
        if i <= |p| {
          assert Opening(rows, loan.principal, i) == Opening(p, loan.principal, i);
        }
      }
    }
  }

  /** Hence an underpaying loan has no finite schedule: the source's loop runs forever. */
  lemma NoScheduleWhenUnderpaid(rows: seq<Row>, loan: Loan)
    requires loan.annualRate >= 0.0 && loan.principal > 0.0
    requires loan.payment + loan.extra <= loan.principal * loan.Rate()
    ensures !IsSchedule(rows, loan)
  {
    if Follows(rows, loan) {
      UnderpaymentNeverAmortizes(rows, loan);
    }
  }

  /** Two schedules that follow the same loan agree on their first k rows. */
  lemma {:induction false} SchedulesAgree(a: seq<Row>, b: seq<Row>, loan: Loan, k: nat)
    requires Follows(a, loan) && Follows(b, loan) && k <= |a| && k <= |b|
    ensures a[..k] == b[..k]
  {
    if k > 0 {
      SchedulesAgree(a, b, loan, k - 1);
      FollowsAt(a, loan, k - 1);
      FollowsAt(b, loan, k - 1);
      assert Opening(a, loan.principal, k - 1) == Opening(b, loan.principal, k - 1);
      assert a[..k] == a[..k - 1] + [a[k - 1]];
      assert b[..k] == b[..k - 1] + [b[k - 1]];
    }
  }

  /** The schedule is determined by the loan: the loop's output is the only one IsSchedule admits. */
  lemma ScheduleUnique(a: seq<Row>, b: seq<Row>, loan: Loan)
    requires IsSchedule(a, loan) && IsSchedule(b, loan)
    ensures a == b
  {
    var m := if |a| <= |b| then |a| else |b|;
    SchedulesAgree(a, b, loan, m);
    assert Opening(a, loan.principal, m) == Opening(b, loan.principal, m);
    assert a[..|a|] == a && b[..|b|] == b;
  }
}
