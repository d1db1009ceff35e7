/**
 * Comparing a schedule with extra payments against the same loan without them (or with a
 * smaller extra): the balance is never higher, the loan is never paid off later, and the
 * interest paid is never larger, so the reported savings are never negative.
 */
module Savings {
  import opened Power
  import opened Calendar
  import opened Amortization

  /** `accelerated` is `base` with a larger (or equal) extra payment and nothing else changed. */
  predicate PaysMoreExtra(accelerated: Loan, base: Loan)
  {
    accelerated == base.(extra := accelerated.extra) && accelerated.extra >= base.extra
  }

  /** One period: a lower opening balance and a larger payment leave a lower (or equal) balance. */
  lemma StepMonotone(a: real, b: real, la: Loan, lb: Loan, number: nat)
    requires PaysMoreExtra(la, lb) && la.annualRate >= 0.0 && ValidDate(la.start)
    requires a <= b
    ensures NextRow(a, la, number).balance <= NextRow(b, lb, number).balance
  {
    assert la.annualRate == lb.annualRate && la.payment == lb.payment && la.start == lb.start;
    var r := la.Rate();
    assert lb.Rate() == r;
    var paidA, paidB := la.payment + la.extra, lb.payment + lb.extra;
    var grownA, grownB := a * (1.0 + r), b * (1.0 + r);
    ScaledMonotone(a, b, 1.0 + r, grownA, grownB);
    var rowA, rowB := NextRow(a, la, number), NextRow(b, lb, number);
    NextRowBalanceFrom(a, la, number, r, grownA, paidA);
    NextRowBalanceFrom(b, lb, number, r, grownB, paidB);
    assert rowA.balance == if grownA > paidA then grownA - paidA else 0.0;
    assert rowB.balance == if grownB > paidB then grownB - paidB else 0.0;
  }

  /** Month by month, the schedule with more extra owes no more than the one with less. */
  lemma {:induction false} MoreExtraLowersBalance(acc: seq<Row>, base: seq<Row>, la: Loan, lb: Loan, k: nat)
    requires Follows(acc, la) && Follows(base, lb)
    requires PaysMoreExtra(la, lb) && la.annualRate >= 0.0
    requires k <= |acc| && k <= |base|
    ensures Opening(acc, la.principal, k) <= Opening(base, lb.principal, k)
  {
    if k > 0 {
      MoreExtraLowersBalance(acc, base, la, lb, k - 1);
      FollowsAt(acc, la, k - 1);
      FollowsAt(base, lb, k - 1);
      StepMonotone(Opening(acc, la.principal, k - 1), Opening(base, lb.principal, k - 1), la, lb, k);
    }
  }

  /** Extra payments never lengthen the schedule: the months saved are never negative. */
  lemma ExtraPaymentNeverLengthens(acc: seq<Row>, base: seq<Row>, la: Loan, lb: Loan)
    requires IsSchedule(acc, la) && IsSchedule(base, lb)
    requires PaysMoreExtra(la, lb) && la.annualRate >= 0.0
    ensures |acc| <= |base|
  {
    if |acc| > |base| {
      MoreExtraLowersBalance(acc, base, la, lb, |base|);
    }
  }

  /** Adding row m to the first m rows adds its amount to the column total. */
  lemma TotalPrefixStep(rows: seq<Row>, m: nat, c: Column)
    requires m < |rows|
    ensures Total(rows[..m + 1], c) == Total(rows[..m], c) + Amount(rows[m], c)
  {
    assert rows[..m + 1][..m] == rows[..m];
  }

  /** A lower opening balance accrues no more interest at the same non-negative rate. */
  lemma InterestMonotone(a: real, b: real, la: Loan, lb: Loan, number: nat)
    requires PaysMoreExtra(la, lb) && la.annualRate >= 0.0 && ValidDate(la.start)
    requires a <= b
    ensures NextRow(a, la, number).interest <= NextRow(b, lb, number).interest
  {
    assert la.annualRate == lb.annualRate && la.start == lb.start;
    var r := la.Rate();
    assert lb.Rate() == r;
    var rowA, rowB := NextRow(a, la, number), NextRow(b, lb, number);
    NextRowInterestAt(a, la, number, r);
    NextRowInterestAt(b, lb, number, r);
    ScaledMonotone(a, b, r, rowA.interest, rowB.interest);
  }

  /** In month i the schedule with more extra charges no more interest. */
  lemma RowInterestCompare(acc: seq<Row>, base: seq<Row>, la: Loan, lb: Loan, i: nat)
    requires Follows(acc, la) && Follows(base, lb)
    requires PaysMoreExtra(la, lb) && la.annualRate >= 0.0
    requires i < |acc| && i < |base|
    ensures acc[i].interest <= base[i].interest
  {
    var a, b := Opening(acc, la.principal, i), Opening(base, lb.principal, i);
    MoreExtraLowersBalance(acc, base, la, lb, i);
    FollowsAt(acc, la, i);
    FollowsAt(base, lb, i);
    InterestMonotone(a, b, la, lb, i + 1);
  }

  /** Row by row over the first m months, the schedule with more extra charges no more interest. */
  lemma {:induction false} InterestPrefixesCompare(acc: seq<Row>, base: seq<Row>, la: Loan, lb: Loan, m: nat)
    requires Follows(acc, la) && Follows(base, lb)
    requires PaysMoreExtra(la, lb) && la.annualRate >= 0.0
    requires m <= |acc| && m <= |base|
    ensures Total(acc[..m], InterestColumn) <= Total(base[..m], InterestColumn)
  {
    if m > 0 {
      InterestPrefixesCompare(acc, base, la, lb, m - 1);
      TotalPrefixStep(acc, m - 1, InterestColumn);
      TotalPrefixStep(base, m - 1, InterestColumn);
      RowInterestCompare(acc, base, la, lb, m - 1);
    }
  }

  /** In a schedule at a non-negative rate the interest column only grows as rows are added. */
  lemma {:induction false} InterestPrefixGrows(rows: seq<Row>, loan: Loan, m: nat)
    requires IsSchedule(rows, loan) && loan.annualRate >= 0.0
    requires m <= |rows|
    ensures Total(rows[..m], InterestColumn) <= Total(rows, InterestColumn)
    decreases |rows| - m
  {
    if m < |rows| {
      InterestPrefixGrows(rows, loan, m + 1);
      TotalPrefixStep(rows, m, InterestColumn);
      FollowsAt(rows, loan, m);
      assert Opening(rows, loan.principal, m) > 0.0;
      MulMonotone(0.0, Opening(rows, loan.principal, m), loan.Rate());
    } else {
      assert rows[..m] == rows;
    }
  }

  /** Extra payments never cost more interest: the interest saved is never negative. */
  lemma ExtraPaymentNeverCostsMoreInterest(acc: seq<Row>, base: seq<Row>, la: Loan, lb: Loan)
    requires IsSchedule(acc, la) && IsSchedule(base, lb)
    requires PaysMoreExtra(la, lb) && la.annualRate >= 0.0
    ensures Total(acc, InterestColumn) <= Total(base, InterestColumn)
  {
    ExtraPaymentNeverLengthens(acc, base, la, lb);
    InterestPrefixesCompare(acc, base, la, lb, |acc|);
    InterestPrefixGrows(base, lb, |acc|);
    assert acc[..|acc|] == acc;
  }
}
