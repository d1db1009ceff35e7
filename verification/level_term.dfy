/**
 * The level payment fed back into the schedule loop with no extra payment pays the loan off
 * in exactly the term it was computed for (in exact arithmetic).
 */
module LevelTerm {
  import opened Power
  import opened Calendar
  import opened PaymentSolver
  import opened Amortization

  /**
   * The balance left after k level payments, in closed form: with Q = 1 + r and X = Q^n,
   * `P * (X - Q^k) / (X - 1)` when r > 0, and `P - k * (P / n)` when r = 0.
   */
  function LevelBalance(principal: real, annualRate: real, n: nat, k: nat): real
    requires n > 0 && annualRate >= 0.0
  {
    var r := MonthlyRate(annualRate);
    if r > 0.0 then
      PowAboveOne(1.0 + r, n);
      AnnuityBalance(principal, Pow(1.0 + r, n), Pow(1.0 + r, k))
    else
      principal - k as real * LevelPayment(principal, annualRate, n)
  }

  /** `P * (X - Y) / (X - 1)`: the annuity balance when X = Q^n is the growth over the term and Y = Q^k. */
  function AnnuityBalance(principal: real, growth: real, elapsed: real): real
    requires growth > 1.0
  {
    principal * (growth - elapsed) / (growth - 1.0)
  }

  /** One month of the annuity recurrence `B(k) * Q - A == B(k + 1)`, as algebra over reals. */
  lemma AnnuityStep(p: real, r: real, x: real, y: real, y': real, b: real, payment: real, b': real)
    requires r > 0.0 && x > 1.0 && y' == (1.0 + r) * y
    requires b == AnnuityBalance(p, x, y) && payment == AnnuityPayment(p, r, x)
    requires b' == AnnuityBalance(p, x, y')
    ensures b * (1.0 + r) - payment == b'
  {
    var d := x - 1.0;
    assert 1.0 - 1.0 / x == d / x;
    assert payment == p * r * x / d;
    assert b == p * (x - y) / d;
    assert b * (1.0 + r) == p * (x - y) * (1.0 + r) / d;
    assert p * (x - y) * (1.0 + r) - p * r * x == p * (x - (1.0 + r) * y);
  }

  /** The annuity balance is non-negative up to the end of the term and positive before it. */
  lemma AnnuityBalanceSign(p: real, x: real, y: real)
    requires p > 0.0 && x > 1.0 && y <= x
    ensures AnnuityBalance(p, x, 1.0) == p
    ensures AnnuityBalance(p, x, y) >= 0.0
    ensures AnnuityBalance(p, x, y) > 0.0 <==> y < x
  {
    var t := p * (x - y);
    var d := x - 1.0;
    assert t / d * d == t;
    if y < x {
      assert t > 0.0;
    } else {
      assert t == 0.0;
    }
  }

  /** The sign of `p - k * a` when `a * n == p` and a is positive. */
  lemma StraightLineSign(p: real, a: real, n: nat, k: nat)
    requires p > 0.0 && n > 0 && k <= n && a * (n as real) == p
    ensures p - k as real * a >= 0.0
    ensures p - k as real * a > 0.0 <==> k < n
  {
    assert a > 0.0;
    assert p - k as real * a == (n - k) as real * a;
  }

  /** The closed form starts at the principal, ends at zero, and is positive in between. */
  lemma LevelBalanceSign(principal: real, annualRate: real, n: nat, k: nat)
    requires n > 0 && annualRate >= 0.0 && principal > 0.0 && k <= n
    ensures LevelBalance(principal, annualRate, n, 0) == principal
    ensures LevelBalance(principal, annualRate, n, k) >= 0.0
    ensures LevelBalance(principal, annualRate, n, k) > 0.0 <==> k < n
  {
    var r := MonthlyRate(annualRate);
    if r > 0.0 {
      var q := 1.0 + r;
      PowAboveOne(q, n);
      if k < n {
        PowStrictlyIncreasing(q, k, n);
      }
      AnnuityBalanceSign(principal, Pow(q, n), Pow(q, k));
    } else {
      var a := LevelPayment(principal, annualRate, n);
      StraightLineSign(principal, a, n, k);
    }
  }

  /** A month of level payment moves the closed form from k to k + 1. */
  lemma LevelBalanceStep(principal: real, annualRate: real, n: nat, k: nat)
    requires n > 0 && annualRate >= 0.0 && principal > 0.0 && k < n
    ensures LevelBalance(principal, annualRate, n, k) * (1.0 + MonthlyRate(annualRate))
              - LevelPayment(principal, annualRate, n)
            == LevelBalance(principal, annualRate, n, k + 1)
  {
    if MonthlyRate(annualRate) > 0.0 {
      AnnuityBalanceStep(principal, annualRate, n, k);
    }
  }

  /** The step of LevelBalanceStep at a positive rate, through the annuity closed form. */
  lemma AnnuityBalanceStep(principal: real, annualRate: real, n: nat, k: nat)
    requires n > 0 && MonthlyRate(annualRate) > 0.0
    ensures LevelBalance(principal, annualRate, n, k) * (1.0 + MonthlyRate(annualRate))
              - LevelPayment(principal, annualRate, n)
            == LevelBalance(principal, annualRate, n, k + 1)
  {
    var r := MonthlyRate(annualRate);
    var q := 1.0 + r;
    PowAboveOne(q, n);
    var x, y, y' := Pow(q, n), Pow(q, k), Pow(q, k + 1);
    assert y' == q * y;
    var payment := LevelPayment(principal, annualRate, n);
    assert payment == AnnuityPayment(principal, r, x);
    var b := LevelBalance(principal, annualRate, n, k);
    assert b == AnnuityBalance(principal, x, y);
    var b' := LevelBalance(principal, annualRate, n, k + 1);
    assert b' == AnnuityBalance(principal, x, y');
    AnnuityStep(principal, r, x, y, y', b, payment, b');
  }

  /** A schedule run at the level payment with no extra follows the closed form month by month. */
  lemma {:induction false} LevelScheduleTracksClosedForm(rows: seq<Row>, loan: Loan, n: nat, k: nat)
    requires n > 0 && loan.annualRate >= 0.0 && loan.principal > 0.0
    requires loan.payment == LevelPayment(loan.principal, loan.annualRate, n) && loan.extra == 0.0
    requires Follows(rows, loan) && k <= |rows| && k <= n
    ensures Opening(rows, loan.principal, k) == LevelBalance(loan.principal, loan.annualRate, n, k)
  {
    if k == 0 {
      LevelBalanceSign(loan.principal, loan.annualRate, n, 0);
    } else {
      LevelScheduleTracksClosedForm(rows, loan, n, k - 1);
      FollowsAt(rows, loan, k - 1);
      LevelRowStep(loan, n, k);
    }
  }

  /** The loop body at the level payment moves the balance from B(k - 1) to B(k). */
  lemma LevelRowStep(loan: Loan, n: nat, k: nat)
    requires n > 0 && loan.annualRate >= 0.0 && loan.principal > 0.0 && 0 < k <= n
    requires loan.payment == LevelPayment(loan.principal, loan.annualRate, n) && loan.extra == 0.0
    requires ValidDate(loan.start)
    ensures NextRow(LevelBalance(loan.principal, loan.annualRate, n, k - 1), loan, k).balance
            == LevelBalance(loan.principal, loan.annualRate, n, k)
  {
    var o := LevelBalance(loan.principal, loan.annualRate, n, k - 1);
    var b := LevelBalance(loan.principal, loan.annualRate, n, k);
    LevelBalanceSign(loan.principal, loan.annualRate, n, k);
    LevelBalanceStep(loan.principal, loan.annualRate, n, k - 1);
    var grown := o * (1.0 + loan.Rate());
    assert grown - (loan.payment + loan.extra) == b;
    NextRowBalance(o, loan, k);
  }

  /**
   * Round trip: the level payment for n months, fed back into the schedule loop with no
   * extra payment, yields exactly n rows.
   */
  lemma LevelPaymentPaysOffInTerm(rows: seq<Row>, loan: Loan, n: nat)
    requires n > 0 && loan.annualRate >= 0.0 && loan.principal > 0.0
    requires loan.payment == LevelPayment(loan.principal, loan.annualRate, n) && loan.extra == 0.0
    requires IsSchedule(rows, loan)
    ensures |rows| == n
  {
    var m := if |rows| <= n then |rows| else n;
    LevelScheduleTracksClosedForm(rows, loan, n, m);
    LevelBalanceSign(loan.principal, loan.annualRate, n, m);
  }

  /** The level payment always lets the schedule loop terminate. */
  lemma LevelPaymentAmortizes(principal: real, annualRate: real, n: nat, start: YearMonth)
    requires n > 0 && annualRate >= 0.0 && principal >= 0.0
    ensures Loan(principal, annualRate, LevelPayment(principal, annualRate, n), 0.0, start).Amortizes()
  {
  }
}
