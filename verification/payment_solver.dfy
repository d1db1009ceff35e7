/**
 * The closed-form payment amounts of the calculator: the level (annuity) payment for a
 * term, the interest-only minimum payment, the input floor built on it and the default
 * payment offered in the "Calculate Loan Term" mode.
 */
module PaymentSolver {
  import opened Power

  /** The monthly rate of an annual percentage rate: `annual_rate / 100 / 12`. */
  function MonthlyRate(annualRate: real): (r: real)
    ensures annualRate >= 0.0 ==> r >= 0.0
    ensures r > 0.0 <==> annualRate > 0.0
  {
    annualRate / 100.0 / 12.0
  }

  /**
   * The level monthly payment that pays off `principal` in `n` months:
   * `P * r / (1 - (1 + r) ** -n)` when the monthly rate r is positive, else `P / n`.
   */
  function LevelPayment(principal: real, annualRate: real, n: nat): (p: real)
    requires n > 0
    ensures MonthlyRate(annualRate) <= 0.0 ==> p * (n as real) == principal
    ensures MonthlyRate(annualRate) > 0.0 && principal > 0.0 ==> p > principal * MonthlyRate(annualRate)
    ensures principal > 0.0 ==> p > 0.0
  {
    var r := MonthlyRate(annualRate);
    if r > 0.0 then
      PowAboveOne(1.0 + r, n);
      AnnuityPayment(principal, r, Pow(1.0 + r, n))
    else
      principal / (n as real)
  }

  /** The annuity formula `P * r / (1 - 1 / X)` for the growth X = (1 + r)^n over the whole term. */
  function AnnuityPayment(principal: real, r: real, growth: real): (p: real)
    requires r > 0.0 && growth > 1.0
    ensures principal > 0.0 ==> p > principal * r
  {
    LevelPaymentExceedsInterest(principal, r, growth);
    principal * r / (1.0 - 1.0 / growth)
  }

  /** Dividing the interest-only amount by the annuity factor `1 - 1/X`, X > 1, raises it. */
  lemma LevelPaymentExceedsInterest(principal: real, r: real, x: real)
    requires r > 0.0 && x > 1.0
    ensures 1.0 - 1.0 / x > 0.0
    ensures principal > 0.0 ==> principal * r / (1.0 - 1.0 / x) > principal * r
  {
    var f := 1.0 - 1.0 / x;
    assert 0.0 < 1.0 / x < 1.0;
    if principal > 0.0 {
      var i := principal * r;
      assert i > 0.0;
      assert (i / f) * f == i;
      assert (i / f - i) * f == i * (1.0 - f);
    }
  }

  /** The interest-only payment shown as the minimum; 1.0 when the rate is zero. */
  function MinimumPayment(principal: real, annualRate: real): (p: real)
    requires principal >= 0.0 && annualRate >= 0.0
    ensures p >= principal * MonthlyRate(annualRate)
    ensures annualRate > 0.0 ==> p == principal * MonthlyRate(annualRate)
  {
    if annualRate > 0.0 then principal * MonthlyRate(annualRate) else 1.0
  }

  /** The smallest monthly payment the payment input accepts: one cent above the minimum. */
  function InputFloor(principal: real, annualRate: real): (p: real)
    requires principal >= 0.0 && annualRate >= 0.0
    ensures p > principal * MonthlyRate(annualRate)
  {
    MinimumPayment(principal, annualRate) + 0.01
  }

  /** The default monthly payment: `max(min_payment * 1.5, principal / (30 * 12))`. */
  function DefaultPayment(principal: real, annualRate: real): (p: real)
    requires principal >= 0.0 && annualRate >= 0.0
    ensures p >= principal / 360.0 && p >= MinimumPayment(principal, annualRate) * 1.5
    ensures p == principal / 360.0 || p == MinimumPayment(principal, annualRate) * 1.5
  {
    var m := MinimumPayment(principal, annualRate) * 1.5;
    if m >= principal / 360.0 then m else principal / 360.0
  }

  /**
   * Any payment the input floor admits, together with a non-negative extra payment,
   * exceeds the interest on the whole principal, so the schedule loop makes progress.
   */
  lemma FloorGuaranteesAmortization(principal: real, annualRate: real, payment: real, extra: real)
    requires principal >= 0.0 && annualRate >= 0.0 && extra >= 0.0
    requires payment >= InputFloor(principal, annualRate)
    ensures payment + extra > principal * MonthlyRate(annualRate)
  {
  }

  /** For a positive principal the default payment exceeds the interest-only payment. */
  lemma DefaultPaymentAmortizes(principal: real, annualRate: real)
    requires principal > 0.0 && annualRate >= 0.0
    ensures DefaultPayment(principal, annualRate) > principal * MonthlyRate(annualRate)
  {
    var r := MonthlyRate(annualRate);
    if annualRate > 0.0 {
      assert principal * r > 0.0;
    }
  }

  /**
   * The default payment can lie below the input floor: for a zero loan amount at 6% the
   * default is 0.0 while the input refuses anything under 0.01.
   */
  lemma DefaultPaymentBelowFloor()
    ensures DefaultPayment(0.0, 6.0) == 0.0
    ensures DefaultPayment(0.0, 6.0) < InputFloor(0.0, 6.0)
  {
  }

  /** The default payment raised to the input floor when it falls below it. */
  function FlooredDefaultPayment(principal: real, annualRate: real): (p: real)
    requires principal >= 0.0 && annualRate >= 0.0
    ensures p >= InputFloor(principal, annualRate)
    ensures p >= DefaultPayment(principal, annualRate)
    ensures p == DefaultPayment(principal, annualRate) || p == InputFloor(principal, annualRate)
  {
    var d := DefaultPayment(principal, annualRate);
    var f := InputFloor(principal, annualRate);
    if d >= f then d else f
  }

  /** Whenever the source's default already meets the floor, the corrected default is that default. */
  lemma FlooredDefaultKeepsValidDefault(principal: real, annualRate: real)
    requires principal >= 0.0 && annualRate >= 0.0
    requires DefaultPayment(principal, annualRate) >= InputFloor(principal, annualRate)
    ensures FlooredDefaultPayment(principal, annualRate) == DefaultPayment(principal, annualRate)
  {
  }
}
