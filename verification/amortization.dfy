/**
 * The amortization engine: `calculate_amortization_schedule`, which charges interest on the
 * balance month by month, applies the rest of the payment to principal, clamps the last
 * principal portion to what remains, and stops once the balance is no longer positive.
 */
module Amortization {
  import opened Power
  import opened Calendar
  import opened PaymentSolver

  /** The arguments of one schedule run. */
  datatype Loan = Loan(principal: real, annualRate: real, payment: real, extra: real, start: YearMonth)
  {
    function Rate(): real
    {
      MonthlyRate(annualRate)
    }

    /** What every period repays, at the least, while the balance stays within the principal. */
    function Margin(): real
    {
      payment + extra - principal * Rate()
    }

    /** The schedule loop terminates: nothing is owed, or the payments beat the initial interest. */
    predicate Amortizes()
    {
      principal <= 0.0 || Margin() > 0.0
    }
  }

  /** One schedule row: payment number, date, total paid, interest, principal and remaining balance. */
  datatype Row = Row(number: nat, date: YearMonth, totalPayment: real, interest: real, principalPaid: real, balance: real)

  /** The money columns of the schedule. */
  datatype Column = TotalPaymentColumn | InterestColumn | PrincipalColumn

  function Amount(row: Row, c: Column): real
  {
    match c
    case TotalPaymentColumn => row.totalPayment
    case InterestColumn => row.interest
    case PrincipalColumn => row.principalPaid
  }

  /** The sum of one column over the rows. */
  function Total(rows: seq<Row>, c: Column): real
  {
    if rows == [] then 0.0 else Total(rows[..|rows| - 1], c) + Amount(rows[|rows| - 1], c)
  }

  /** The payment due exceeds what is left: the last period, whose principal portion is clamped. */
  predicate Clamped(opening: real, loan: Loan)
  {
    loan.payment + loan.extra - opening * loan.Rate() > opening
  }

  /**
   * The row of payment `number`, given the balance at the start of that month. Interest
   * accrues on the balance and the payment then comes off it, never below zero; the
   * reported total is what the borrower pays that month.
   */
  function NextRow(opening: real, loan: Loan, number: nat): (row: Row)
    requires ValidDate(loan.start)
    ensures row.number == number && row.date == PaymentDate(loan.start, number)
    ensures row.interest == opening * loan.Rate()
    ensures row.principalPaid + row.balance == opening
    ensures row.totalPayment == row.interest + row.principalPaid
    ensures row.balance >= 0.0
  {
    var interest := opening * loan.Rate();
    var principalPaid := if Clamped(opening, loan) then opening else loan.payment + loan.extra - interest;
    Row(number, PaymentDate(loan.start, number), interest + principalPaid, interest, principalPaid, opening - principalPaid)
  }

  /**
   * What a row means: interest accrues on the opening balance and the payment comes off the
   * result, never below zero; an unclamped row reports the full payment plus the extra.
   */
  lemma NextRowBalance(opening: real, loan: Loan, number: nat)
    requires ValidDate(loan.start)
    ensures NextRow(opening, loan, number).balance ==
              if opening * (1.0 + loan.Rate()) > loan.payment + loan.extra
              then opening * (1.0 + loan.Rate()) - (loan.payment + loan.extra)
              else 0.0
    ensures Clamped(opening, loan) <==> opening * (1.0 + loan.Rate()) < loan.payment + loan.extra
    ensures !Clamped(opening, loan) ==> NextRow(opening, loan, number).totalPayment == loan.payment + loan.extra
  {
    assert opening * (1.0 + loan.Rate()) == opening + opening * loan.Rate();
  }

  /** NextRowBalance with the growth and the payment named, for callers that compare two rows. */
  lemma NextRowBalanceFrom(opening: real, loan: Loan, number: nat, r: real, grown: real, paid: real)
    requires ValidDate(loan.start)
    requires r == loan.Rate() && grown == opening * (1.0 + r) && paid == loan.payment + loan.extra
    ensures NextRow(opening, loan, number).balance == if grown > paid then grown - paid else 0.0
  {
    var row := NextRow(opening, loan, number);
    NextRowBalance(opening, loan, number);
    assert row.balance == if opening * (1.0 + loan.Rate()) > paid then opening * (1.0 + loan.Rate()) - paid else 0.0;
  }

  /** The interest of a row, with the monthly rate named. */
  lemma NextRowInterestAt(opening: real, loan: Loan, number: nat, r: real)
    requires ValidDate(loan.start) && r == loan.Rate()
    ensures NextRow(opening, loan, number).interest == opening * r
  {
    var row := NextRow(opening, loan, number);
    assert row.interest == opening * loan.Rate();
  }

  /**
   * The "Total Payment" the loop reports as it is written: on the clamped row it overwrites the
   * payment with interest plus the remaining balance and then still adds the extra payment on
   * top, although the extra is already inside that balance.
   */
  function AsWrittenTotalPayment(opening: real, loan: Loan): (r: real)
    ensures !Clamped(opening, loan) ==> r == loan.payment + loan.extra
    ensures Clamped(opening, loan) ==> r == opening * loan.Rate() + opening + loan.extra
  {
    var interest := opening * loan.Rate();
    var payment := if Clamped(opening, loan) then interest + opening else loan.payment;
    payment + loan.extra
  }

  /** The reported total agrees with what is paid except on a clamped row, where it overstates it by the extra. */
  lemma AsWrittenTotalOverstatesClampedRow(opening: real, loan: Loan, number: nat)
    requires ValidDate(loan.start)
    ensures AsWrittenTotalPayment(opening, loan) ==
              NextRow(opening, loan, number).totalPayment + (if Clamped(opening, loan) then loan.extra else 0.0)
    ensures loan.extra > 0.0 && Clamped(opening, loan) ==>
              AsWrittenTotalPayment(opening, loan) > NextRow(opening, loan, number).interest + opening
  {
  }

  /** The example loan of the counterexample below: 100 owed at 0%, payment 150 with 50 extra. */
  function OverpaidLoan(): (loan: Loan)
    ensures loan.Rate() == 0.0 && Clamped(100.0, loan)
  {
    Loan(100.0, 0.0, 150.0, 50.0, YearMonth(2024, 1))
  }

  /**
   * 100 owed at 0%, payment 150 with 50 extra: one row pays off the 100, but the reported total is 150.
   */
  lemma AsWrittenTotalCountsExtraTwice()
    ensures AsWrittenTotalPayment(100.0, OverpaidLoan()) == 150.0
    ensures NextRow(100.0, OverpaidLoan(), 1).totalPayment == 100.0
    ensures NextRow(100.0, OverpaidLoan(), 1).balance == 0.0
  {
    var loan := OverpaidLoan();
    assert AsWrittenTotalPayment(100.0, loan) == 100.0 * loan.Rate() + 100.0 + 50.0;
    assert NextRow(100.0, loan, 1).principalPaid == 100.0;
  }

  /** The balance before payment i + 1: the principal, then each row's remaining balance. */
  function Opening(rows: seq<Row>, principal: real, i: nat): real
    requires i <= |rows|
  {
    if i == 0 then principal else rows[i - 1].balance
  }

  /** Every row is the one the loop body computes from the balance left by the row before it. */
  ghost predicate Follows(rows: seq<Row>, loan: Loan)
    decreases |rows|
  {
    && ValidDate(loan.start)
    && (rows != [] ==>
          && Follows(rows[..|rows| - 1], loan)
          && rows[|rows| - 1] == NextRow(Opening(rows, loan.principal, |rows| - 1), loan, |rows|))
  }

  /** Row i of a following sequence is computed from the balance before it. */
  lemma {:induction false} FollowsAt(rows: seq<Row>, loan: Loan, i: nat)
    requires Follows(rows, loan) && i < |rows|
    ensures rows[i] == NextRow(Opening(rows, loan.principal, i), loan, i + 1)
    decreases |rows|
  {
    if i < |rows| - 1 {
      var p := rows[..|rows| - 1];
      FollowsAt(p, loan, i);
      assert Opening(p, loan.principal, i) == Opening(rows, loan.principal, i);
    }
  }

  /**
   * `rows` is the schedule the loop produces: each row follows from the one before, the
   * loop guard `balance > 0` held before every row, and it failed after the last one.
   */
  ghost predicate IsSchedule(rows: seq<Row>, loan: Loan)
  {
    && Follows(rows, loan)
    && (forall i :: 0 <= i < |rows| ==> Opening(rows, loan.principal, i) > 0.0)
    && Opening(rows, loan.principal, |rows|) <= 0.0
  }

  /** The least integer not below x. */
  function Ceil(x: real): (n: int)
    ensures n as real - 1.0 < x <= n as real
  {
    -((-x).Floor)
  }

  lemma FollowsSnoc(rows: seq<Row>, loan: Loan, row: Row)
    requires Follows(rows, loan)
    requires row == NextRow(Opening(rows, loan.principal, |rows|), loan, |rows| + 1)
    ensures Follows(rows + [row], loan)
  {
    var s := rows + [row];
    assert s[..|s| - 1] == rows;
    assert Opening(s, loan.principal, |rows|) == Opening(rows, loan.principal, |rows|);
  }

  lemma OpeningSnoc(rows: seq<Row>, principal: real, row: Row)
    ensures forall i :: 0 <= i <= |rows| ==> Opening(rows + [row], principal, i) == Opening(rows, principal, i)
  {
  }

  lemma TotalSnoc(rows: seq<Row>, row: Row, c: Column)
    ensures Total(rows + [row], c) == Total(rows, c) + Amount(row, c)
  {
    assert (rows + [row])[..|rows|] == rows;
  }

  /** The schedule loop. Money is exact: rounding for display is not modelled. */
  method CalculateAmortizationSchedule(principal: real, annualRate: real, monthlyPayment: real,
                                       extraPayment: real, start: YearMonth)
    returns (schedule: seq<Row>, month: nat, totalInterest: real)
    requires annualRate >= 0.0 && ValidDate(start)
    requires Loan(principal, annualRate, monthlyPayment, extraPayment, start).Amortizes()
    ensures IsSchedule(schedule, Loan(principal, annualRate, monthlyPayment, extraPayment, start))
    ensures month == |schedule|
    ensures forall i :: 0 <= i < |schedule| ==> schedule[i].number == i + 1
    ensures totalInterest == Total(schedule, InterestColumn)
    ensures principal <= 0.0 <==> schedule == []
    ensures schedule != [] ==> schedule[|schedule| - 1].balance == 0.0
    ensures principal > 0.0 ==>
              month <= Ceil(principal / Loan(principal, annualRate, monthlyPayment, extraPayment, start).Margin())
  {
    ghost var loan := Loan(principal, annualRate, monthlyPayment, extraPayment, start);
    ghost var bound := if loan.Margin() > 0.0 then Ceil(principal / loan.Margin()) else 0;
    var rate := MonthlyRate(annualRate);
    var balance := principal;
    schedule := [];
    totalInterest := 0.0;
    month := 0;
    LoopStart(loan, bound);
    while balance > 0.0
      invariant month == |schedule|
      invariant LoopState(loan, bound, schedule, balance, totalInterest)
      decreases bound - month
    {
      var interest := balance * rate;
      totalInterest := totalInterest + interest;
      var principalPayment := monthlyPayment + extraPayment - interest;
      if principalPayment > balance {
        principalPayment := balance;
      }
      var row := Row(month + 1, PaymentDate(start, month + 1), interest + principalPayment, interest, principalPayment,
                     balance - principalPayment);
      LoopStep(loan, bound, schedule, balance, totalInterest - interest, rate, interest, principalPayment, row);
      balance := balance - principalPayment;
      month := month + 1;
      schedule := schedule + [row];
    }
    LoopExit(loan, bound, schedule, balance, totalInterest);
  }

  /**
   * What the loop keeps true between iterations: the rows so far follow the loan, the guard
   * held before each of them, they are numbered from 1, the running total is the interest
   * column, and the balance has fallen by at least one margin per month, which bounds the count.
   */
  ghost predicate LoopState(loan: Loan, bound: int, schedule: seq<Row>, balance: real, totalInterest: real)
  {
    && balance == Opening(schedule, loan.principal, |schedule|)
    && Follows(schedule, loan)
    && (forall i :: 0 <= i < |schedule| ==> Opening(schedule, loan.principal, i) > 0.0)
    && (forall i :: 0 <= i < |schedule| ==> schedule[i].number == i + 1)
    && (loan.principal > 0.0 ==> loan.Margin() > 0.0 && |schedule| <= bound)
    && totalInterest == Total(schedule, InterestColumn)
    && balance <= loan.principal
    && (|schedule| > 0 ==> loan.principal > 0.0)
    && (balance > 0.0 ==> balance <= Target(loan.principal, loan.Margin(), |schedule|))
  }

  /** Before the first pass: no rows, the whole principal owed, no interest yet. */
  lemma LoopStart(loan: Loan, bound: int)
    requires ValidDate(loan.start) && loan.Amortizes()
    requires bound == if loan.Margin() > 0.0 then Ceil(loan.principal / loan.Margin()) else 0
    ensures LoopState(loan, bound, [], loan.principal, 0.0)
  {
  }

  /**
   * When the loop stops, the rows are the loan's schedule: every row but the last left a
   * positive balance and the last one (if any) left none.
   */
  lemma LoopExit(loan: Loan, bound: int, schedule: seq<Row>, balance: real, totalInterest: real)
    requires bound == if loan.Margin() > 0.0 then Ceil(loan.principal / loan.Margin()) else 0
    requires LoopState(loan, bound, schedule, balance, totalInterest) && balance <= 0.0
    ensures IsSchedule(schedule, loan)
    ensures forall i :: 0 <= i < |schedule| ==> schedule[i].number == i + 1
    ensures totalInterest == Total(schedule, InterestColumn)
    ensures loan.principal <= 0.0 <==> schedule == []
    ensures schedule != [] ==> schedule[|schedule| - 1].balance == 0.0
    ensures loan.principal > 0.0 ==> |schedule| <= Ceil(loan.principal / loan.Margin())
  {
    if schedule != [] {
      FollowsAt(schedule, loan, |schedule| - 1);
    }
  }

  /** One pass of the loop body keeps LoopState and stays within the termination bound. */
  lemma LoopStep(loan: Loan, bound: int, schedule: seq<Row>, balance: real, totalInterest: real,
                 rate: real, interest: real, principalPayment: real, row: Row)
    requires ValidDate(loan.start) && loan.annualRate >= 0.0 && loan.Amortizes()
    requires bound == if loan.Margin() > 0.0 then Ceil(loan.principal / loan.Margin()) else 0
    requires LoopState(loan, bound, schedule, balance, totalInterest) && balance > 0.0
    requires rate == loan.Rate() && interest == balance * rate
    requires principalPayment == if loan.payment + loan.extra - interest > balance then balance
                                 else loan.payment + loan.extra - interest
    requires row == Row(|schedule| + 1, PaymentDate(loan.start, |schedule| + 1), interest + principalPayment,
                        interest, principalPayment, balance - principalPayment)
    ensures |schedule| + 1 <= bound
    ensures LoopState(loan, bound, schedule + [row], balance - principalPayment, totalInterest + interest)
  {
    var month := |schedule| + 1;
    var s := schedule + [row];
    LoopBodyComputesRow(loan, balance, rate, interest, principalPayment, month);
    assert row == NextRow(balance, loan, month);
    PeriodProgress(loan, balance, month);
    ProgressStep(loan.principal, loan.Margin(), month, balance, row.balance, bound);
    FollowsSnoc(schedule, loan, row);
    OpeningSnoc(schedule, loan.principal, row);
    TotalSnoc(schedule, row, InterestColumn);
    assert Opening(s, loan.principal, |s|) == row.balance;
    forall i | 0 <= i < |s| ensures Opening(s, loan.principal, i) > 0.0 && s[i].number == i + 1 {
      if i < |schedule| {
        assert Opening(s, loan.principal, i) == Opening(schedule, loan.principal, i);
        assert s[i] == schedule[i];
      }
    }
  }

  /**
   * While the balance stays within the principal, each period lowers it, and unless it
   * reaches zero it falls by at least the margin `payment + extra - principal * rate`.
   */
  lemma PeriodProgress(loan: Loan, opening: real, number: nat)
    requires ValidDate(loan.start) && loan.annualRate >= 0.0
    requires 0.0 < opening <= loan.principal
    requires loan.Margin() > 0.0
    ensures NextRow(opening, loan, number).balance < opening
    ensures NextRow(opening, loan, number).balance == 0.0
            || NextRow(opening, loan, number).balance <= opening - loan.Margin()
    ensures NextRow(opening, loan, number).interest >= 0.0
  {
    MulMonotone(opening, loan.principal, loan.Rate());
    MulMonotone(0.0, opening, loan.Rate());
  }

  /** The row the loop body appends is the one NextRow describes. */
  lemma LoopBodyComputesRow(loan: Loan, opening: real, rate: real, interest: real, principalPayment: real,
                             number: nat)
    requires ValidDate(loan.start)
    requires rate == loan.Rate() && interest == opening * rate
    requires principalPayment == if loan.payment + loan.extra - interest > opening then opening
                                 else loan.payment + loan.extra - interest
    ensures Row(number, PaymentDate(loan.start, number), interest + principalPayment, interest,
                principalPayment, opening - principalPayment) == NextRow(opening, loan, number)
  {
    var row := NextRow(opening, loan, number);
    assert row.interest == interest;
    assert Clamped(opening, loan) == (loan.payment + loan.extra - interest > opening);
    assert row.principalPaid == principalPayment;
  }

  /** The principal less m margins: the most an unfinished balance can be after m periods. */
  function Target(principal: real, margin: real, m: nat): real
  {
    if m == 0 then principal else Target(principal, margin, m - 1) - margin
  }

  lemma {:induction false} TargetIsLinear(principal: real, margin: real, m: nat)
    ensures Target(principal, margin, m) == principal - m as real * margin
  {
    if m > 0 {
      TargetIsLinear(principal, margin, m - 1);
      assert m as real * margin == (m - 1) as real * margin + margin;
    }
  }

  /**
   * The loop's progress bookkeeping: an unfinished balance after m periods is at most
   * `principal - m * margin`, so m never passes the ceiling of `principal / margin`.
   */
  lemma ProgressStep(principal: real, margin: real, m: nat, opening: real, balance: real, bound: int)
    requires m > 0 && margin > 0.0 && 0.0 < opening <= Target(principal, margin, m - 1)
    requires balance == 0.0 || balance <= opening - margin
    requires bound == Ceil(principal / margin)
    ensures balance > 0.0 ==> balance <= Target(principal, margin, m)
    ensures m <= bound
  {
    var k := m - 1;
    TargetIsLinear(principal, margin, k);
    assert k as real * margin < principal;
    var q := principal / margin;
    var diff := principal - k as real * margin;
    assert q - k as real == diff / margin;
    assert diff / margin > 0.0;
  }
}
