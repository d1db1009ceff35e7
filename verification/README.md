# Loan amortization engine — a Dafny model

A Streamlit loan calculator (`loanapp.py`) has one piece of real logic: its amortization engine.
This project models that engine and proves what it promises.

- **Schedule generator** `calculate_amortization_schedule`. It is a loop. While the balance is
  positive, it does the following each month:
  - charges interest on the balance;
  - applies the payment plus the extra payment, minus that interest, to principal;
  - on the last month, clamps the principal portion to what is left;
  - dates the row in the next calendar month.

  It returns the rows, the month count and the total interest.
- **Level payment.** The annuity formula `P·r / (1 − (1+r)^−n)`, or `P/n` at a zero rate.
- **Loan-term inputs.** The interest-only minimum payment, the default payment, and the input
  floor "minimum plus one cent" that the payment widget enforces.
- **The three calculation modes:**
  - *Monthly payment* and *interest saved* each run the schedule twice, with and without the
    extra payment. They subtract interest totals and month counts.
  - *Loan term* runs the schedule once for a chosen payment. It reports the payoff time and the
    total paid.
  - All three split month counts into years and months.

Money is exact `real`. The term `(1+r)^−n` is written `1 / Pow(1+r, n)`. Calendar dates are
(year, month) pairs.

The schedule generator is an imperative method:
- a `while` loop over the balance, the month counter and the running interest total;
- a `seq` of rows that it appends to.

It is proved against the predicate `IsSchedule`, which is true when:
- every row is the loop body's result (`NextRow`) on the balance left by the row before;
- the loop guard held before every row;
- the guard failed after the last row.

`ScheduleUnique` shows that this predicate determines the rows. Every other property is proved
about `IsSchedule`.

The source loop has no guard against a payment that never amortizes. The model's method
therefore requires `Loan.Amortizes()`: the principal is not positive, or the payment plus the
extra exceeds the interest on the principal. Under that precondition the method proves the loop
ends within `⌈principal / (payment + extra − principal·r)⌉` months. `NoScheduleWhenUnderpaid`
shows that without it no finite schedule exists.

The code has no iteration limit and raises no error for a payment that never amortizes. In the
loan-term mode the payment widget's floor `min_payment + 0.01` (loanapp.py:685) excludes that
case (`FloorGuaranteesAmortization`). The other two modes use the level payment, which always
lets the loop terminate (`LevelTerm.LevelPaymentAmortizes`).

Module layout:
- `Power` (`power.dfy`): `Pow` and its monotonicity.
- `Calendar` (`calendar.dfy`): payment dates and the years/months split.
- `PaymentSolver` (`payment_solver.dfy`): monthly rate, level payment, minimum and default payment, input floor.
- `Amortization` (`amortization.dfy`): rows, the loop body, the schedule predicate and the schedule method.
- `ScheduleLemmas` (`schedule_lemmas.dfy`): invariants and conservation laws of a schedule.
- `LevelTerm` (`level_term.dfy`): the level payment paid back in exactly its term.
- `Savings` (`savings.dfy`): the extra payment never lengthens the loan or raises its interest.
- `Scenarios` (`scenarios.dfy`): the three calculation modes.

## Model

| member | source | states |
|---|---|---|
| Calendar.PaymentDate | loanapp.py:230-231 | the date of payment k is a valid month (1..12) exactly k months after the start month |
| Calendar.NextMonth | loanapp.py:230-231 | the following calendar month is valid and one month later, with December wrapping to January |
| Calendar.MonthIndexInjective | loanapp.py:230-231 | two valid (year, month) pairs with the same month count are the same date |
| Calendar.PaymentDatesConsecutive | loanapp.py:230-231 | payment k+1 falls in the calendar month right after payment k |
| Calendar.SplitMonths | loanapp.py:569 | a month count splits into years and months with `years*12 + months == total`, `0 <= months < 12`, and non-negative years for a non-negative count |
| PaymentSolver.MonthlyRate | loanapp.py:210 | the monthly rate is non-negative for a non-negative annual rate, and positive exactly when the annual rate is |
| PaymentSolver.LevelPayment | loanapp.py:556 | at a zero rate n payments add up to the principal; at a positive rate the payment exceeds the interest-only amount `principal·r`; it is positive for a positive principal (the same formula is at line 792) |
| PaymentSolver.AnnuityPayment | loanapp.py:556 | the annuity payment `P·r / (1 − 1/(1+r)^n)` exceeds `P·r` for a positive principal |
| PaymentSolver.LevelPaymentExceedsInterest | loanapp.py:556 | the annuity denominator `1 − (1+r)^−n` is positive, and dividing by it raises the interest-only amount |
| PaymentSolver.MinimumPayment | loanapp.py:676 | the minimum payment covers the interest on the principal, and equals it when the rate is positive |
| PaymentSolver.InputFloor | loanapp.py:685 | the payment widget's floor, the minimum plus 0.01, strictly exceeds the interest on the principal |
| PaymentSolver.DefaultPayment | loanapp.py:679 | the default is the larger of 1.5 times the minimum and the principal over 360 months |
| PaymentSolver.FloorGuaranteesAmortization | loanapp.py:685 | any payment the widget accepts, plus a non-negative extra, beats the interest on the principal, so the loop terminates |
| PaymentSolver.DefaultPaymentAmortizes | loanapp.py:679 | for a positive principal the default payment beats the interest on the principal |
| PaymentSolver.DefaultPaymentBelowFloor | loanapp.py:679-686 | for principal 0 at 6% the default payment (0) is below the widget's floor (0.01) |
| PaymentSolver.FlooredDefaultPayment | loanapp.py:679-686 | the corrected default is at least the floor and at least the written default, and equals one of them |
| PaymentSolver.FlooredDefaultKeepsValidDefault | loanapp.py:679-686 | when the written default already meets the floor, the corrected default is the written one |
| Amortization.NextRow | loanapp.py:218-239 | one loop iteration: interest is balance times monthly rate; principal portion plus new balance equals the old balance; the new balance is never negative; the reported total is interest plus principal portion |
| Amortization.NextRowBalance | loanapp.py:218-226 | the new balance is `max(balance·(1+r) − (payment+extra), 0)`; the clamp fires exactly when `balance·(1+r) < payment+extra`; an unclamped row reports payment plus extra |
| Amortization.AsWrittenTotalPayment | loanapp.py:222-236 | the code's reported total: payment plus extra on an unclamped row, and on a clamped row interest plus the opening balance plus extra, i.e. everything owed plus the extra once more |
| Amortization.AsWrittenTotalOverstatesClampedRow | loanapp.py:222-224 | the total the code reports equals what is paid, plus the extra payment on a clamped row |
| Amortization.AsWrittenTotalCountsExtraTwice | loanapp.py:222-236 | 100 owed at 0% with payment 150 and extra 50: the code reports 150 although the row pays 100 and ends at balance 0 |
| Amortization.Ceil | loanapp.py:217 | the ceiling used in the termination bound: `n − 1 < x <= n` |
| Amortization.CalculateAmortizationSchedule | loanapp.py:209-246 | the returned rows satisfy `IsSchedule`; the month count is the row count; rows are numbered 1..n; total interest is the sum of the interest column; the schedule is empty exactly when the principal is not positive; the last balance is 0; the month count is at most `⌈P / (payment + extra − P·r)⌉` |
| Amortization.PeriodProgress | loanapp.py:217-226 | with the opening balance in (0, principal], a month charges non-negative interest and lowers the balance, either to 0 or by at least the margin `payment + extra − P·r` |
| Amortization.LoopBodyComputesRow | loanapp.py:218-226 | the loop's local updates produce exactly the row `NextRow` describes |
| Amortization.LoopStart | loanapp.py:211-214 | before the first pass there are no rows, the balance is the principal and the interest total is 0, which satisfies the loop invariant |
| Amortization.LoopStep | loanapp.py:217-240 | one pass appends the row `NextRow` gives for the current balance, keeps the rows following the loan and numbered, keeps the running interest equal to the interest column, and lowers the balance by at least the margin, so the month count stays within `⌈P / margin⌉` |
| Amortization.LoopExit | loanapp.py:217 | once the guard `balance > 0` fails, the rows are the loan's schedule: rows exist exactly when the principal is positive, the last balance is 0 and the count is within the bound |
| Amortization.ProgressStep | loanapp.py:217-227 | a month that lowers the balance by the margin keeps the month counter within the termination bound |
| ScheduleLemmas.BalanceFallsEachPeriod | loanapp.py:217-226 | in a schedule at a non-negative rate, every opening balance is at most the principal, every interest is non-negative, and every balance is below its opening balance, either 0 or lower by at least the margin |
| ScheduleLemmas.ScheduleEndsAtZero | loanapp.py:217-226 | a schedule is empty exactly when the principal is not positive, and otherwise ends at balance exactly 0 |
| ScheduleLemmas.PrincipalTelescopes | loanapp.py:220-226 | the principal portions add up to how far the balance fell |
| ScheduleLemmas.PrincipalConserved | loanapp.py:220-226 | the principal portions of a schedule add up to the loan amount |
| ScheduleLemmas.PaymentsSplitIntoInterestAndPrincipal | loanapp.py:236-238 | the total-payment column is the sum of the interest and principal columns |
| ScheduleLemmas.PaymentsCoverPrincipalAndInterest | loanapp.py:752 | the payments add up to the principal plus the total interest |
| ScheduleLemmas.ZeroRateChargesNoInterest | loanapp.py:218-219 | at a zero rate every row's interest and the total interest are 0 |
| ScheduleLemmas.ClampOnlyOnFinalRow | loanapp.py:222-227 | only the last row can be clamped; every earlier row applies the full payment and reports payment plus extra |
| ScheduleLemmas.RowsNumberedAndDated | loanapp.py:227-234 | row i is numbered i+1, dated i+1 months after the start, and followed by a row in the next calendar month |
| ScheduleLemmas.DatesWithinLastRow | loanapp.py:227-231 | payment dates only move forward, so no row lies in a later year than the last row; the first date past year 9999, where the source raises, exists exactly when the last row's year is past 9999 |
| ScheduleLemmas.UnderpaidPeriod | loanapp.py:218-226 | from a balance at least the principal, a payment not above the interest on the principal leaves a balance no lower |
| ScheduleLemmas.UnderpaymentNeverAmortizes | loanapp.py:217-226 | when payment plus extra do not exceed the interest on the principal, the balance never falls below the principal |
| ScheduleLemmas.NoScheduleWhenUnderpaid | loanapp.py:217 | such a loan has no finite schedule: the loop would not end |
| ScheduleLemmas.SchedulesAgree | loanapp.py:217-240 | two row sequences built by the loop body from the same loan agree on every common prefix |
| ScheduleLemmas.ScheduleUnique | loanapp.py:209-246 | the schedule is determined by its inputs |
| LevelTerm.AnnuityStep | loanapp.py:556 | one month of the annuity closed form: `B(k)·(1+r) − A == B(k+1)` |
| LevelTerm.AnnuityBalanceSign | loanapp.py:556 | the annuity balance starts at the principal, is non-negative through the term, and is positive before its end |
| LevelTerm.StraightLineSign | loanapp.py:556 | the zero-rate balance `P − k·(P/n)` is non-negative through the term and positive before its end |
| LevelTerm.LevelBalanceSign | loanapp.py:556 | the level balance starts at the principal, ends at 0 after n months, and is positive before |
| LevelTerm.LevelBalanceStep | loanapp.py:556 | one month of interest and the level payment moves the closed-form balance from month k to k+1 |
| LevelTerm.AnnuityBalanceStep | loanapp.py:556 | the positive-rate case of that step |
| LevelTerm.LevelRowStep | loanapp.py:218-226 | the loop body at the level payment takes the closed-form balance of month k−1 to that of month k |
| LevelTerm.LevelScheduleTracksClosedForm | loanapp.py:217-226 | at the level payment with no extra, the balance before month k is the closed form's |
| LevelTerm.LevelPaymentPaysOffInTerm | loanapp.py:556-571 | the level payment for n months, fed back with no extra, yields exactly n rows for a positive principal (a zero principal gives no rows) |
| LevelTerm.LevelPaymentAmortizes | loanapp.py:556 | the level payment for a non-negative principal always lets the loop terminate |
| Savings.StepMonotone | loanapp.py:218-226 | a lower opening balance and a larger extra leave a lower or equal balance after one month |
| Savings.InterestMonotone | loanapp.py:218 | a lower opening balance accrues no more interest |
| Savings.MoreExtraLowersBalance | loanapp.py:217-226 | month by month, the schedule with the larger extra owes no more |
| Savings.ExtraPaymentNeverLengthens | loanapp.py:574 | the schedule with the larger extra has no more months, so the time saved is non-negative |
| Savings.TotalPrefixStep | loanapp.py:219 | adding a row adds its amount to the column total |
| Savings.RowInterestCompare | loanapp.py:218-219 | in each month, the schedule with the larger extra charges no more interest |
| Savings.InterestPrefixesCompare | loanapp.py:219 | over the first m months, the schedule with the larger extra charges no more interest |
| Savings.InterestPrefixGrows | loanapp.py:219 | the running interest total of a schedule never decreases |
| Savings.ExtraPaymentNeverCostsMoreInterest | loanapp.py:573 | the schedule with the larger extra pays no more interest, so the interest saved is non-negative |
| Scenarios.CompareWithExtra | loanapp.py:566-574 | both schedules are the loop's; interest saved and time saved are the differences and are non-negative; with a positive principal the baseline takes exactly `years·12` months; payoff, original payoff and time saved split into years and months (same computation at lines 808-824 and 848) |
| Scenarios.LoanTerm | loanapp.py:711-778 | for a payment at or above the widget floor: the "payment too small" outcome occurs exactly when the principal is 0; the date error (the `ValueError` that lines 230-231 raise for a payment dated after December 9999, shown by lines 776-778) is returned only when the loan's schedule really has a row in a year past 9999; otherwise every row is dated within year 9999, the schedule is the loop's, ends within the termination bound, splits into years and months, and the total paid is principal plus interest, which is the sum of the payment column |

## Left out

- The Streamlit page, CSS, widgets, tabs, spinners and `time.sleep` delays. They are presentation only.
- The Plotly chart builders (loanapp.py:248-449) and the figures built in `main`. They are rendering through external libraries.
- The `comparison_data` table (loanapp.py:853-857). It is built but never read.
- The pandas DataFrame. The schedule is a sequence of `Row` values instead.
- `round(..., 2)` on the displayed row values (loanapp.py:236-239). Rows carry the unrounded values.
- `strftime("%b %Y")` date formatting. Dates are (year, month) pairs.
- IEEE floating point. Money is exact `real`, so the results are those of exact arithmetic. In floating point, for example, the level payment's schedule can end a row early or late.
- `date.today()`. The start month is a parameter.
- The debug `st.write` output and the exception display (loanapp.py:704, 722, 776-778).
- Scenarios.CompareWithExtra: for a zero principal the "Calculate Interest Saved" mode shows its metrics and then raises an uncaught ZeroDivisionError at loanapp.py:855 (`time_saved / original_months * 100`, with no months in the baseline). The model returns the all-zero comparison instead.
- Amortization.CalculateAmortizationSchedule: requires `Loan.Amortizes()`. On other inputs the source loop does not terminate, and the model does not describe a non-terminating run.
- Amortization.CalculateAmortizationSchedule: Python's `date` stops at year 9999, so `current_date.replace(...)` at loanapp.py:230-231 raises `ValueError` for a payment dated after December 9999 (for example 100000 at 0% paying the floor 1.01 from October 2026: payment 95679 falls in year 10000). The method does not raise; it returns the full schedule, with dates past year 9999. `Scenarios.LoanTerm` turns that case into its error outcome.
- Scenarios.LoanTerm: the date error is returned after the whole schedule is computed, not at the first payment dated after December 9999 as in the source; the outcome is the same error display of loanapp.py:776-778 with the exception text not modelled.
- Scenarios.CompareWithExtra: the same `ValueError` is possible in the monthly-payment and interest-saved modes when today's date is within the loan term of December 9999 (the level term is at most 40 years), and there it is uncaught. The model returns the comparison with dates past year 9999.
- Amortization.NextRow: the reported total of a clamped row is the corrected one, interest plus principal portion. The code's value is modelled separately as `AsWrittenTotalPayment` (see Findings).
- PaymentSolver.InputFloor: the widget's rejection of a payment below the floor is modelled as the precondition of `Scenarios.LoanTerm`, not as an error path.
- The slider bounds on the loan term (1 to 40, 10 or 7 years) are modelled only as `years >= 1`.

## Findings

| source | as written | input that shows it | evidently intended | confidence | as-written member | corrected member |
|---|---|---|---|---|---|---|
| loanapp.py:222-236 | on the clamped final row `monthly_payment` is overwritten with interest plus the remaining balance, and the row still reports `monthly_payment + extra_payment`, so the extra is counted twice | principal 100, rate 0%, payment 150, extra 50: one row pays 100 but reports 150 | the final row reports what is paid, interest plus principal portion, so the payment column adds up to principal plus interest | not executed | Amortization.AsWrittenTotalCountsExtraTwice | ScheduleLemmas.PaymentsCoverPrincipalAndInterest |
| loanapp.py:679-686 | the default payment `max(1.5·min, P/360)` is offered as the widget's value, although it can be below the widget's own minimum `min + 0.01` | principal 0 at 6%: default 0, minimum 0.01 | the default lies within the widget's range | not executed | PaymentSolver.DefaultPaymentBelowFloor | PaymentSolver.FlooredDefaultPayment |
