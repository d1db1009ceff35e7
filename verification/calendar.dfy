/** Calendar months of the payment dates and the years/months split of a month count. */
module Calendar {

  /** A calendar month: `month` runs from 1 (January) to 12 (December). */
  datatype YearMonth = YearMonth(year: int, month: int)

  predicate ValidDate(d: YearMonth)
  {
    1 <= d.month <= 12
  }

  /** Months elapsed since January of year 0; consecutive months differ by one. */
  function MonthIndex(d: YearMonth): int
  {
    d.year * 12 + (d.month - 1)
  }

  /** The calendar month after `d`, wrapping December into January of the next year. */
  function NextMonth(d: YearMonth): (e: YearMonth)
    requires ValidDate(d)
    ensures ValidDate(e) && MonthIndex(e) == MonthIndex(d) + 1
  {
    if d.month == 12 then YearMonth(d.year + 1, 1) else YearMonth(d.year, d.month + 1)
  }

  /**
   * The date of payment number k, k whole months after the start month.
   * The source computes month ((m0 - 1 + k) mod 12) + 1 and year y0 + (m0 - 1 + k) div 12
   * with Python's floor operators; for the divisor 12 they coincide with Dafny's.
   */
  function PaymentDate(start: YearMonth, k: nat): (d: YearMonth)
    requires ValidDate(start)
    ensures ValidDate(d)
    ensures MonthIndex(d) == MonthIndex(start) + k
  {
    var offset := start.month - 1 + k;
    YearMonth(start.year + offset / 12, offset % 12 + 1)
  }

  /** Two dates are the same calendar month exactly when their month indices agree. */
  lemma MonthIndexInjective(d: YearMonth, e: YearMonth)
    requires ValidDate(d) && ValidDate(e)
    requires MonthIndex(d) == MonthIndex(e)
    ensures d == e
  {
  }

  /** Consecutive payments fall in consecutive calendar months. */
  lemma PaymentDatesConsecutive(start: YearMonth, k: nat)
    requires ValidDate(start)
    ensures PaymentDate(start, k + 1) == NextMonth(PaymentDate(start, k))
  {
    MonthIndexInjective(PaymentDate(start, k + 1), NextMonth(PaymentDate(start, k)));
  }

  /** The last year Python's `date` can hold (`datetime.MAXYEAR`); `date.replace` rejects a later one. */
  const LastYear := 9999

  /** A later calendar month never lies in an earlier year. */
  lemma YearsInOrder(d: YearMonth, e: YearMonth)
    requires ValidDate(d) && ValidDate(e)
    requires MonthIndex(d) <= MonthIndex(e)
    ensures d.year <= e.year
  {
  }

  /** A number of months displayed as whole years and remaining months. */
  datatype Duration = Duration(years: int, months: int)

  /** Python's `total // 12` and `total % 12`. */
  function SplitMonths(total: int): (d: Duration)
    ensures d.years * 12 + d.months == total
    ensures 0 <= d.months < 12
    ensures total >= 0 ==> d.years >= 0
  {
    Duration(total / 12, total % 12)
  }
}
