/** Gregorian calendar arithmetic the diary relies on: PHP's `checkdate`,
    `date("t")` (days in a month), and the month steps that `strtotime`
    performs for "-1 month" / "+1 month" from the first of a month. */
module Calendar {

  /** A calendar date, also the key of a stored article. */
  datatype Date = Date(year: int, month: int, day: int)

  /** A year and month, as shown by the month view and its links. */
  datatype YearMonth = YearMonth(year: int, month: int)

  /** Gregorian leap-year rule. */
  predicate IsLeapYear(year: int) {
    year % 4 == 0 && (year % 100 != 0 || year % 400 == 0)
  }

  predicate IsMonth(month: int) {
    1 <= month <= 12
  }

  /** Number of days in the month, as PHP's `date("t", …)` reports it. */
  function DaysInMonth(year: int, month: int): (n: int)
    requires IsMonth(month)
    ensures 28 <= n <= 31
    ensures month == 2 ==> (n == 29 <==> IsLeapYear(year))
  {
    if month == 2 then (if IsLeapYear(year) then 29 else 28)
    else if month == 4 || month == 6 || month == 9 || month == 11 then 30
    else 31
  }

  /** PHP's `checkdate($month, $day, $year)`: month in 1..12, year in
      1..32767, and day within the month. Days 1..28 exist in every month,
      the 29th in every month but February of a common year, the 30th in
      every month but February, and the 31st in the seven long months. */
  function CheckDate(month: int, day: int, year: int): (ok: bool)
    ensures ok <==>
              && 1 <= month <= 12 && 1 <= year <= 32767 && 1 <= day
              && (|| day <= 28
                  || (day == 29 && (month != 2 || IsLeapYear(year)))
                  || (day == 30 && month != 2)
                  || (day == 31 && month in {1, 3, 5, 7, 8, 10, 12}))
  {
    IsMonth(month) && 1 <= year <= 32767 && 1 <= day <= DaysInMonth(year, month)
  }

  /** Days of the year that precede the first day of `month`
      (`month` may be 13, giving the length of the year). */
  function DaysBeforeMonth(year: int, month: int): int
    requires 1 <= month <= 13
    decreases month
  {
    if month == 1 then 0 else DaysBeforeMonth(year, month - 1) + DaysInMonth(year, month - 1)
  }

  /** The month lengths add up to the length of a Gregorian year, and the
      cumulative table agrees with the usual day-of-year offsets. */
  lemma YearLength(year: int)
    ensures DaysBeforeMonth(year, 3) == (if IsLeapYear(year) then 60 else 59)
    ensures DaysBeforeMonth(year, 13) == (if IsLeapYear(year) then 366 else 365)
  {
  }

  /** Months counted from month 1 of year 0, so that consecutive months
      have consecutive indices. */
  function MonthIndex(ym: YearMonth): int {
    ym.year * 12 + ym.month - 1
  }

  /** The month before `ym`, wrapping from January to December of the
      previous year. */
  function PrevMonth(ym: YearMonth): (r: YearMonth)
    requires IsMonth(ym.month)
    ensures IsMonth(r.month)
    ensures MonthIndex(r) == MonthIndex(ym) - 1
  {
    if ym.month == 1 then YearMonth(ym.year - 1, 12) else YearMonth(ym.year, ym.month - 1)
  }

  /** The month after `ym`, wrapping from December to January of the next
      year. */
  function NextMonth(ym: YearMonth): (r: YearMonth)
    requires IsMonth(ym.month)
    ensures IsMonth(r.month)
    ensures MonthIndex(r) == MonthIndex(ym) + 1
  {
    if ym.month == 12 then YearMonth(ym.year + 1, 1) else YearMonth(ym.year, ym.month + 1)
  }

  /** Stepping back and then forward (or forward and then back) returns to
      the same month. */
  lemma PrevNextInverse(ym: YearMonth)
    requires IsMonth(ym.month)
    ensures NextMonth(PrevMonth(ym)) == ym
    ensures PrevMonth(NextMonth(ym)) == ym
  {
  }

  /** The navigation links' test: `a` is not later than `b`. */
  predicate NotAfter(a: YearMonth, b: YearMonth) {
    a.year < b.year || (a.year == b.year && a.month <= b.month)
  }

  /** The interpolation's test that `year`/`month` lies after today's month. */
  predicate IsFutureMonth(year: int, month: int, today: Date) {
    year > today.year || (year == today.year && month > today.month)
  }

  /** Both tests compare months by their index: "not after" is `<=` and
      "future" is its negation. */
  lemma MonthOrderByIndex(a: YearMonth, b: YearMonth)
    requires IsMonth(a.month) && IsMonth(b.month)
    ensures NotAfter(a, b) <==> MonthIndex(a) <= MonthIndex(b)
    ensures IsFutureMonth(a.year, a.month, Date(b.year, b.month, 1)) <==> !NotAfter(a, b)
  {
  }
}
