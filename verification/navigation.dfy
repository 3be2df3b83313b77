/** The previous/next month links of the month view (`View::displayShow`).
    They appear only when the page shows a valid year and month, and each
    link only when its month is not after the current month. */
module Navigation {
  import opened Options
  import opened Calendar

  /** The navigation block: absent, or present with each link optional. */
  datatype Navi = NoNavi | Navi(prev: Option<YearMonth>, next: Option<YearMonth>)

  /** The link to `target`, kept only if `target` is not after today's month. */
  function LinkIfNotAfter(target: YearMonth, today: Date): Option<YearMonth> {
    if NotAfter(target, YearMonth(today.year, today.month)) then Some(target) else None
  }

  /** `View::displayShow`'s navigation for the viewed `year`/`month` (0 when
      the page is a search result, which fails the date check). */
  function MonthNavi(year: int, month: int, today: Date): (n: Navi)
    ensures n.NoNavi? <==> !CheckDate(month, 1, year)
    ensures n.Navi? && n.prev.Some? ==>
              IsMonth(n.prev.value.month)
              && MonthIndex(n.prev.value) == MonthIndex(YearMonth(year, month)) - 1
    ensures n.Navi? && n.next.Some? ==>
              IsMonth(n.next.value.month)
              && MonthIndex(n.next.value) == MonthIndex(YearMonth(year, month)) + 1
  {
    if CheckDate(month, 1, year) then
      var here := YearMonth(year, month);
      Navi(LinkIfNotAfter(PrevMonth(here), today), LinkIfNotAfter(NextMonth(here), today))
    else NoNavi
  }

  /** Which links appear, by month index: the previous-month link iff that
      month is at most today's month, the next-month link iff the viewed
      month is before today's month. */
  lemma LinksShown(year: int, month: int, today: Date)
    requires CheckDate(month, 1, year)
    requires IsMonth(today.month)
    ensures var n := MonthNavi(year, month, today);
            var now := MonthIndex(YearMonth(today.year, today.month));
            && (n.prev.Some? <==> MonthIndex(YearMonth(year, month)) - 1 <= now)
            && (n.next.Some? <==> MonthIndex(YearMonth(year, month)) + 1 <= now)
  {
  }

  /** A link never leads to a month the interpolation would blank out as
      being in the future. */
  lemma LinksNeverFuture(year: int, month: int, today: Date)
    requires CheckDate(month, 1, year)
    requires IsMonth(today.month)
    ensures var n := MonthNavi(year, month, today);
            && (n.prev.Some? ==> !IsFutureMonth(n.prev.value.year, n.prev.value.month, today))
            && (n.next.Some? ==> !IsFutureMonth(n.next.value.year, n.next.value.month, today))
  {
  }

  /** Viewing a month that is not in the future always offers the previous
      month; the two links lead back to the viewed month from each other's
      side. */
  lemma PastMonthHasPrev(year: int, month: int, today: Date)
    requires CheckDate(month, 1, year)
    requires IsMonth(today.month)
    requires !IsFutureMonth(year, month, today)
    ensures MonthNavi(year, month, today).prev.Some?
    ensures NextMonth(MonthNavi(year, month, today).prev.value) == YearMonth(year, month)
  {
  }
}
