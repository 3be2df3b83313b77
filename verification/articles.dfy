/** Diary articles and the month view's missing-day interpolation
    (`App::interpolateArticles`): every day of a past month, or every day up
    to today in the current month, gets an entry, and the entries are
    ordered by day. */
module Articles {
  import opened Calendar

  /** One diary entry, as a row of the `articles` table. */
  datatype Article = Article(year: int, month: int, day: int, message: string)

  /** The empty entry the interpolation adds for a day without an article. */
  function Placeholder(year: int, month: int, day: int): Article {
    Article(year, month, day, "")
  }

  predicate IsOn(a: Article, year: int, month: int, day: int) {
    a.year == year && a.month == month && a.day == day
  }

  /** Some article of `articles` is dated `year`/`month`/`day`; the source
      tests this as `count(array_filter(…)) == 0` being false. */
  predicate Covered(articles: seq<Article>, year: int, month: int, day: int) {
    exists i :: 0 <= i < |articles| && IsOn(articles[i], year, month, day)
  }

  /** Number of articles whose day is `day` (whatever their month). */
  function CountDay(articles: seq<Article>, day: int): nat {
    if articles == [] then 0
    else (if articles[0].day == day then 1 else 0) + CountDay(articles[1..], day)
  }

  /** The last day the interpolation fills: today in the current month,
      otherwise the length of the month. */
  function LastDay(year: int, month: int, today: Date): (d: int)
    requires IsMonth(month)
    ensures year == today.year && month == today.month ==> d == today.day
    ensures CheckDate(today.month, today.day, today.year) ==> d <= DaysInMonth(year, month)
    ensures CheckDate(today.month, today.day, today.year) ==>
              (d == DaysInMonth(year, month) <==>
                 year != today.year || month != today.month
                 || today.day == DaysInMonth(today.year, today.month))
  {
    if year == today.year && month == today.month then today.day else DaysInMonth(year, month)
  }

  /** The `for ($day = …; $day <= $lastDay; $day++)` loop of the
      interpolation: appends a placeholder for each day in `day..lastDay` on
      which the articles gathered so far (including placeholders already
      appended) have no entry. */
  function FillDays(acc: seq<Article>, year: int, month: int, day: int, lastDay: int): (r: seq<Article>)
    ensures |acc| <= |r| && r[..|acc|] == acc
    ensures forall i | |acc| <= i < |r| ::
              r[i] == Placeholder(year, month, r[i].day) && day <= r[i].day <= lastDay
              && !Covered(acc, year, month, r[i].day)
    ensures forall i, j | |acc| <= i < j < |r| :: r[i].day < r[j].day
    ensures forall d | day <= d <= lastDay :: Covered(r, year, month, d)
    decreases if day <= lastDay then lastDay - day + 1 else 0
  {
    if day > lastDay then acc
    else if Covered(acc, year, month, day) then
      FillDays(acc, year, month, day + 1, lastDay)
    else
      var acc' := acc + [Placeholder(year, month, day)];
      assert acc'[|acc|] == Placeholder(year, month, day);
      FillDays(acc', year, month, day + 1, lastDay)
  }

  predicate SortedByDay(s: seq<Article>) {
    forall i, j | 0 <= i < j < |s| :: s[i].day <= s[j].day
  }

  /** Inserts `x` into a day-sorted sequence, before the first entry whose
      day is not smaller. */
  function InsertByDay(x: Article, s: seq<Article>): (r: seq<Article>)
    requires SortedByDay(s)
    ensures SortedByDay(r)
    ensures multiset(r) == multiset(s) + multiset{x}
    ensures |r| == |s| + 1
    ensures r[0] == x || (s != [] && r[0] == s[0])
  {
    if s == [] || x.day <= s[0].day then
      SortedCons(x, s);
      [x] + s
    else
      SortedTail(s);
      var t := InsertByDay(x, s[1..]);
      InsertAfterHead(x, s, t);
      [s[0]] + t
  }

  /** The recursive step of `InsertByDay`: `x` goes after the head of `s`,
      into the sorted rest `t`. */
  lemma InsertAfterHead(x: Article, s: seq<Article>, t: seq<Article>)
    requires SortedByDay(s) && s != [] && s[0].day < x.day
    requires SortedByDay(t) && multiset(t) == multiset(s[1..]) + multiset{x}
    requires t != [] && (t[0] == x || (s[1..] != [] && t[0] == s[1..][0]))
    ensures SortedByDay([s[0]] + t)
    ensures multiset([s[0]] + t) == multiset(s) + multiset{x}
  {
    assert s == [s[0]] + s[1..];
    assert multiset(s) == multiset{s[0]} + multiset(s[1..]);
    assert multiset([s[0]] + t) == multiset{s[0]} + multiset(t);
    assert s[1..] != [] ==> s[1..][0] == s[1] && s[0].day <= s[1].day;
    SortedCons(s[0], t);
  }

  lemma SortedTail(s: seq<Article>)
    requires SortedByDay(s) && s != []
    ensures SortedByDay(s[1..])
  {
    forall i, j | 0 <= i < j < |s| - 1 ensures s[1..][i].day <= s[1..][j].day {
      assert s[1..][i] == s[i + 1] && s[1..][j] == s[j + 1];
    }
  }

  lemma SortedCons(a: Article, t: seq<Article>)
    requires SortedByDay(t) && (t != [] ==> a.day <= t[0].day)
    ensures SortedByDay([a] + t)
  {
    var r := [a] + t;
    forall i, j | 0 <= i < j < |r| ensures r[i].day <= r[j].day {
      assert r[j] == t[j - 1];
      if i > 0 {
        assert r[i] == t[i - 1];
      } else {
        assert t[0].day <= t[j - 1].day;
      }
    }
  }

  /** `usort` by `day` (PHP's `<=>` on the day number), written as an
      insertion sort. */
  function SortByDay(s: seq<Article>): (r: seq<Article>)
    ensures SortedByDay(r)
    ensures multiset(r) == multiset(s)
  {
    if s == [] then []
    else
      assert s == [s[0]] + s[1..];
      InsertByDay(s[0], SortByDay(s[1..]))
  }

  /** `App::interpolateArticles($articles, $year, $month)` with today's date
      passed in. The month must be 1..12: its one caller only calls it after
      `checkdate($month, 1, $year)` succeeds. */
  function Interpolate(articles: seq<Article>, year: int, month: int, today: Date): (r: seq<Article>)
    requires IsMonth(month)
    ensures IsFutureMonth(year, month, today) ==> r == []
    ensures !IsFutureMonth(year, month, today) ==>
              && SortedByDay(r)
              && multiset(articles) <= multiset(r)
              && (forall a | a in multiset(r) - multiset(articles) ::
                    a == Placeholder(year, month, a.day)
                    && 1 <= a.day <= LastDay(year, month, today)
                    && !Covered(articles, year, month, a.day))
              && (forall d | 1 <= d <= LastDay(year, month, today) :: Covered(r, year, month, d))
  {
    if IsFutureMonth(year, month, today) then []
    else
      var filled := FillDays(articles, year, month, 1, LastDay(year, month, today));
      var r := SortByDay(filled);
      assert filled == articles + filled[|articles|..];
      AddedPart(articles, filled, year, month, LastDay(year, month, today));
      forall d | 1 <= d <= LastDay(year, month, today)
        ensures Covered(r, year, month, d)
      {
        CoveredPermutation(filled, r, year, month, d);
      }
      r
  }

  /** What the interpolation appends, seen as a multiset: only placeholders
      for uncovered days. */
  lemma AddedPart(articles: seq<Article>, filled: seq<Article>, year: int, month: int, lastDay: int)
    requires |articles| <= |filled| && filled == articles + filled[|articles|..]
    requires forall i | |articles| <= i < |filled| ::
               filled[i] == Placeholder(year, month, filled[i].day) && 1 <= filled[i].day <= lastDay
               && !Covered(articles, year, month, filled[i].day)
    ensures multiset(articles) <= multiset(filled)
    ensures forall a | a in multiset(filled) - multiset(articles) ::
              a == Placeholder(year, month, a.day) && 1 <= a.day <= lastDay && !Covered(articles, year, month, a.day)
  {
  }

  /** Coverage of a date depends only on the multiset of articles. */
  lemma CoveredPermutation(s: seq<Article>, t: seq<Article>, year: int, month: int, day: int)
    requires multiset(s) == multiset(t)
    ensures Covered(s, year, month, day) <==> Covered(t, year, month, day)
  {
    if Covered(s, year, month, day) {
      var i :| 0 <= i < |s| && IsOn(s[i], year, month, day);
      assert s[i] in multiset(t);
      var j :| 0 <= j < |t| && t[j] == s[i];
    }
    if Covered(t, year, month, day) {
      var j :| 0 <= j < |t| && IsOn(t[j], year, month, day);
      assert t[j] in multiset(s);
      var i :| 0 <= i < |s| && s[i] == t[j];
    }
  }

  lemma {:induction false} CountDayAppend(s: seq<Article>, t: seq<Article>, day: int)
    ensures CountDay(s + t, day) == CountDay(s, day) + CountDay(t, day)
  {
    if s == [] {
      assert s + t == t;
    } else {
      assert (s + t)[1..] == s[1..] + t;
      CountDayAppend(s[1..], t, day);
    }
  }

  /** Inserting one article adds one to the count of its own day only. */
  lemma {:induction false} InsertCountDay(x: Article, s: seq<Article>, day: int)
    requires SortedByDay(s)
    ensures CountDay(InsertByDay(x, s), day) == CountDay(s, day) + (if x.day == day then 1 else 0)
  {
    if s == [] || x.day <= s[0].day {
      assert ([x] + s)[1..] == s;
    } else {
      var t := InsertByDay(x, s[1..]);
      assert ([s[0]] + t)[1..] == t;
      InsertCountDay(x, s[1..], day);
    }
  }

  /** Sorting keeps the number of entries of every day. */
  lemma {:induction false} SortCountDay(s: seq<Article>, day: int)
    ensures CountDay(SortByDay(s), day) == CountDay(s, day)
  {
    if s != [] {
      SortCountDay(s[1..], day);
      InsertCountDay(s[0], SortByDay(s[1..]), day);
    }
  }

  /** The fill loop adds exactly one entry for each day in `day..lastDay`
      that the articles gathered so far leave uncovered, and none for any
      other day. */
  lemma {:induction false} FillDaysCount(acc: seq<Article>, year: int, month: int, day: int, lastDay: int, d: int)
    ensures CountDay(FillDays(acc, year, month, day, lastDay), d)
            == CountDay(acc, d) + (if day <= d <= lastDay && !Covered(acc, year, month, d) then 1 else 0)
    decreases if day <= lastDay then lastDay - day + 1 else 0
  {
    if day > lastDay {
    } else if Covered(acc, year, month, day) {
      FillDaysCount(acc, year, month, day + 1, lastDay, d);
    } else {
      var p := Placeholder(year, month, day);
      var acc' := acc + [p];
      FillDaysCount(acc', year, month, day + 1, lastDay, d);
      CountDayAppend(acc, [p], d);
      assert CountDay([p], d) == (if day == d then 1 else 0) by {
        assert [p][1..] == [];
      }
      if d != day {
        CoveredAppendOther(acc, p, year, month, d);
      }
    }
  }

  /** Appending an article dated on another day does not change whether
      `day` is covered. */
  lemma CoveredAppendOther(acc: seq<Article>, a: Article, year: int, month: int, day: int)
    requires !IsOn(a, year, month, day)
    ensures Covered(acc + [a], year, month, day) <==> Covered(acc, year, month, day)
  {
    var acc' := acc + [a];
    if Covered(acc', year, month, day) {
      var i :| 0 <= i < |acc'| && IsOn(acc'[i], year, month, day);
      assert i < |acc|;
      assert acc'[i] == acc[i];
    }
    if Covered(acc, year, month, day) {
      var i :| 0 <= i < |acc| && IsOn(acc[i], year, month, day);
      assert acc'[i] == acc[i];
    }
  }

  /** The interpolation adds exactly one entry for each uncovered day up to
      the last day, and none for any other day. */
  lemma InterpolateCountDay(articles: seq<Article>, year: int, month: int, today: Date, d: int)
    requires IsMonth(month)
    requires !IsFutureMonth(year, month, today)
    ensures CountDay(Interpolate(articles, year, month, today), d)
            == CountDay(articles, d)
               + (if 1 <= d <= LastDay(year, month, today) && !Covered(articles, year, month, d) then 1 else 0)
  {
    var filled := FillDays(articles, year, month, 1, LastDay(year, month, today));
    FillDaysCount(articles, year, month, 1, LastDay(year, month, today), d);
    SortCountDay(filled, d);
  }

  /** All articles belong to `year`/`month`, as the month query returns them. */
  predicate AllIn(articles: seq<Article>, year: int, month: int) {
    forall i | 0 <= i < |articles| :: articles[i].year == year && articles[i].month == month
  }

  lemma {:induction false} CoveredIffCounted(articles: seq<Article>, year: int, month: int, d: int)
    requires AllIn(articles, year, month)
    ensures Covered(articles, year, month, d) <==> CountDay(articles, d) > 0
  {
    if articles != [] {
      CoveredIffCounted(articles[1..], year, month, d);
      if Covered(articles[1..], year, month, d) {
        var i :| 0 <= i < |articles[1..]| && IsOn(articles[1..][i], year, month, d);
        assert IsOn(articles[i + 1], year, month, d);
      }
      if Covered(articles, year, month, d) && articles[0].day != d {
        var i :| 0 <= i < |articles| && IsOn(articles[i], year, month, d);
        assert IsOn(articles[1..][i - 1], year, month, d);
      }
    }
  }

  /** The complete calendar grid: for one month's articles with at most one
      per day, the interpolated month has exactly one entry for every day up
      to the last day and at most one for any day. */
  lemma OnePerDay(articles: seq<Article>, year: int, month: int, today: Date)
    requires IsMonth(month)
    requires !IsFutureMonth(year, month, today)
    requires AllIn(articles, year, month)
    requires forall d :: CountDay(articles, d) <= 1
    ensures forall d :: CountDay(Interpolate(articles, year, month, today), d) <= 1
    ensures forall d | 1 <= d <= LastDay(year, month, today) ::
              CountDay(Interpolate(articles, year, month, today), d) == 1
  {
    forall d
      ensures CountDay(Interpolate(articles, year, month, today), d) <= 1
      ensures 1 <= d <= LastDay(year, month, today) ==> CountDay(Interpolate(articles, year, month, today), d) == 1
    {
      InterpolateCountDay(articles, year, month, today, d);
      CoveredIffCounted(articles, year, month, d);
    }
  }

  lemma {:induction false} CountDayAbsent(s: seq<Article>, day: int)
    requires forall i | 0 <= i < |s| :: s[i].day != day
    ensures CountDay(s, day) == 0
  {
    if s != [] {
      CountDayAbsent(s[1..], day);
    }
  }

  /** With strictly increasing days, no day occurs twice. */
  lemma {:induction false} IncreasingCountDay(s: seq<Article>, day: int)
    requires forall i, j | 0 <= i < j < |s| :: s[i].day < s[j].day
    ensures CountDay(s, day) <= 1
  {
    if s != [] {
      if s[0].day == day {
        CountDayAbsent(s[1..], day);
      } else {
        IncreasingCountDay(s[1..], day);
      }
    }
  }

  /** More articles cover at least the same dates. */
  lemma CoveredGrows(s: seq<Article>, t: seq<Article>, year: int, month: int, day: int)
    requires multiset(s) <= multiset(t)
    requires Covered(s, year, month, day)
    ensures Covered(t, year, month, day)
  {
    var i :| 0 <= i < |s| && IsOn(s[i], year, month, day);
    assert s[i] in multiset(t);
    var j :| 0 <= j < |t| && t[j] == s[i];
  }
}
