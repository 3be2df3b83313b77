# tinydiary: the request logic of a one-user diary, in Dafny

tinydiary is a single-file PHP diary. The owner logs in with a password and
writes one message per calendar date. Anyone may read a month's entries or
search them by keyword. This project models the logic of `index.php` that is
more than plumbing. Each piece is a pure function over immutable values:

- **Calendar** (`calendar.dfy`): the Gregorian leap-year rule and month
  lengths that stand in for PHP's `date("t")`. Also PHP's `checkdate`, the
  month index, and the previous/next month steps with year wrap-around.
- **Articles** (`articles.dfy`): the `Article` record and
  `App::interpolateArticles`. For a month that is not in the future, it
  adds an empty placeholder for every day up to the last day (today in the
  current month) that has no article. It keeps the real articles and sorts
  the result by day. A future month gives nothing.
- **Search** (`search.dfy`): `explode(" ", …)` and its inverse `implode`.
  Also PHP's `empty()` on fragments, the LIKE escape that puts `!` before
  every `!`, `_` and `%`, and how SQLite reads the resulting pattern with
  and without an escape character. The query appends ` ESCAPE '!'` once,
  after all the conditions, so only the last `message LIKE ?` has an escape
  character (see "Findings"). Finally the cut of the result rows to
  `SEARCH_LIMIT = 20`.
- **Navigation** (`navigation.dfy`): the previous-month and next-month
  links of `View::displayShow`.
- **App** (`app.dfy`): one request, from session and store before to
  session, store and page after. It covers `App::run`'s dispatch, `login`,
  `logout`, `checkCsrfToken`, the gated `update`, `edit`, `show` and
  `search`.
- **Options** (`options.dfy`): `Option`, used for request parameters and
  session keys that may be absent.

Things outside the program become parameters:

- "today" is a `Date` parameter instead of `date()`.
- The new CSRF token (`random_bytes`) is a `Token` parameter.
- The database's answer to the search query is a function parameter, so
  the model shows when no query is made.
- The store is a map from date to message. `REPLACE INTO` is a map update.
  The month query's rows are read from the map day by day.

PHP 8 semantics are assumed in three places:

- `hash_equals` with a `null` session token throws a `TypeError`.
- Passing a `null` form token to `checkCsrfToken(string)` throws a
  `TypeError` too.
- At index.php:218, a login whose token matched but which posted no
  password passes `null` to `hash_equals`, which throws a `TypeError`.

All three end the request. The model calls this the `Aborted` page. The store
is unchanged, and session changes made before the error persist.

The handlers read the login flag once, when `App` is constructed. So
`update`, `edit` and `show` see the flag from the start of the request,
even after a `login` or `logout` earlier in the same request. The model
keeps this.

## Model

| member | source | states |
|---|---|---|
| Calendar.DaysInMonth | index.php:255 | the month length `date("t")` gives is 28..31, and February has 29 days exactly in Gregorian leap years |
| Calendar.CheckDate | index.php:195 | `checkdate` accepts exactly the months 1..12, the years 1..32767, and the days 1..28 in every month, the 29th except in February of a common year, the 30th except in February, and the 31st in January, March, May, July, August, October and December |
| Calendar.YearLength | index.php:255 | the twelve month lengths add up to 366 days in a leap year and 365 otherwise; March starts on day 60 or 59 |
| Calendar.PrevMonth | index.php:379-380 | the "-1 month" step from the first of a month gives a valid month whose index is one less, wrapping January to December of the previous year |
| Calendar.NextMonth | index.php:388-389 | the "+1 month" step gives a valid month whose index is one more, wrapping December to January of the next year |
| Calendar.PrevNextInverse | index.php:379-389 | stepping back then forward, or forward then back, returns to the same month |
| Calendar.MonthOrderByIndex | index.php:247 | the "future month" test of the interpolation and the "not after" test of the links are exactly `>` and `<=` on the month index |
| Articles.LastDay | index.php:251-256 | the fill bound is today's day in the current month; for a valid today it never passes the month length, and it equals the month length exactly when the month is not the current one or today is its last day |
| Articles.FillDays | index.php:257-263 | the fill loop keeps the articles it was given as a prefix; each entry it appends is an empty placeholder for a day in range that the given articles did not cover; the appended days strictly increase; afterwards every day in range is covered |
| Articles.FillDaysCount | index.php:257-262 | the fill loop adds exactly one entry for each uncovered day in range and none for any other day |
| Articles.InsertByDay | index.php:264-266 | inserting into a day-sorted sequence keeps it sorted and adds exactly that one article |
| Articles.SortByDay | index.php:264-266 | the `usort` by day returns a permutation of its input, ordered by non-decreasing day |
| Articles.Interpolate | index.php:241-269 | for a future month the result is empty. Otherwise it is sorted by day and holds every input article. Everything else in it is an empty placeholder of the requested month for an uncovered day in 1..last day. Every day in 1..last day is covered, where the last day is today in the current month and the month length otherwise |
| Articles.InterpolateCountDay | index.php:257-266 | the number of entries for each day is the input's count plus one exactly when the day is in 1..last day and uncovered |
| Articles.OnePerDay | index.php:251-266 | for one month's articles with at most one per day, the result has exactly one entry for every day in 1..last day and never two for a day |
| Search.Split | index.php:114 | `explode(" ", …)` yields at least one piece and no piece contains a space |
| Search.JoinSplit | index.php:114 | joining the pieces with single spaces gives back the keyword |
| Search.SplitJoin | index.php:114 | splitting space-free pieces joined with spaces gives back the pieces |
| Search.KeepNonEmpty | index.php:115-117 | the kept fragments are exactly the fragments PHP `empty()` does not reject ("" and "0" are dropped), with their multiplicities; none are kept iff every fragment is empty |
| Search.KeepNonEmptyAppend | index.php:114-117 | the filter distributes over concatenation, so the kept fragments keep the order in which they were typed |
| Search.MetaCount | index.php:119 | the number of `!`, `_` and `%` in a fragment is zero exactly when it has none of them |
| Search.Escape | index.php:119 | the escape adds exactly one character per `!`, `_` and `%`; a fragment without `!`, `_`, `%` is unchanged |
| Search.UnescapeEscape | index.php:119 | deleting each inserted `!` and keeping the character after it gives the fragment back |
| Search.EscapeOne | index.php:119 | a single `!`, `_` or `%` becomes `!` followed by itself; any other character stays as it is |
| Search.EscapeAppend | index.php:119 | escaping a concatenation escapes each part, so the result is fixed character by character |
| Search.LiteralsAppend | index.php:119-122 | reading characters literally distributes over concatenation |
| Search.RawTokensAppend | index.php:118-122 | reading characters with no escape character distributes over concatenation |
| Search.RawIsLiteral | index.php:118-122 | a fragment with no `!`, `_` or `%` reads the same with no escape character as literally |
| Search.EscapeIsLiteral | index.php:119-122 | read with the escape character `!`, an escaped fragment is its own characters taken literally, so no `%` or `_` typed by the user acts as a wildcard |
| Search.ParseUnescaped | index.php:118-122 | read with no escape character, every `!` is an ordinary character and every `%` and `_` is a wildcard |
| Search.SearchPatternMeaning | index.php:119-122 | read with the escape character `!`, the parameter `"%" + escaped + "%"` means any string, the fragment literally, any string |
| Search.SearchPatternUnescaped | index.php:118-122 | read with no escape character, the same parameter means any string, the escaped fragment with its `!` as characters and its `%`, `_` as wildcards, any string |
| Search.UnescapedContainsIff | index.php:118-122 | read with no escape character, the parameter means "contains the fragment" iff the fragment has no `!`, `_` or `%` |
| Search.AsWrittenConditions | index.php:114-122 | as the query string is built there is one condition per kept fragment with its escaped `%…%` parameter; only the last carries the escape character and means "contains its fragment"; each earlier one reads its parameter with no escape character |
| Search.AsWrittenContainsIff | index.php:114-122 | as written, a condition means "contains its fragment" iff it is the last one or its fragment has no `!`, `_` or `%` |
| Search.AsWrittenMissesUnderscore | index.php:118-122 | for the keyword "a_b c" the first condition's parameter is `%a!_b%` read with no escape character: it asks for "a", "!", one character, "b", not for "a_b" |
| Search.LikeEach | index.php:114-122 | one condition per fragment, in order, with its escaped `%…%` parameter; only the last has the escape character |
| Search.SearchConditions | index.php:114-122 | the corrected conditions: the same parameters, each read with the escape character `!`, so each means "contains its fragment" |
| Search.EscapedEach | index.php:114-122 | one corrected condition per fragment, in order, each meaning "contains its fragment" |
| Search.LimitRows | index.php:124-125 | at most 20 rows are kept, they are the first rows in their original order, exactly min(20, rows) of them, and `searchLimited` holds iff more than 20 rows came back |
| Search.SearchArticles | index.php:121-130 | with no kept fragment the result is empty and not limited. Otherwise the database is asked with the conditions as the query string builds them (only the last one with the escape character); `searchLimited` holds iff the query returned more than 20 rows, and the shown rows are the first min(20, rows) in their original order. Never more than 20 are shown |
| Search.CorrectedSearchArticles | index.php:121-130 | the same search asked with the corrected conditions, each of which means "contains its fragment"; the same empty, limit and order facts hold |
| Search.NoConditionNoQuery | index.php:121-130 | a keyword whose fragments are all empty gives the same empty result whatever the database holds, so no query is made |
| Navigation.MonthNavi | index.php:371-396 | the navigation appears iff `checkdate(month, 1, year)` holds; a previous (next) link, when shown, is a valid month one before (after) the viewed month |
| Navigation.LinksShown | index.php:379-390 | the previous link is shown iff that month's index is at most today's month index; the next link iff the viewed month is before today's month |
| Navigation.LinksNeverFuture | index.php:381-390 | no link leads to a month that the interpolation would blank out as future |
| Navigation.PastMonthHasPrev | index.php:379-387 | a month that is not in the future always offers the previous month, and the next month of that link is the viewed month |
| App.CheckCsrfToken | index.php:333-339 | the check removes the session token whatever the outcome; it matches iff the session token equals the form token and fails with a type error iff the session holds no token |
| App.Login | index.php:215-222 | the session becomes logged in iff it already was, or the form token matched and the password is right. The request aborts iff the form token is missing, the session has no token, or the token matched but no password was posted. A posted token is always consumed |
| App.Logout | index.php:227-231 | logging out clears the login flag and leaves the session token alone |
| App.Route | index.php:59-70 | a posted `update` selects update whatever the query string says; otherwise `edit`, then `search`, then show |
| App.Update | index.php:183-210 | the store changes only if the request started logged in, the form token equals the session token, and the posted date passes `checkdate`; it then sets exactly that date's message. Without login nothing changes and the token is kept; with a posted token it is consumed |
| App.Edit | index.php:146-178 | without login: a redirect and nothing changes. With login: the edit page for the requested date (today's parts by default), carrying the stored message or an empty one, and a new session token |
| App.RowsFrom | index.php:86-87 | the month query's rows are stored articles of that month with their stored messages, in strictly increasing day order |
| App.RowsFromCovers | index.php:86-87 | every stored date of the month from the first scanned day on is among the rows |
| App.MonthRows | index.php:86-87 | all rows belong to the month, and with a valid store every stored article of the month is among them |
| App.Show | index.php:76-103 | the show page uses the requested month (this month by default); it is empty when the month fails `checkdate` or is in the future; its navigation is the month navigation; a new token is issued and the store is untouched |
| App.SearchView | index.php:108-141 | the search page is for the requested keyword ("" by default): with no kept fragment it is empty and not limited; otherwise it shows the first min(20, rows) of the rows the database returns for the keyword's conditions as written, and `searchLimited` holds iff more than 20 came back. The entries are editable iff the request started logged in. A new token is issued and the store is untouched |
| App.Run | index.php:49-71 | a request keeps every stored date valid, and an aborted request leaves the store as it was |
| App.UpdateRendersNoView | index.php:59-70 | a request posting `mode=update` ends in a redirect or an abort, never in the show, search or edit page |
| App.PageFollowsRoute | index.php:59-70 | without a login, the page is the one the dispatch chain selects; the edit page appears iff the session was logged in, and the show and search pages are editable iff it was |
| App.UpdateGate | index.php:183-210 | across a whole request the store changes only through a posted update that passes every gate, and then only that date's message is replaced |
| App.UpdateAccepted | index.php:186-209 | when every gate holds the message is stored, the page redirects to the date's month and the token is consumed |
| App.TokenConsumed | index.php:333-339 | after any request that checks a posted token the session holds no token or the new one, never the old one |
| App.ReplayRejected | index.php:335-336 | replaying a request that changed the store changes nothing, because the token it used is gone |
| App.LoginState | index.php:215-231 | after a request the session is logged in only if it was before or it logged in with a matching token and the right password; a logout that runs always leaves it logged out; a successful login without logout leaves it logged in |
| App.TokenIssuedWithPage | index.php:320-325 | every rendered page puts the new token in the session; a redirect or abort puts none there |
| App.ShowCompleteMonth | index.php:76-103 | for a valid store and a month not in the future, the show page is sorted by day. It has exactly one entry for each day up to the last day and never two for a day. Each entry carries its date's stored message or the empty one, and no stored article of the month is missing |

## Left out

- HTML building, `htmlspecialchars`, `View::output`, `View::displayEdit` and the weekday names (`View::weekday`): presentation over library calls. The page is a datatype holding what the HTML would show.
- The `Database` class, PDO and SQLite: the store is a map from date to message. The search query's answer, with its `ORDER BY … DESC LIMIT 21`, is a parameter, because the model does not evaluate SQL.
- SQLite's LIKE matching itself, including its ASCII case folding: the model states how a pattern is tokenised, with or without an escape character, not which messages match it.
- `session_start`, `getParam` and `$_GET`/`$_POST`: inputs arrive as parsed integers and strings, with `None` for a missing parameter. The `(int)` casts of request strings are not modelled.
- `header()` redirects: they become the `Redirect` page. The body that `login` and `logout` still render after their redirect header is modelled as the page they render.
- `date()`, `strtotime()` and `random_bytes`: today's date and the new token are parameters. The "-1 month"/"+1 month" phrases are modelled as calendar month steps from the first of the month.
- Navigation.MonthNavi: for the years 10000..32767, which `checkdate` accepts, `sprintf("%04d-%02d-%02d", …)` writes a five-digit year that `strtotime` does not read as that date, so the source's links there are not month steps. The model gives the calendar month steps for every year `checkdate` accepts, and states nothing about what PHP's date parser does with those strings.
- Articles.LastDay: for a month of a year above 9999 the source's `date("t", strtotime(…))` has the same five-digit-year problem. It is reached only when that month is not in the future, that is when today is past the year 9999, and the model gives the month length.
- The notice helpers `get_notice`/`set_notice`: session plumbing with no bearing on the rest.
- The password comparison: reduced to whether the posted password equals the configured one, or is missing.
- PHP 7 behaviour of `hash_equals` on `null`: it returns false with a warning instead of throwing, so the request would continue instead of aborting.
- Articles.Interpolate: requires a month in 1..12, because its only caller runs it after `checkdate($month, 1, $year)` succeeds. What `date("t")` would give for an invalid month is not modelled.
- Articles.SortByDay: states sortedness and permutation, not the relative order of entries with the same day. Entries of one month from the store never share a day, so the order is then fully fixed.

## Findings

| source | as written | input that shows it | evidently intended | confidence | as-written member | corrected member |
|---|---|---|---|---|---|---|
| index.php:122 | ` ESCAPE '!'` is appended once after `implode(" AND ", $wheres)`, so SQLite attaches it to the last `message LIKE ?` only, and every earlier condition reads its parameter with no escape character | keyword "a_b c": the first parameter `%a!_b%` asks for "a", "!", one character, "b", so a message "a_b c" is not found | every `message LIKE ?` carries `ESCAPE '!'`, so every condition means "contains its fragment" | high, not executed | Search.AsWrittenMissesUnderscore | Search.SearchConditions |

The search (`Search.SearchArticles`, and through it `App.SearchView` and
`App.Run`) asks the database with the conditions as written,
`Search.AsWrittenConditions`. `Search.CorrectedSearchArticles` is the same
search asked with `Search.SearchConditions`.
`Search.AsWrittenContainsIff` says which of its conditions still mean
"contains": the last one, and any whose fragment has no `!`, `_` or `%`.
