/** One request to the diary (`App::run` and the handlers it dispatches to),
    as a function from the session and the stored articles before the
    request to those after it and the page produced.

    The clock, the new CSRF token (`random_bytes`) and the search query's
    answer from the database are parameters. A PHP `TypeError` that ends the
    request (a `null` where a string is required) is the `Aborted` page: the
    session changes made before it persist and nothing else happens. */
module App {
  import opened Options
  import opened Calendar
  import opened Articles
  import opened Search
  import opened Navigation

  /** A CSRF token: an opaque string compared with `hash_equals`. */
  type Token = string

  /** `$_SESSION`: the login flag and the CSRF token, either possibly unset. */
  datatype Session = Session(loggedIn: bool, csrfToken: Option<Token>)

  /** The `articles` table: one message per date (the unique index on
      year, month, day). */
  type Store = map<Date, string>

  datatype State = State(session: Session, store: Store)

  /** Every stored date passed `checkdate`, which `update` demands. */
  predicate ValidStore(store: Store) {
    forall k | k in store :: CheckDate(k.month, k.day, k.year)
  }

  /** The request parameters, already parsed; `None` when not sent. The
      posted password is reduced to whether it equals the configured one. */
  datatype Request = Request(
    getMode: Option<string>,
    postMode: Option<string>,
    getYear: Option<int>,
    getMonth: Option<int>,
    getDay: Option<int>,
    keyword: Option<string>,
    formToken: Option<Token>,
    passwordMatches: Option<bool>,
    postYear: Option<int>,
    postMonth: Option<int>,
    postDay: Option<int>,
    message: Option<string>)

  datatype Page =
    | Redirect(target: Option<YearMonth>)
    | ShowPage(articles: seq<Article>, navi: Navi, editable: bool)
    | SearchPage(result: SearchResult, editable: bool)
    | EditPage(article: Article)
    | Aborted

  datatype Outcome = Outcome(state: State, page: Page)

  // ----- App::checkCsrfToken -----

  /** The result of `hash_equals($csrf_token, $form_token)`, which throws
      when the session holds no token. */
  datatype Verdict = Match | Mismatch | TypeError

  datatype CsrfCheck = CsrfCheck(session: Session, verdict: Verdict)

  /** `App::checkCsrfToken`: the session token is removed before it is
      compared, so every check consumes it, whatever the verdict. */
  function CheckCsrfToken(session: Session, formToken: Token): (c: CsrfCheck)
    ensures c.session.csrfToken == None && c.session.loggedIn == session.loggedIn
    ensures c.verdict == Match <==> session.csrfToken == Some(formToken)
    ensures c.verdict == TypeError <==> session.csrfToken == None
  {
    var s := session.(csrfToken := None);
    match session.csrfToken
    case None => CsrfCheck(s, TypeError)
    case Some(known) => CsrfCheck(s, if known == formToken then Match else Mismatch)
  }

  // ----- App::login and App::logout -----

  datatype Step = Continue(session: Session) | Abort(session: Session)

  /** `App::login`: the token check runs first (and always consumes the
      token); the password is compared only after a match. */
  function Login(session: Session, req: Request): (s: Step)
    ensures s.session.loggedIn <==>
              session.loggedIn
              || (req.formToken.Some? && session.csrfToken == req.formToken
                  && req.passwordMatches == Some(true))
    ensures s.Abort? <==>
              req.formToken.None? || session.csrfToken.None?
              || (session.csrfToken == req.formToken && req.passwordMatches.None?)
    ensures req.formToken.Some? ==> s.session.csrfToken == None
  {
    match req.formToken
    case None => Abort(session)
    case Some(t) =>
      var c := CheckCsrfToken(session, t);
      match c.verdict
      case TypeError => Abort(c.session)
      case Mismatch => Continue(c.session)
      case Match =>
        match req.passwordMatches
        case None => Abort(c.session)
        case Some(ok) => Continue(if ok then c.session.(loggedIn := true) else c.session)
  }

  /** `App::logout`: the session is logged out and keeps its token. */
  function Logout(session: Session): (s: Session)
    ensures !s.loggedIn
    ensures s.csrfToken == session.csrfToken
  {
    session.(loggedIn := false)
  }

  // ----- dispatch -----

  datatype Handler = UpdateHandler | EditHandler | SearchHandler | ShowHandler

  /** The `if`/`elseif` chain of `App::run`: a posted `update` wins over any
      `mode` in the query string. */
  function Route(req: Request): (h: Handler)
    ensures h == UpdateHandler <==> req.postMode == Some("update")
    ensures h == EditHandler <==> req.postMode != Some("update") && req.getMode == Some("edit")
    ensures h == SearchHandler <==> req.postMode != Some("update") && req.getMode == Some("search")
  {
    if req.postMode == Some("update") then UpdateHandler
    else if req.getMode == Some("edit") then EditHandler
    else if req.getMode == Some("search") then SearchHandler
    else ShowHandler
  }

  // ----- App::update -----

  function PostedDate(req: Request): Date {
    Date(req.postYear.GetOr(0), req.postMonth.GetOr(0), req.postDay.GetOr(0))
  }

  /** `App::update`. `logined` is the login flag read when the request
      started. When it is false the token check is skipped by `||`'s short
      circuit and the token stays in the session. The write is
      `REPLACE INTO`: the date's message is set, whatever was there. */
  function Update(logined: bool, st: State, req: Request): (o: Outcome)
    ensures o.state.session.loggedIn == st.session.loggedIn
    ensures !logined ==> o == Outcome(st, Redirect(None))
    ensures logined && req.formToken.Some? ==> o.state.session.csrfToken == None
    ensures o.state.store != st.store ==>
              logined && req.formToken.Some? && st.session.csrfToken == req.formToken
              && var k := PostedDate(req);
                 CheckDate(k.month, k.day, k.year)
    ensures o.state.store == st.store || o.state.store == st.store[PostedDate(req) := req.message.GetOr("")]
  {
    if !logined then Outcome(st, Redirect(None))
    else
      match req.formToken
      case None => Outcome(st, Aborted)
      case Some(t) =>
        var c := CheckCsrfToken(st.session, t);
        var checked := State(c.session, st.store);
        if c.verdict == TypeError then Outcome(checked, Aborted)
        else if c.verdict == Mismatch then Outcome(checked, Redirect(None))
        else
          var k := PostedDate(req);
          if !CheckDate(k.month, k.day, k.year) then Outcome(checked, Redirect(None))
          else
            Outcome(State(c.session, st.store[k := req.message.GetOr("")]),
                    Redirect(Some(YearMonth(k.year, k.month))))
  }

  // ----- App::edit -----

  /** `App::edit`: the stored article for the requested date (today's parts
      by default), or an empty one; a new token goes into the form. */
  function Edit(logined: bool, st: State, req: Request, today: Date, newToken: Token): (o: Outcome)
    ensures o.state.store == st.store && o.state.session.loggedIn == st.session.loggedIn
    ensures !logined ==> o == Outcome(st, Redirect(None))
    ensures logined ==>
              && o.state.session.csrfToken == Some(newToken)
              && o.page.EditPage?
              && var a := o.page.article;
                 var k := Date(a.year, a.month, a.day);
                 && k == Date(req.getYear.GetOr(today.year), req.getMonth.GetOr(today.month), req.getDay.GetOr(today.day))
                 && a.message == (if k in st.store then st.store[k] else "")
  {
    if !logined then Outcome(st, Redirect(None))
    else
      var k := Date(req.getYear.GetOr(today.year), req.getMonth.GetOr(today.month), req.getDay.GetOr(today.day));
      var a := if k in st.store then Article(k.year, k.month, k.day, st.store[k]) else Placeholder(k.year, k.month, k.day);
      Outcome(State(st.session.(csrfToken := Some(newToken)), st.store), EditPage(a))
  }

  // ----- App::show -----

  /** `a` is the stored article of its day in `year`/`month`. */
  predicate IsStoredRow(store: Store, year: int, month: int, a: Article) {
    a.year == year && a.month == month && Date(year, month, a.day) in store
    && a.message == store[Date(year, month, a.day)]
  }

  /** The rows of `SELECT * FROM articles WHERE year = :year AND month =
      :month` for days `day..31`, in day order (one order the unordered
      query may return). */
  function RowsFrom(store: Store, year: int, month: int, day: int): (rows: seq<Article>)
    ensures forall i | 0 <= i < |rows| :: IsStoredRow(store, year, month, rows[i]) && day <= rows[i].day <= 31
    ensures forall i, j | 0 <= i < j < |rows| :: rows[i].day < rows[j].day
    decreases if day <= 31 then 32 - day else 0
  {
    if day > 31 then []
    else if Date(year, month, day) !in store then RowsFrom(store, year, month, day + 1)
    else
      var rest := RowsFrom(store, year, month, day + 1);
      var a := Article(year, month, day, store[Date(year, month, day)]);
      var rows := [a] + rest;
      assert IsStoredRow(store, year, month, a);
      assert forall i | 0 <= i < |rows| :: IsStoredRow(store, year, month, rows[i]) && day <= rows[i].day <= 31 by {
        forall i | 0 <= i < |rows|
          ensures IsStoredRow(store, year, month, rows[i]) && day <= rows[i].day <= 31
        {
          if i > 0 {
            assert rows[i] == rest[i - 1];
          }
        }
      }
      assert forall i, j | 0 <= i < j < |rows| :: rows[i].day < rows[j].day by {
        forall i, j | 0 <= i < j < |rows|
          ensures rows[i].day < rows[j].day
        {
          assert rows[j] == rest[j - 1];
          if i > 0 {
            assert rows[i] == rest[i - 1];
          }
        }
      }
      rows
  }

  /** Every stored date of the month from `day` on is among the rows. */
  lemma {:induction false} RowsFromCovers(store: Store, year: int, month: int, day: int, d: int)
    requires day <= d <= 31 && Date(year, month, d) in store
    ensures Covered(RowsFrom(store, year, month, day), year, month, d)
    decreases 32 - day
  {
    var rows := RowsFrom(store, year, month, day);
    if d == day {
      assert IsOn(rows[0], year, month, d);
    } else {
      RowsFromCovers(store, year, month, day + 1, d);
      var rest := RowsFrom(store, year, month, day + 1);
      var i :| 0 <= i < |rest| && IsOn(rest[i], year, month, d);
      if Date(year, month, day) in store {
        assert rows[i + 1] == rest[i];
        assert IsOn(rows[i + 1], year, month, d);
      }
    }
  }

  /** The month query's rows: with a valid store, every stored article of
      the month, once each. */
  function MonthRows(store: Store, year: int, month: int): (rows: seq<Article>)
    ensures AllIn(rows, year, month)
    ensures ValidStore(store) ==>
              forall d | Date(year, month, d) in store :: Covered(rows, year, month, d)
  {
    var rows := RowsFrom(store, year, month, 1);
    assert ValidStore(store) ==>
      forall d | Date(year, month, d) in store :: Covered(rows, year, month, d) by {
      if ValidStore(store) {
        forall d | Date(year, month, d) in store
          ensures Covered(rows, year, month, d)
        {
          assert CheckDate(month, d, year);
          RowsFromCovers(store, year, month, 1, d);
        }
      }
    }
    rows
  }

  /** `App::show`: the requested month (this month by default), interpolated
      when it passes `checkdate($month, 1, $year)`, else nothing. */
  function Show(logined: bool, st: State, req: Request, today: Date, newToken: Token): (o: Outcome)
    ensures o.state == State(st.session.(csrfToken := Some(newToken)), st.store)
    ensures o.page.ShowPage? && o.page.editable == logined
    ensures var y := req.getYear.GetOr(today.year);
            var m := req.getMonth.GetOr(today.month);
            && o.page.navi == MonthNavi(y, m, today)
            && (!CheckDate(m, 1, y) || IsFutureMonth(y, m, today) ==> o.page.articles == [])
  {
    var y := req.getYear.GetOr(today.year);
    var m := req.getMonth.GetOr(today.month);
    var articles := if CheckDate(m, 1, y) then Interpolate(MonthRows(st.store, y, m), y, m, today) else [];
    Outcome(State(st.session.(csrfToken := Some(newToken)), st.store), ShowPage(articles, MonthNavi(y, m, today), logined))
  }

  // ----- App::search -----

  /** `App::search` as a page; a new token goes into the login form and
      the entries are editable when the request started logged in. */
  function SearchView(logined: bool, st: State, req: Request, newToken: Token, query: seq<Condition> -> seq<Article>): (o: Outcome)
    ensures o.state == State(st.session.(csrfToken := Some(newToken)), st.store)
    ensures o.page.SearchPage? && |o.page.result.articles| <= SearchLimit
    ensures o.page.editable == logined
    ensures var kw := req.keyword.GetOr("");
            var r := o.page.result;
            && (Fragments(kw) == [] ==> r == SearchResult([], false))
            && (Fragments(kw) != [] ==>
                  var rows := query(AsWrittenConditions(kw));
                  && (r.searchLimited <==> |rows| > SearchLimit)
                  && r.articles <= rows
                  && |r.articles| == (if r.searchLimited then SearchLimit else |rows|))
  {
    Outcome(State(st.session.(csrfToken := Some(newToken)), st.store),
            SearchPage(SearchArticles(req.keyword.GetOr(""), query), logined))
  }

  // ----- App::run -----

  /** `App::run`: login if `login` is posted, logout if `logout` is asked
      for, then exactly one of update, edit, search and show. The handlers
      see the login flag as it was when the request started. */
  function Run(st: State, req: Request, today: Date, newToken: Token, query: seq<Condition> -> seq<Article>): (o: Outcome)
    ensures ValidStore(st.store) ==> ValidStore(o.state.store)
    ensures o.page.Aborted? ==> o.state.store == st.store
  {
    var logined := st.session.loggedIn;
    var step := if req.postMode == Some("login") then Login(st.session, req) else Continue(st.session);
    match step
    case Abort(s) => Outcome(State(s, st.store), Aborted)
    case Continue(s1) =>
      var s2 := if req.getMode == Some("logout") then Logout(s1) else s1;
      var st2 := State(s2, st.store);
      match Route(req)
      case UpdateHandler => Update(logined, st2, req)
      case EditHandler => Edit(logined, st2, req, today, newToken)
      case SearchHandler => SearchView(logined, st2, req, newToken, query)
      case ShowHandler => Show(logined, st2, req, today, newToken)
  }

  // ----- properties of a request -----

  /** A posted `update` never renders the show, search or edit page. */
  lemma UpdateRendersNoView(st: State, req: Request, today: Date, newToken: Token, query: seq<Condition> -> seq<Article>)
    requires req.postMode == Some("update")
    ensures var o := Run(st, req, today, newToken, query);
            o.page.Redirect? || o.page.Aborted?
  {
  }

  /** The page follows the dispatch chain. */
  lemma PageFollowsRoute(st: State, req: Request, today: Date, newToken: Token, query: seq<Condition> -> seq<Article>)
    requires req.postMode != Some("login")
    ensures var o := Run(st, req, today, newToken, query);
            && (Route(req) == EditHandler ==> (o.page.EditPage? <==> st.session.loggedIn))
            && (Route(req) == SearchHandler ==> o.page.SearchPage? && o.page.editable == st.session.loggedIn)
            && (Route(req) == ShowHandler ==> o.page.ShowPage? && o.page.editable == st.session.loggedIn)
  {
  }

  /** The update gate: the store changes only through a posted `update`
      from a session that was logged in at the start of the request, whose
      form token equals the session token, for a date `checkdate` accepts;
      and then exactly that date's message is replaced. */
  lemma UpdateGate(st: State, req: Request, today: Date, newToken: Token, query: seq<Condition> -> seq<Article>)
    ensures var o := Run(st, req, today, newToken, query);
            var k := PostedDate(req);
            o.state.store != st.store ==>
              && req.postMode == Some("update")
              && st.session.loggedIn
              && req.formToken.Some? && st.session.csrfToken == req.formToken
              && CheckDate(k.month, k.day, k.year)
              && o.state.store == st.store[k := req.message.GetOr("")]
  {
  }

  /** When every condition of the gate holds, the update happens. */
  lemma UpdateAccepted(st: State, req: Request, today: Date, newToken: Token, query: seq<Condition> -> seq<Article>)
    requires req.postMode == Some("update")
    requires st.session.loggedIn
    requires req.formToken.Some? && st.session.csrfToken == req.formToken
    requires var k := PostedDate(req); CheckDate(k.month, k.day, k.year)
    ensures var o := Run(st, req, today, newToken, query);
            var k := PostedDate(req);
            && o.state.store == st.store[k := req.message.GetOr("")]
            && o.page == Redirect(Some(YearMonth(k.year, k.month)))
            && o.state.session.csrfToken == None
  {
  }

  /** Every request that checks the CSRF token leaves no old token behind:
      the session then holds either no token or the newToken one. */
  lemma TokenConsumed(st: State, req: Request, today: Date, newToken: Token, query: seq<Condition> -> seq<Article>)
    requires req.formToken.Some?
    requires req.postMode == Some("login") || (req.postMode == Some("update") && st.session.loggedIn)
    ensures var o := Run(st, req, today, newToken, query);
            o.state.session.csrfToken == None || o.state.session.csrfToken == Some(newToken)
  {
  }

  /** A token works once: replaying a request that changed the store
      changes nothing, since the session no longer holds the token. */
  lemma {:induction false} ReplayRejected(st: State, req: Request, today: Date, newToken: Token, query: seq<Condition> -> seq<Article>,
                                          today': Date, newToken': Token, query': seq<Condition> -> seq<Article>)
    requires Run(st, req, today, newToken, query).state.store != st.store
    ensures var st' := Run(st, req, today, newToken, query).state;
            Run(st', req, today', newToken', query').state.store == st'.store
  {
    UpdateGate(st, req, today, newToken, query);
    var st' := Run(st, req, today, newToken, query).state;
    assert st'.session.csrfToken == None;
    UpdateGate(st', req, today', newToken', query');
  }

  /** Who is logged in after a request: only a session that was logged in,
      or that posted a matching token and the right password; a logout that
      runs always wins. */
  lemma LoginState(st: State, req: Request, today: Date, newToken: Token, query: seq<Condition> -> seq<Article>)
    ensures var o := Run(st, req, today, newToken, query);
            && (o.state.session.loggedIn ==>
                  st.session.loggedIn
                  || (req.postMode == Some("login") && req.formToken.Some?
                      && st.session.csrfToken == req.formToken && req.passwordMatches == Some(true)))
            && ((req.getMode == Some("logout") && !(req.postMode == Some("login") && o.page.Aborted?))
                ==> !o.state.session.loggedIn)
            && ((req.postMode == Some("login") && req.getMode != Some("logout")
                 && req.formToken.Some? && st.session.csrfToken == req.formToken
                 && req.passwordMatches == Some(true))
                ==> o.state.session.loggedIn)
  {
  }

  /** Every rendered page carries the newToken token in the session; a
      redirect or an aborted request issues none. */
  lemma TokenIssuedWithPage(st: State, req: Request, today: Date, newToken: Token, query: seq<Condition> -> seq<Article>)
    ensures var o := Run(st, req, today, newToken, query);
            && (o.page.ShowPage? || o.page.SearchPage? || o.page.EditPage? ==> o.state.session.csrfToken == Some(newToken))
            && (o.page.Redirect? || o.page.Aborted? ==>
                  o.state.session.csrfToken == st.session.csrfToken || o.state.session.csrfToken == None)
  {
  }

  /** Every entry of a month view carries its date's stored message, or
      the empty one when nothing is stored for that date. */
  lemma ShownMessages(store: Store, y: int, m: int, today: Date)
    requires ValidStore(store)
    requires IsMonth(m)
    ensures var arts := Interpolate(MonthRows(store, y, m), y, m, today);
            forall i | 0 <= i < |arts| ::
              arts[i].year == y && arts[i].month == m
              && arts[i].message == (if Date(y, m, arts[i].day) in store then store[Date(y, m, arts[i].day)] else "")
  {
    var rows := MonthRows(store, y, m);
    var arts := Interpolate(rows, y, m, today);
    forall i | 0 <= i < |arts|
      ensures arts[i].year == y && arts[i].month == m
      ensures arts[i].message == (if Date(y, m, arts[i].day) in store then store[Date(y, m, arts[i].day)] else "")
    {
      var a := arts[i];
      assert a in multiset(arts);
      if a in multiset(rows) {
        var j :| 0 <= j < |rows| && rows[j] == a;
        assert IsStoredRow(store, y, m, rows[j]);
      } else {
        assert a in multiset(arts) - multiset(rows);
        assert !Covered(rows, y, m, a.day);
      }
    }
  }

  /** The month view of a valid store, for a month that is not in the
      future: ordered by day, one entry for every day up to the last day and
      never two for a day, each carrying the stored message of its date or
      the empty one, and no stored article of the month left out. */
  lemma ShowCompleteMonth(st: State, req: Request, today: Date, newToken: Token)
    requires ValidStore(st.store)
    requires var y := req.getYear.GetOr(today.year);
             var m := req.getMonth.GetOr(today.month);
             CheckDate(m, 1, y) && !IsFutureMonth(y, m, today)
    ensures var y := req.getYear.GetOr(today.year);
            var m := req.getMonth.GetOr(today.month);
            var arts := Show(st.session.loggedIn, st, req, today, newToken).page.articles;
            && SortedByDay(arts)
            && (forall d | 1 <= d <= LastDay(y, m, today) :: CountDay(arts, d) == 1)
            && (forall d :: CountDay(arts, d) <= 1)
            && (forall i | 0 <= i < |arts| ::
                  arts[i].year == y && arts[i].month == m
                  && arts[i].message == (if Date(y, m, arts[i].day) in st.store then st.store[Date(y, m, arts[i].day)] else ""))
            && (forall d | Date(y, m, d) in st.store :: Covered(arts, y, m, d))
  {
    var y := req.getYear.GetOr(today.year);
    var m := req.getMonth.GetOr(today.month);
    var rows := MonthRows(st.store, y, m);
    var arts := Interpolate(rows, y, m, today);
    assert arts == Show(st.session.loggedIn, st, req, today, newToken).page.articles;
    forall d ensures CountDay(rows, d) <= 1 {
      IncreasingCountDay(rows, d);
    }
    OnePerDay(rows, y, m, today);
    ShownMessages(st.store, y, m, today);
    forall d | Date(y, m, d) in st.store
      ensures Covered(arts, y, m, d)
    {
      CoveredGrows(rows, arts, y, m, d);
    }
  }
}
