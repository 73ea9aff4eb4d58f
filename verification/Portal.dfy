/** Whole runs of the portal: any requests, in any order, and the sweeper's turns among them. */
module Portal {
  import opened Common
  import opened Text
  import opened FileSystem
  import opened Ledger
  import opened CaseStore
  import opened Desk
  import opened Handlers
  import opened Ustar
  import opened Tarpack
  import Crypto
  import Pow
  import Retention
  import Sessions

  datatype Request =
    | Submit(form: SubmitForm, clock: Clock, draws: Draws)
    | Ask(cookie: string, csrf: string, typed: string)
    | Answer(auth: Auth, id: Id, typedCode: string, typedBody: string, nonce: Bytes)
    | Login(cookie: string, csrf: string, password: string, code: string, at: int, token: Option<string>)
    | Logout(auth: Auth, isPost: bool)
    | Fetch(auth: Auth, id: Id)
    | Browse(auth: Auth, what: AdminPage)
    | Sweep(now: int)

  /** The pages of the receiver's side that only show something. */
  datatype AdminPage = Root | Cases | Case(id: Id)

  predicate WellDrawn(r: Request) {
    r.Answer? ==> |r.nonce| == Crypto.NONCE_SIZE
  }

  /** One request with its page, what had happened before and what it added. */
  datatype Turn = Turn(request: Request, page: Page, before: seq<Event>, events: seq<Event>, sessions: seq<Sessions.Event>)

  /** The only events are an opened case, an authorised reply, a sweep and a wipe under duress. */
  ghost predicate Recorded(app: App, t: Turn) {
    match t.request
    case Submit(form, clock, draws) =>
      if t.events == [] then IsRefusal(t.page) else IsOpening(app, t, clock) && EarnedBy(app, form, clock, draws, t.page)
    case Ask(_, _, _) => t.events == []
    case Answer(auth, id, code, body, _) =>
      t.events == if app.Authorized(Sessions.Run(t.sessions), auth, true) && ValidCaseID(id)
                  then [Replied(id, code, body)] else []
    case Login(cookie, csrf, password, code, at, _) =>
      t.events == if Sessions.VerifyAnonCSRF(cookie, csrf) && app.UnderDuress(password, code, at) then [Wiped] else []
    case Logout(_, _) => t.events == []
    case Fetch(_, _) => t.events == []
    case Browse(_, _) => t.events == []
    case Sweep(now) => t.events == [Swept(now)]
  }

  ghost predicate IsOpening(app: App, t: Turn, clock: Clock) {
    && t.page.Done? && |t.events| == 1 && t.events[0].Submitted?
    && t.events[0] == Submitted(t.events[0].id, t.page.text, clock.stored, Retention.TtlSeconds(app.cfg.ttlDays),
                                 t.events[0].blob)
  }

  /** The form passed every check, and the page shows the code that was drawn. */
  ghost predicate EarnedBy(app: App, form: SubmitForm, clock: Clock, draws: Draws, page: Page) {
    && Pow.IsMac(app.secrets.powMac) && Passes(app.cfg, app.secrets, form, clock.checked)
    && page.Done? && GoodCode(draws, page.text)
  }

  /** The form passed, but a draw failed, the metadata could not be written, or no id was free. */
  ghost predicate Unlucky(app: App, form: SubmitForm, draws: Draws, b: Book) {
    exists sub :: IsEntered(sub, app.cfg, form) && app.Hindered(draws, sub, b)
  }

  /** The blob of an open case, for a live session. */
  ghost function FetchedPage(app: App, m: Sessions.Table, b: Book, auth: Auth, id: Id): Page {
    if !app.Authorized(m, auth, false) then app.DeniedPage(m, auth)
    else if ValidCaseID(id) && id in b then Download(b[id].blob)
    else Status(404)
  }

  /** What the receiver's pages show. */
  ghost function BrowsedPage(app: App, m: Sessions.Table, b: Book, auth: Auth, at: AdminPage): Page {
    if at.Root? then SeeOther(if Sessions.Accepts(m, auth.cookie, auth.checked) then INBOX else LOGIN)
    else if !app.Authorized(m, auth, false) then app.DeniedPage(m, auth)
    else if at.Cases? then Inbox(Listed(b))
    else CaseView(b, at.id)
  }

  /** Whom the request speaks for, and whether it is a POST; /admin turns nobody away. */
  function AuthOf(r: Request): Option<(Auth, bool)> {
    match r
    case Answer(auth, _, _, _, _) => Some((auth, true))
    case Logout(auth, isPost) => Some((auth, isPost))
    case Fetch(auth, _) => Some((auth, false))
    case Browse(auth, at) => if at.Root? then None else Some((auth, false))
    case _ => None
  }

  /** Without a live session, or a POST without its token, the request is turned away, whatever it asks for. */
  ghost predicate TurnedAway(app: App, t: Turn) {
    AuthOf(t.request).Some? &&
    var (auth, isPost) := AuthOf(t.request).value;
    !app.Authorized(Sessions.Run(t.sessions), auth, isPost) && t.page == app.DeniedPage(Sessions.Run(t.sessions), auth)
  }

  /** Who gets in: by a session and its token, or by password and one-time code. */
  ghost predicate Guarded(app: App, t: Turn) {
    && (AuthOf(t.request).Some? ==>
          var (auth, isPost) := AuthOf(t.request).value;
          app.Authorized(Sessions.Run(t.sessions), auth, isPost) || TurnedAway(app, t))
    && (t.request.Login? ==> LoginAnswered(app, t))
  }

  ghost predicate LoginAnswered(app: App, t: Turn)
    requires t.request.Login?
  {
    var r := t.request;
    && (t.page == SeeOther(INBOX) <==>
          Sessions.VerifyAnonCSRF(r.cookie, r.csrf) && app.LogsIn(r.password, r.code, r.at)
          && !app.UnderDuress(r.password, r.code, r.at) && r.token.Some?)
    && (!Sessions.VerifyAnonCSRF(r.cookie, r.csrf) ==> t.page == Status(403))
    && (Sessions.VerifyAnonCSRF(r.cookie, r.csrf) && !app.LogsIn(r.password, r.code, r.at) ==> t.page == LoginFailed)
    && (Sessions.VerifyAnonCSRF(r.cookie, r.csrf) && app.UnderDuress(r.password, r.code, r.at) ==> t.page == LoginFailed)
  }

  /** The page that the book so far and the sessions so far call for. */
  ghost predicate Answered(app: App, t: Turn) {
    match t.request
    case Submit(form, clock, draws) =>
      t.events == [] && Pow.IsMac(app.secrets.powMac) && Passes(app.cfg, app.secrets, form, clock.checked) ==>
        Unlucky(app, form, draws, Run(t.before))
    case Ask(cookie, csrf, typed) =>
      if !Sessions.VerifyAnonCSRF(cookie, csrf) then t.page == Status(403)
      else if TrimSpace(typed) == "" then t.page == Status(400)
      else t.page.ReplyPage? && Shows(Run(t.before), typed, t.page.view)
    case Answer(auth, id, code, body, _) =>
      t.page == if app.Authorized(Sessions.Run(t.sessions), auth, true)
                then ReplyOutcome(Run(t.before), id, code, body) else app.DeniedPage(Sessions.Run(t.sessions), auth)
    case Fetch(auth, id) => t.page == FetchedPage(app, Sessions.Run(t.sessions), Run(t.before), auth, id)
    case Browse(auth, at) => t.page == BrowsedPage(app, Sessions.Run(t.sessions), Run(t.before), auth, at)
    case Logout(auth, isPost) => TurnedAway(app, t) || t.page == SeeOther(LOGIN)
    case _ => true
  }

  /** What the turn does to the session table. */
  ghost function SessionEvents(app: App, t: Turn): seq<Sessions.Event> {
    match t.request
    case Answer(auth, _, _, _, _) => [TouchOf(auth)]
    case Fetch(auth, _) => [TouchOf(auth)]
    case Browse(auth, _) => [TouchOf(auth)]
    case Logout(auth, isPost) =>
      if app.Authorized(Sessions.Run(t.sessions), auth, isPost) then [TouchOf(auth), Sessions.Destroy(auth.cookie)]
      else [TouchOf(auth)]
    case Login(_, _, _, _, at, token) =>
      if t.page == SeeOther(INBOX) && token.Some? then [Sessions.New(token.value, at)] else []
    case _ => []
  }

  lemma SessionsSnoc(h: seq<Sessions.Event>, e: Sessions.Event)
    ensures Sessions.Run(h + [e]) == Sessions.Step(Sessions.Run(h), e)
  {
    assert (h + [e])[..|h|] == h;
  }

  /** What one turn promises. */
  ghost predicate IsTurn(app: App, t: Turn) {
    Recorded(app, t) && Guarded(app, t) && (LiveCodesDiffer(t.before + t.events) ==> Answered(app, t))
  }

  method ServeSubmit(app: App, r: Request, ghost sessions: seq<Sessions.Event>)
    returns (page: Page, ghost t: Turn, ghost sessions': seq<Sessions.Event>)
    requires r.Submit? && app.Valid() && app.sessions.sessions == Sessions.Run(sessions)
    modifies app`history, app.store`rows, app.store`statements, app.store.disk
    ensures app.Valid() && app.history == t.before + t.events && app.sessions.sessions == Sessions.Run(sessions')
    ensures t == Turn(r, page, old(app.history), t.events, sessions) && sessions' == sessions + SessionEvents(app, t)
    ensures Recorded(app, t) && Guarded(app, t) && (old(app.Sound()) ==> Answered(app, t))
    ensures old(app.Sound()) && LiveCodesDiffer(app.history) ==> app.Sound()
  {
    ghost var made, sub;
    ghost var h := app.history;
    page, made, sub := app.ProcessSubmit(r.form, r.clock, r.draws);
    sessions' := sessions;
    t := Turn(r, page, h, app.history[|h|..], sessions);
  }

  method ServeSweep(app: App, r: Request, ghost sessions: seq<Sessions.Event>)
    returns (page: Page, ghost t: Turn, ghost sessions': seq<Sessions.Event>)
    requires r.Sweep? && app.Valid() && app.sessions.sessions == Sessions.Run(sessions)
    modifies app`history, app.store`rows, app.store`statements, app.store.disk
    ensures app.Valid() && app.history == t.before + t.events && app.sessions.sessions == Sessions.Run(sessions')
    ensures t == Turn(r, page, old(app.history), t.events, sessions) && sessions' == sessions + SessionEvents(app, t)
    ensures Recorded(app, t) && Guarded(app, t)
    ensures old(app.Sound()) ==> app.Sound() && Answered(app, t)
  {
    ghost var h := app.history;
    var n, ok := app.SweepOnce(r.now);
    page, sessions' := NoPage, sessions;
    t := Turn(r, page, h, app.history[|h|..], sessions);
  }

  method ServeAnswer(app: App, r: Request, ghost sessions: seq<Sessions.Event>)
    returns (page: Page, ghost t: Turn, ghost sessions': seq<Sessions.Event>)
    requires r.Answer? && WellDrawn(r) && app.Valid() && app.sessions.sessions == Sessions.Run(sessions)
    modifies app`history, app.sessions`sessions, app.store`rows, app.store`statements, app.store.disk
    ensures app.Valid() && app.history == t.before + t.events && app.sessions.sessions == Sessions.Run(sessions')
    ensures t == Turn(r, page, old(app.history), t.events, sessions) && sessions' == sessions + SessionEvents(app, t)
    ensures Recorded(app, t) && Guarded(app, t)
    ensures old(app.Sound()) ==> app.Sound() && Answered(app, t)
  {
    ghost var h := app.history;
    SessionsSnoc(sessions, TouchOf(r.auth));
    page := app.HandleAdminReply(r.auth, r.id, r.typedCode, r.typedBody, r.nonce);
    sessions' := sessions + [TouchOf(r.auth)];
    t := Turn(r, page, h, app.history[|h|..], sessions);
  }

  method ServeLogin(app: App, r: Request, ghost sessions: seq<Sessions.Event>)
    returns (page: Page, ghost t: Turn, ghost sessions': seq<Sessions.Event>)
    requires r.Login? && app.Valid() && app.sessions.sessions == Sessions.Run(sessions)
    modifies app`history, app.sessions`sessions, app.store`rows, app.store`statements, app.store.disk
    ensures app.Valid() && app.history == t.before + t.events && app.sessions.sessions == Sessions.Run(sessions')
    ensures t == Turn(r, page, old(app.history), t.events, sessions) && sessions' == sessions + SessionEvents(app, t)
    ensures Recorded(app, t) && Guarded(app, t)
    ensures old(app.Sound()) ==> app.Sound()
  {
    ghost var h := app.history;
    sessions' := sessions;
    page := app.HandleAdminLogin(r.cookie, r.csrf, r.password, r.code, r.at, r.token);
    if page == SeeOther(INBOX) {
      SessionsSnoc(sessions, Sessions.New(r.token.value, r.at));
      sessions' := sessions + [Sessions.New(r.token.value, r.at)];
    }
    t := Turn(r, page, h, app.history[|h|..], sessions);
  }

  method ServeLogout(app: App, r: Request, ghost sessions: seq<Sessions.Event>)
    returns (page: Page, ghost t: Turn, ghost sessions': seq<Sessions.Event>)
    requires r.Logout? && app.Valid() && app.sessions.sessions == Sessions.Run(sessions)
    modifies app.sessions`sessions
    ensures app.Valid() && app.sessions.sessions == Sessions.Run(sessions')
    ensures t == Turn(r, page, app.history, [], sessions) && sessions' == sessions + SessionEvents(app, t)
    ensures Guarded(app, t)
    ensures old(app.Sound()) ==> app.Sound() && Answered(app, t)
  {
    SessionsSnoc(sessions, TouchOf(r.auth));
    page := app.HandleAdminLogout(r.auth, r.isPost);
    sessions' := sessions + [TouchOf(r.auth)];
    if app.Authorized(Sessions.Run(sessions), r.auth, r.isPost) {
      SessionsSnoc(sessions', Sessions.Destroy(r.auth.cookie));
      sessions' := sessions + [TouchOf(r.auth), Sessions.Destroy(r.auth.cookie)];
      assert sessions' == sessions + [TouchOf(r.auth)] + [Sessions.Destroy(r.auth.cookie)];
    }
    t := Turn(r, page, app.history, [], sessions);
  }

  method ShowPage(app: App, auth: Auth, at: AdminPage) returns (page: Page)
    requires app.Valid()
    modifies app.sessions`sessions, app.store`statements
    ensures app.Valid() && (old(app.Sound()) ==> app.Sound())
    ensures app.sessions.sessions == Sessions.Step(old(app.sessions.sessions), TouchOf(auth))
    ensures !at.Root? && !app.Authorized(old(app.sessions.sessions), auth, false) ==>
      page == app.DeniedPage(old(app.sessions.sessions), auth)
    ensures old(app.Sound()) ==> page == BrowsedPage(app, old(app.sessions.sessions), app.Book(), auth, at)
  {
    match at {
      case Root => page := app.HandleAdminRoot(auth);
      case Cases => page := app.HandleAdminInbox(auth);
      case Case(id) => page := app.HandleAdminCase(auth, id);
    }
  }

  method ServeBrowse(app: App, r: Request, ghost sessions: seq<Sessions.Event>)
    returns (page: Page, ghost t: Turn, ghost sessions': seq<Sessions.Event>)
    requires r.Browse? && app.Valid() && app.sessions.sessions == Sessions.Run(sessions)
    modifies app.sessions`sessions, app.store`statements
    ensures app.Valid() && app.sessions.sessions == Sessions.Run(sessions')
    ensures t == Turn(r, page, app.history, [], sessions) && sessions' == sessions + SessionEvents(app, t)
    ensures Guarded(app, t)
    ensures old(app.Sound()) ==> app.Sound() && Answered(app, t)
  {
    SessionsSnoc(sessions, TouchOf(r.auth));
    page := ShowPage(app, r.auth, r.what);
    sessions' := sessions + [TouchOf(r.auth)];
    t := Turn(r, page, app.history, [], sessions);
  }

  method ServeFetch(app: App, r: Request, ghost sessions: seq<Sessions.Event>)
    returns (page: Page, ghost t: Turn, ghost sessions': seq<Sessions.Event>)
    requires r.Fetch? && app.Valid() && app.sessions.sessions == Sessions.Run(sessions)
    modifies app.sessions`sessions, app.store`rows, app.store`statements, app.store.disk`calls
    ensures app.Valid() && app.sessions.sessions == Sessions.Run(sessions')
    ensures t == Turn(r, page, app.history, [], sessions) && sessions' == sessions + SessionEvents(app, t)
    ensures Guarded(app, t)
    ensures old(app.Sound()) ==> app.Sound() && Answered(app, t)
  {
    SessionsSnoc(sessions, TouchOf(r.auth));
    page := app.HandleAdminDownload(r.auth, r.id);
    sessions' := sessions + [TouchOf(r.auth)];
    t := Turn(r, page, app.history, [], sessions);
  }

  method ServeAsk(app: App, r: Request, ghost sessions: seq<Sessions.Event>)
    returns (page: Page, ghost t: Turn, ghost sessions': seq<Sessions.Event>)
    requires r.Ask? && app.Valid() && app.sessions.sessions == Sessions.Run(sessions)
    modifies app.store`statements, app.store.disk`calls
    ensures app.Valid() && app.sessions.sessions == Sessions.Run(sessions')
    ensures t == Turn(r, page, app.history, [], sessions) && sessions' == sessions + SessionEvents(app, t)
    ensures Guarded(app, t)
    ensures old(app.Sound()) ==> app.Sound() && Answered(app, t)
  {
    page := app.HandleReply(r.cookie, r.csrf, r.typed);
    sessions' := sessions;
    t := Turn(r, page, app.history, [], sessions);
  }

  method ServeRead(app: App, r: Request, ghost sessions: seq<Sessions.Event>)
    returns (page: Page, ghost t: Turn, ghost sessions': seq<Sessions.Event>)
    requires (r.Ask? || r.Fetch? || r.Logout? || r.Browse?) && app.Valid() && app.sessions.sessions == Sessions.Run(sessions)
    modifies app.sessions`sessions, app.store`rows, app.store`statements, app.store.disk`calls
    ensures app.Valid() && app.sessions.sessions == Sessions.Run(sessions')
    ensures t == Turn(r, page, app.history, [], sessions) && sessions' == sessions + SessionEvents(app, t)
    ensures Guarded(app, t)
    ensures old(app.Sound()) ==> app.Sound() && Answered(app, t)
  {
    match r {
      case Ask(_, _, _) =>
        page, t, sessions' := ServeAsk(app, r, sessions);
      case Fetch(_, _) =>
        page, t, sessions' := ServeFetch(app, r, sessions);
      case Logout(_, _) =>
        page, t, sessions' := ServeLogout(app, r, sessions);
      case Browse(_, _) =>
        page, t, sessions' := ServeBrowse(app, r, sessions);
    }
  }

  method ServeOne(app: App, r: Request, ghost sessions: seq<Sessions.Event>)
    returns (page: Page, ghost t: Turn, ghost sessions': seq<Sessions.Event>)
    requires WellDrawn(r) && app.Valid() && app.sessions.sessions == Sessions.Run(sessions)
    modifies app`history, app.sessions`sessions, app.store`rows, app.store`statements, app.store.disk
    ensures app.Valid() && app.history == t.before + t.events && app.sessions.sessions == Sessions.Run(sessions')
    ensures t == Turn(r, page, old(app.history), t.events, sessions) && sessions' == sessions + SessionEvents(app, t)
    ensures Recorded(app, t) && Guarded(app, t)
    ensures old(app.Sound()) && LiveCodesDiffer(app.history) ==> app.Sound()
    ensures old(app.Sound()) ==> Answered(app, t)
  {
    match r {
      case Submit(_, _, _) =>
        page, t, sessions' := ServeSubmit(app, r, sessions);
      case Answer(_, _, _, _, _) =>
        page, t, sessions' := ServeAnswer(app, r, sessions);
      case Login(_, _, _, _, _, _) =>
        page, t, sessions' := ServeLogin(app, r, sessions);
      case Sweep(_) =>
        page, t, sessions' := ServeSweep(app, r, sessions);
      case _ =>
        page, t, sessions' := ServeRead(app, r, sessions);
    }
  }

  /** As long as no submission drew the code of a case still open, the store is a faithful copy of the book. */
  ghost predicate Faithful(app: App)
    reads app, app.store, app.store.disk
  {
    LiveCodesDiffer(app.history) ==> app.Sound()
  }

  method ServeTurn(app: App, r: Request, ghost sessions: seq<Sessions.Event>)
    returns (page: Page, ghost t: Turn, ghost sessions': seq<Sessions.Event>)
    requires WellDrawn(r) && app.Valid() && app.sessions.sessions == Sessions.Run(sessions)
    modifies app`history, app.sessions`sessions, app.store`rows, app.store`statements, app.store.disk
    ensures app.Valid() && app.history == t.before + t.events && app.sessions.sessions == Sessions.Run(sessions')
    ensures t.before == old(app.history) && t.request == r && t.page == page
    ensures t.sessions == sessions && sessions' == sessions + SessionEvents(app, t)
    ensures old(Faithful(app)) ==> Faithful(app) && IsTurn(app, t)
  {
    page, t, sessions' := ServeOne(app, r, sessions);
    if LiveCodesDiffer(app.history) {
      LiveCodesBefore(t.before, t.events);
    }
  }

  /** The turns follow one another, each adding its events to the two histories before it. */
  ghost predicate Chained(app: App, start: seq<Event>, sessions: seq<Sessions.Event>, turns: seq<Turn>,
                          finish: seq<Event>, sessions': seq<Sessions.Event>) {
    if turns == [] then finish == start && sessions' == sessions
    else
      var t := turns[|turns| - 1];
      && Chained(app, start, sessions, turns[..|turns| - 1], t.before, t.sessions)
      && finish == t.before + t.events && sessions' == t.sessions + SessionEvents(app, t)
  }

  lemma ChainSnoc(app: App, start: seq<Event>, sessions: seq<Sessions.Event>, turns: seq<Turn>, t: Turn)
    requires Chained(app, start, sessions, turns, t.before, t.sessions)
    ensures Chained(app, start, sessions, turns + [t], t.before + t.events, t.sessions + SessionEvents(app, t))
  {
    assert (turns + [t])[..|turns|] == turns;
  }

  /**
    `kakekomi run` on an empty data directory: a sound portal with an empty
    history, from which every run below starts.
   */
  method StartServer(cfg: Config, secrets: Secrets, marshal: Meta -> Option<Bytes>, richer: seq<TarFile> -> Bytes,
                     suite: Crypto.Suite, csrf: string -> string, disk: Disk, sqlWorks: nat -> bool)
    returns (r: Option<App>)
    requires disk.Valid() && disk.files == map[] && disk.dirs == {[]}
    requires Pow.IsMac(secrets.powMac)
    modifies disk`calls, disk`dirs
    ensures disk.fate(old(disk.calls)).Works? && sqlWorks(0) ==> r.Some?
    ensures r.Some? ==>
      && fresh(r.value) && r.value.Valid() && r.value.history == [] && r.value.store.rows == map[]
      && r.value.sessions.sessions == Sessions.Run([])
    ensures r.Some? && disk.FaultFree() && (forall n :: sqlWorks(n)) && Crypto.Lawful(suite) ==>
      r.value.Sound() && Faithful(r.value)
  {
    var store := OpenStore(suite, disk, sqlWorks, map[]);
    if store.None? {
      return None;
    }
    assert disk.dirs == {[], BLOB_DIR};
    WipedRepresents(suite, secrets.lookupKey);
    var sessions := new Sessions.SessionStore(csrf);
    var app := new App(cfg, secrets, marshal, richer, store.value, sessions, []);
    r := Some(app);
  }

  /** Each request got its page in a turn of its own. */
  ghost predicate AreTurns(app: App, requests: seq<Request>, pages: seq<Page>, turns: seq<Turn>) {
    && |pages| == |turns| == |requests|
    && forall i :: 0 <= i < |turns| ==> IsTurnOf(app, requests[i], pages[i], turns[i])
  }

  ghost predicate IsTurnOf(app: App, r: Request, page: Page, t: Turn) {
    t.request == r && t.page == page && IsTurn(app, t)
  }

  lemma OneMoreTurn(app: App, requests: seq<Request>, pages: seq<Page>, turns: seq<Turn>, t: Turn)
    requires |turns| < |requests| && AreTurns(app, requests[..|turns|], pages, turns)
    requires t.request == requests[|turns|] && IsTurn(app, t)
    ensures AreTurns(app, requests[..|turns| + 1], pages + [t.page], turns + [t])
  {
    var n := |turns|;
    forall i | 0 <= i < n + 1
      ensures IsTurnOf(app, requests[..n + 1][i], (pages + [t.page])[i], (turns + [t])[i])
    {
      if i < n {
        assert IsTurnOf(app, requests[..n][i], pages[i], turns[i]);
      }
    }
  }

  /** The first `n` requests have been served from the two histories given. */
  ghost predicate ServedSoFar(app: App, start: seq<Event>, sessions: seq<Sessions.Event>, requests: seq<Request>, n: nat,
                              pages: seq<Page>, turns: seq<Turn>, now: seq<Event>, sessions': seq<Sessions.Event>,
                              faithful: bool)
    requires n <= |requests|
  {
    && |pages| == |turns| == n
    && Chained(app, start, sessions, turns, now, sessions')
    && (faithful ==> AreTurns(app, requests[..n], pages, turns))
  }

  lemma OneMoreServed(app: App, start: seq<Event>, sessions: seq<Sessions.Event>, requests: seq<Request>, n: nat,
                      pages: seq<Page>, turns: seq<Turn>, t: Turn, faithful: bool)
    requires n < |requests| && t.request == requests[n] && (faithful ==> IsTurn(app, t))
    requires ServedSoFar(app, start, sessions, requests, n, pages, turns, t.before, t.sessions, faithful)
    ensures ServedSoFar(app, start, sessions, requests, n + 1, pages + [t.page], turns + [t],
                        t.before + t.events, t.sessions + SessionEvents(app, t), faithful)
  {
    ChainSnoc(app, start, sessions, turns, t);
    if faithful {
      OneMoreTurn(app, requests, pages, turns, t);
    }
  }

  /**
    Every run.  Whatever requests arrive, a faithful portal stays faithful,
    every page is the one that the book and the sessions before it call for,
    and nothing but an opened case, an authorised reply, a sweep and a wipe
    ever enters the history.
   */
  method Serve(app: App, requests: seq<Request>, ghost sessions: seq<Sessions.Event>)
    returns (pages: seq<Page>, ghost turns: seq<Turn>, ghost sessions': seq<Sessions.Event>)
    requires forall i :: 0 <= i < |requests| ==> WellDrawn(requests[i])
    requires app.Valid() && app.sessions.sessions == Sessions.Run(sessions)
    modifies app`history, app.sessions`sessions, app.store`rows, app.store`statements, app.store.disk
    ensures app.Valid() && app.sessions.sessions == Sessions.Run(sessions')
    ensures Chained(app, old(app.history), sessions, turns, app.history, sessions')
    ensures old(Faithful(app)) ==> Faithful(app) && AreTurns(app, requests, pages, turns)
  {
    pages, turns := [], [];
    sessions' := sessions;
    ghost var start, faithful := app.history, Faithful(app);
    for i := 0 to |requests|
      invariant app.Valid() && app.sessions.sessions == Sessions.Run(sessions')
      invariant ServedSoFar(app, start, sessions, requests, i, pages, turns, app.history, sessions', faithful)
      invariant faithful ==> Faithful(app)
    {
      ghost var t;
      var page;
      page, t, sessions' := ServeTurn(app, requests[i], sessions');
      OneMoreServed(app, start, sessions, requests, i, pages, turns, t, faithful);
      pages, turns := pages + [page], turns + [t];
    }
    assert requests[..|requests|] == requests;
  }

  lemma AskShows(app: App, t: Turn)
    requires t.request.Ask? && IsTurn(app, t) && LiveCodesDiffer(t.before)
    requires Sessions.VerifyAnonCSRF(t.request.cookie, t.request.csrf) && TrimSpace(t.request.typed) != ""
    ensures t.page.ReplyPage? && Shows(Run(t.before), t.request.typed, t.page.view)
  {
    assert t.before + t.events == t.before;
  }
}
