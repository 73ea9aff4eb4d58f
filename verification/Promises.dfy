/**
  What the portal promises its visitors and its receiver, turn by turn over
  whole runs, in terms of what was typed, sent and recorded.
 */
module Promises {
  import opened Common
  import opened Text
  import opened FileSystem
  import opened Intake
  import opened Ledger
  import opened CaseStore
  import opened Handlers
  import opened Portal
  import Pow
  import Retention
  import Sessions

  // ---- replies in a history ----

  /** Event `j` is the receiver's reply to case `c`: its id, its code, and a text, whatever white space surrounds the two. */
  ghost predicate AnsweredAt(h: seq<Event>, c: int, j: int, text: string) {
    && SubmittedAt(h, c) && c < j < |h| && h[j].Replied? && h[j].id == h[c].id
    && h[c].code != "" && Surrounds(h[j].typedCode, h[c].code)
    && text != "" && Surrounds(h[j].typedBody, text)
  }

  /** The last one before event `n`. */
  ghost predicate LastAnswer(h: seq<Event>, c: int, n: int, j: int, text: string) {
    AnsweredAt(h, c, j, text) && j < n && forall k, other :: j < k < n ==> !AnsweredAt(h, c, k, other)
  }

  lemma AnswersMeans(code: string, typedCode: string, typedBody: string, text: string)
    ensures Answers(code, typedCode, typedBody) && TrimSpace(typedBody) == text <==>
      code != "" && Surrounds(typedCode, code) && text != "" && Surrounds(typedBody, text)
  {
    TrimIffSurrounds(typedCode, code);
    TrimIffSurrounds(typedBody, text);
  }

  predicate IsAnswer(h: seq<Event>, c: int, j: int)
    requires SubmittedAt(h, c)
  {
    c < j < |h| && h[j].Replied? && h[j].id == h[c].id && Answers(h[c].code, h[j].typedCode, h[j].typedBody)
  }

  lemma AnswerIs(h: seq<Event>, c: int, j: int, text: string)
    requires SubmittedAt(h, c)
    ensures AnsweredAt(h, c, j, text) <==> IsAnswer(h, c, j) && TrimSpace(h[j].typedBody) == text
  {
    if c < j < |h| && h[j].Replied? {
      AnswersMeans(h[c].code, h[j].typedCode, h[j].typedBody, text);
    }
  }

  /** The last reply before event `n` has this text. */
  ghost predicate LastTextIs(h: seq<Event>, c: int, n: int, text: string) {
    exists j :: LastAnswer(h, c, n, j, text)
  }

  lemma AnswerLast(h: seq<Event>, c: nat, n: nat, m: nat, text: string)
    requires SubmittedAt(h, c) && m + 1 == n <= |h| && IsAnswer(h, c, m)
    ensures LastTextIs(h, c, n, text) <==> TrimSpace(h[m].typedBody) == text
    ensures AnsweredAt(h, c, m, TrimSpace(h[m].typedBody))
  {
    var said := TrimSpace(h[m].typedBody);
    AnswerIs(h, c, m, said);
    AnswerIs(h, c, m, text);
    if said == text {
      assert LastAnswer(h, c, n, m, text);
    }
    if j :| LastAnswer(h, c, n, j, text) {
      assert j == m;
    }
  }

  lemma NoAnswerLast(h: seq<Event>, c: nat, n: nat, m: nat, text: string)
    requires SubmittedAt(h, c) && m + 1 == n <= |h| && !IsAnswer(h, c, m)
    ensures LastTextIs(h, c, n, text) <==> LastTextIs(h, c, m, text)
  {
    AnswerIs(h, c, m, text);
    if j :| LastAnswer(h, c, n, j, text) {
      assert LastAnswer(h, c, m, j, text);
    }
    if j :| LastAnswer(h, c, m, j, text) {
      forall k, other | j < k < n ensures !AnsweredAt(h, c, k, other) {
        AnswerIs(h, c, k, other);
      }
      assert LastAnswer(h, c, n, j, text);
    }
  }

  lemma {:induction false} LastReplyIs(h: seq<Event>, c: nat, n: nat, text: string)
    requires SubmittedAt(h, c) && n <= |h|
    ensures LastReply(h, c, n) == Some(text) <==> LastTextIs(h, c, n, text)
  {
    if n > c + 1 {
      var m: nat := n - 1;
      if IsAnswer(h, c, m) {
        AnswerLast(h, c, n, m, text);
      } else {
        LastReplyIs(h, c, m, text);
        NoAnswerLast(h, c, n, m, text);
      }
    }
  }

  lemma {:induction false} NoReplyIs(h: seq<Event>, c: nat, n: nat)
    requires SubmittedAt(h, c) && n <= |h|
    ensures LastReply(h, c, n) == None <==> forall j, text :: j < n ==> !AnsweredAt(h, c, j, text)
  {
    if n > c + 1 {
      var m: nat := n - 1;
      if IsAnswer(h, c, m) {
        AnswerLast(h, c, n, m, "");
      } else {
        NoReplyIs(h, c, m);
        forall j, text | j < n ensures AnsweredAt(h, c, j, text) ==> j < m {
          AnswerIs(h, c, j, text);
        }
      }
    }
  }

  // ---- the visitor ----

  /** The double-submitted token of a form without a session. */
  ghost predicate TokensMatch(cookie: string, form: string) {
    cookie != "" && form != "" && exists core :: Surrounds(cookie, core) && Surrounds(form, core)
  }

  /** A form without its token gets 403, a blank code 400, anything else a view. */
  lemma AskIsChecked(app: App, t: Turn)
    requires t.request.Ask? && IsTurn(app, t) && LiveCodesDiffer(t.before)
    ensures t.page == Status(403) <==> !TokensMatch(t.request.cookie, t.request.csrf)
    ensures TokensMatch(t.request.cookie, t.request.csrf) ==>
      if Blank(t.request.typed) then t.page == Status(400) else t.page.ReplyPage?
  {
    assert t.before + t.events == t.before;
    BlankIffNothing(t.request.typed);
  }

  lemma AskShows(app: App, t: Turn, code: string)
    requires t.request.Ask? && IsTurn(app, t) && LiveCodesDiffer(t.before)
    requires TokensMatch(t.request.cookie, t.request.csrf) && Surrounds(t.request.typed, code) && code != ""
    ensures TrimSpace(t.request.typed) == code && t.page.ReplyPage? && Shows(Run(t.before), t.request.typed, t.page.view)
  {
    assert t.before + t.events == t.before;
    TrimIffSurrounds(t.request.typed, code);
  }

  /** The view of one open case whose code was typed. */
  ghost predicate IsViewOf(h: seq<Event>, c: nat, view: View) {
    && SubmittedAt(h, c)
    && (view == Verified(h[c].id) <==> forall j, text :: j < |h| ==> !AnsweredAt(h, c, j, text))
    && (forall text :: view == HasReply(h[c].id, text) <==> LastTextIs(h, c, |h|, text))
  }

  lemma ViewIsOf(h: seq<Event>, c: nat)
    requires SubmittedAt(h, c)
    ensures IsViewOf(h, c, ViewOf(h[c].id, LastReply(h, c, |h|)))
  {
    var view := ViewOf(h[c].id, LastReply(h, c, |h|));
    NoReplyIs(h, c, |h|);
    forall text ensures view == HasReply(h[c].id, text) <==> LastTextIs(h, c, |h|, text) {
      LastReplyIs(h, c, |h|, text);
    }
  }

  /**
    What a visitor sees who types a code, with any white space around it, in
    any turn of any run: "no-match" exactly when no open case has it, and
    otherwise the text of the latest reply that an authorised receiver saved
    with that case's id and code, or "verified" if there was none.
   */
  lemma VisitorSees(app: App, t: Turn, code: string)
    requires t.request.Ask? && IsTurn(app, t) && LiveCodesDiffer(t.before)
    requires TokensMatch(t.request.cookie, t.request.csrf) && Surrounds(t.request.typed, code) && code != ""
    ensures t.page.ReplyPage?
    ensures t.page.view.NoMatch? <==> forall c :: Open(t.before, c) ==> t.before[c].code != code
    ensures forall c: nat :: Open(t.before, c) && t.before[c].code == code ==> IsViewOf(t.before, c, t.page.view)
  {
    AskShows(app, t, code);
    LatestReplyIsShown(t.before, t.request.typed, t.page.view);
    forall c: nat | Open(t.before, c) && t.before[c].code == code ensures IsViewOf(t.before, c, t.page.view) {
      ViewIsOf(t.before, c);
    }
  }

  /** After a login under duress no earlier code is known any more. */
  lemma DuressSilencesCodes(app: App, t: Turn, code: string, j: nat, c: nat)
    requires t.request.Ask? && IsTurn(app, t) && FreshCodes(t.before)
    requires TokensMatch(t.request.cookie, t.request.csrf) && Surrounds(t.request.typed, code) && code != ""
    requires c < j < |t.before| && t.before[j].Wiped? && SubmittedAt(t.before, c) && t.before[c].code == code
    ensures t.page == ReplyPage(NoMatch)
  {
    FreshCodesDiffer(t.before);
    AskShows(app, t, code);
    NoCodeSurvivesWipe(t.before, j, c, t.request.typed, t.page.view);
  }

  // ---- the receiver: who gets in ----

  /** Sixteen small hexadecimal digits. */
  predicate IsCaseId(id: string) {
    |id| == 16 && forall c :: c in id ==> c in "0123456789abcdef"
  }

  lemma CaseIds(id: string)
    ensures ValidCaseID(id) <==> IsCaseId(id)
  {
    assert forall i :: 0 <= i < |id| ==> id[i] in id;
  }

  /** A live session, and for a POST that session's own token in the form. */
  ghost predicate MayAct(app: App, t: Turn, auth: Auth, isPost: bool) {
    && Sessions.Alive(t.sessions, auth.cookie, auth.checked)
    && (isPost ==> Surrounds(auth.csrf, app.sessions.csrf(auth.cookie)))
  }

  lemma MayActIffAuthorized(app: App, t: Turn, auth: Auth, isPost: bool)
    requires Sessions.FreshTokens(t.sessions)
    ensures MayAct(app, t, auth, isPost) <==> app.Authorized(Sessions.Run(t.sessions), auth, isPost)
  {
    Sessions.TouchIffAlive(t.sessions, auth.cookie, auth.checked);
  }

  /**
    A reply enters the history only through a session that was created, not
    destroyed since and never idle for more than fifteen minutes, with the
    token that belongs to that session.
   */
  lemma OnlyLiveSessionsReply(app: App, t: Turn)
    requires t.request.Answer? && IsTurn(app, t) && Sessions.FreshTokens(t.sessions)
    ensures t.events == [] || t.events == [Replied(t.request.id, t.request.typedCode, t.request.typedBody)]
    ensures t.events != [] <==> MayAct(app, t, t.request.auth, true) && IsCaseId(t.request.id)
  {
    MayActIffAuthorized(app, t, t.request.auth, true);
    CaseIds(t.request.id);
  }

  /** A logout ends the session exactly for those who may act; it ends no other session. */
  lemma OnlyOwnSessionEnds(app: App, t: Turn, token: string)
    requires t.request.Logout? && IsTurn(app, t) && Sessions.FreshTokens(t.sessions)
    ensures t.events == []
    ensures Sessions.Destroy(token) in SessionEvents(app, t) <==>
      token == t.request.auth.cookie && MayAct(app, t, t.request.auth, t.request.isPost)
  {
    MayActIffAuthorized(app, t, t.request.auth, t.request.isPost);
  }

  /**
    A form with the token of another session changes nothing and gets 403, or
    is sent to the login if the session it is used in is no longer alive.
   */
  lemma ForeignTokenRefused(app: App, t: Turn, other: string)
    requires IsTurn(app, t) && Sessions.FreshTokens(t.sessions)
    requires AuthOf(t.request).Some? && AuthOf(t.request).value.1
    requires forall a, b :: app.sessions.csrf(a) == app.sessions.csrf(b) ==> a == b
    requires var auth := AuthOf(t.request).value.0;
      other != auth.cookie && Surrounds(auth.csrf, app.sessions.csrf(other))
    ensures var auth := AuthOf(t.request).value.0;
      && t.events == [] && SessionEvents(app, t) == [TouchOf(auth)]
      && t.page == if Sessions.Alive(t.sessions, auth.cookie, auth.checked) then Status(403) else SeeOther("/admin/login")
  {
    var auth := AuthOf(t.request).value.0;
    TrimIffSurrounds(auth.csrf, app.sessions.csrf(other));
    TrimIffSurrounds(auth.csrf, app.sessions.csrf(auth.cookie));
    MayActIffAuthorized(app, t, auth, true);
    MayActIffAuthorized(app, t, auth, false);
  }

  /** Nobody without a live session is shown anything. */
  lemma StrangersAreSentAway(app: App, t: Turn)
    requires IsTurn(app, t) && Sessions.FreshTokens(t.sessions) && AuthOf(t.request).Some?
    requires !Sessions.Alive(t.sessions, AuthOf(t.request).value.0.cookie, AuthOf(t.request).value.0.checked)
    ensures t.events == [] && t.page == SeeOther("/admin/login")
  {
    var (auth, isPost) := AuthOf(t.request).value;
    MayActIffAuthorized(app, t, auth, isPost);
    MayActIffAuthorized(app, t, auth, false);
  }

  /** /admin leads to the inbox with a live session, and to the login without. */
  lemma RootLeadsOn(app: App, t: Turn)
    requires t.request.Browse? && t.request.what.Root? && IsTurn(app, t)
    requires LiveCodesDiffer(t.before) && Sessions.FreshTokens(t.sessions)
    ensures var auth := t.request.auth;
      t.page == SeeOther(if Sessions.Alive(t.sessions, auth.cookie, auth.checked) then "/admin/inbox" else "/admin/login")
  {
    assert t.before + t.events == t.before;
    MayActIffAuthorized(app, t, t.request.auth, false);
  }

  // ---- login, and duress ----

  ghost predicate PasswordRight(app: App, r: Request)
    requires r.Login?
  {
    TokensMatch(r.cookie, r.csrf) && r.password != "" && r.code != "" && app.secrets.password(r.password)
  }

  ghost predicate DuressCode(app: App, r: Request)
    requires r.Login?
  {
    app.secrets.duressSet && app.secrets.duress(r.code, r.at)
  }

  /** Everything is wiped by a login with the right password and the duress code, and by nothing else. */
  lemma WipedIffDuress(app: App, t: Turn)
    requires IsTurn(app, t)
    ensures Wiped in t.events <==> t.request.Login? && PasswordRight(app, t.request) && DuressCode(app, t.request)
    ensures t.request.Login? && Wiped in t.events ==> t.page == LoginFailed && SessionEvents(app, t) == []
  {
  }

  /** A session begins with the right password and one-time code, unless that is the duress code, and not otherwise. */
  lemma OnlyCredentialsBeginSessions(app: App, t: Turn, token: string, at: int)
    requires IsTurn(app, t)
    ensures Sessions.New(token, at) in SessionEvents(app, t) <==>
      && t.request.Login? && PasswordRight(app, t.request) && !DuressCode(app, t.request)
      && app.secrets.totp(t.request.code, t.request.at) && t.request.token == Some(token) && t.request.at == at
    ensures Sessions.New(token, at) in SessionEvents(app, t) ==> t.page == SeeOther("/admin/inbox")
  {
  }

  /** A login with a wrong password changes nothing; the page does not tell it from one under duress. */
  lemma WrongPasswordChangesNothing(app: App, t: Turn)
    requires t.request.Login? && IsTurn(app, t) && !app.secrets.password(t.request.password)
    ensures t.events == [] && SessionEvents(app, t) == []
    ensures t.page == if TokensMatch(t.request.cookie, t.request.csrf) then LoginFailed else Status(403)
  {
  }

  // ---- the receiver: what is shown ----

  ghost predicate IsOpenCase(h: seq<Event>, c: int, id: Id) {
    Open(h, c) && h[c].id == id
  }

  ghost predicate HasAnswer(h: seq<Event>, c: int) {
    exists j, text :: AnsweredAt(h, c, j, text)
  }

  lemma BookedCase(h: seq<Event>, c: nat)
    requires Open(h, c)
    ensures h[c].id in Run(h) && Run(h)[h[c].id].blob == h[c].blob && Run(h)[h[c].id].code == h[c].code
    ensures Run(h)[h[c].id].reply.Some? <==> HasAnswer(h, c)
  {
    OpenIsBooked(h, c);
    NoReplyIs(h, c, |h|);
  }

  lemma NotBooked(h: seq<Event>, id: Id)
    ensures id in Run(h) <==> exists c :: IsOpenCase(h, c, id)
  {
    if id in Run(h) {
      var c := BookedIsOpen(h, id);
      assert IsOpenCase(h, c, id);
    }
    if c :| IsOpenCase(h, c, id) {
      OpenIsBooked(h, c);
    }
  }

  /** The turn is a live receiver's, in a run where no code was drawn twice at a time. */
  ghost predicate ActsIn(app: App, t: Turn, isPost: bool) {
    && IsTurn(app, t) && LiveCodesDiffer(t.before) && Sessions.FreshTokens(t.sessions)
    && AuthOf(t.request).Some? && MayAct(app, t, AuthOf(t.request).value.0, isPost)
  }

  /** A download gives the blob of the open case with that id, and nothing else is ever given. */
  lemma DownloadGives(app: App, t: Turn)
    requires t.request.Fetch? && ActsIn(app, t, false)
    ensures forall c: nat :: IsOpenCase(t.before, c, t.request.id) && IsCaseId(t.request.id) ==>
      t.page == Download(t.before[c].blob)
    ensures !IsCaseId(t.request.id) || (forall c :: !IsOpenCase(t.before, c, t.request.id)) ==> t.page == Status(404)
  {
    var h, id := t.before, t.request.id;
    assert h + t.events == h;
    MayActIffAuthorized(app, t, t.request.auth, false);
    CaseIds(id);
    NotBooked(h, id);
    forall c: nat | IsOpenCase(h, c, id) && IsCaseId(id) ensures t.page == Download(h[c].blob) {
      BookedCase(h, c);
    }
  }

  /** The inbox lists the open cases and no others, each with a mark exactly if it has been answered. */
  lemma InboxShows(app: App, t: Turn)
    requires t.request.Browse? && t.request.what.Cases? && ActsIn(app, t, false)
    ensures t.page.Inbox? && forall id :: id in t.page.items <==> exists c :: IsOpenCase(t.before, c, id)
    ensures forall c: nat :: Open(t.before, c) ==>
      t.before[c].id in t.page.items && (t.page.items[t.before[c].id] <==> HasAnswer(t.before, c))
  {
    var h := t.before;
    assert h + t.events == h;
    MayActIffAuthorized(app, t, t.request.auth, false);
    forall id ensures id in t.page.items <==> exists c :: IsOpenCase(h, c, id) {
      NotBooked(h, id);
    }
    forall c: nat | Open(h, c) ensures h[c].id in t.page.items && (t.page.items[h[c].id] <==> HasAnswer(h, c)) {
      BookedCase(h, c);
    }
  }

  /** The page of a case, and the form for its reply. */
  lemma CasePageShows(app: App, t: Turn)
    requires t.request.Browse? && t.request.what.Case? && ActsIn(app, t, false)
    ensures var id := t.request.what.id;
      && (!IsCaseId(id) || (forall c :: !IsOpenCase(t.before, c, id)) ==> t.page == Status(404))
      && (forall c: nat :: IsOpenCase(t.before, c, id) && IsCaseId(id) ==> t.page == CasePage(id, HasAnswer(t.before, c)))
  {
    var h, id := t.before, t.request.what.id;
    assert h + t.events == h;
    MayActIffAuthorized(app, t, t.request.auth, false);
    CaseIds(id);
    NotBooked(h, id);
    forall c: nat | IsOpenCase(h, c, id) && IsCaseId(id) ensures t.page == CasePage(id, HasAnswer(h, c)) {
      BookedCase(h, c);
    }
  }

  /** What the receiver is told about a reply: something is missing, the code is another one, or it is saved. */
  lemma ReplyPageTells(app: App, t: Turn)
    requires t.request.Answer? && ActsIn(app, t, true)
    ensures var r := t.request;
      && (!IsCaseId(r.id) || (forall c :: !IsOpenCase(t.before, c, r.id)) ==> t.page == Status(404))
      && forall c: nat :: IsOpenCase(t.before, c, r.id) && IsCaseId(r.id) ==>
           t.page == AdminReplyPage(r.id, if Blank(r.typedCode) || Blank(r.typedBody) then Missing
                                          else if Surrounds(r.typedCode, t.before[c].code) then Saved else Mismatch)
  {
    var h, r := t.before, t.request;
    MayActIffAuthorized(app, t, r.auth, true);
    assert h + [] == h;
    LiveCodesSnoc(h, Replied(r.id, r.typedCode, r.typedBody));
    CaseIds(r.id);
    NotBooked(h, r.id);
    BlankIffNothing(r.typedCode);
    BlankIffNothing(r.typedBody);
    forall c: nat | IsOpenCase(h, c, r.id) && IsCaseId(r.id)
      ensures Run(h)[r.id].code == h[c].code && r.id in Run(h)
      ensures Surrounds(r.typedCode, h[c].code) <==> TrimSpace(r.typedCode) == h[c].code
    {
      BookedCase(h, c);
      TrimIffSurrounds(r.typedCode, h[c].code);
    }
  }

  lemma LiveCodesSnoc(h: seq<Event>, e: Event)
    requires LiveCodesDiffer(h) && !e.Submitted?
    ensures LiveCodesDiffer(h + [e])
  {
    var all := h + [e];
    assert all[..|all| - 1] == h && all[|all| - 1] == e;
  }

  // ---- the disk ----

  /**
    With the sweeper on time, an hour after its time to live a case has left
    no row, no directory and no file: not in the book only, on the disk.
   */
  lemma GoneFromDisk(app: App, c: nat, ticks: nat -> int, t: int)
    requires app.Sound() && Retention.OnlyUse(app.history, c) && app.history[c].ttl >= 0
    requires Retention.SweptOnTime(app.history, ticks, t) && t > app.history[c].at + app.history[c].ttl + 3600
    ensures var id := app.history[c].id;
      id !in app.store.rows && Gone(app.store.disk.files, app.store.disk.dirs, CaseDir(id))
  {
    var id := app.history[c].id;
    Retention.GoneInTime(app.history, c, ticks, t);
    assert id !in app.Book();
    assert CaseDir(id) !in app.store.disk.dirs && |CaseDir(id)| == 2;
    EmptyIsGone(app.store.disk.files, app.store.disk.dirs, CaseDir(id));
  }

  // ---- what a submission must be ----

  /** A token in any letter case, no older than five minutes. */
  ghost predicate IsFreshToken(mac: Bytes -> Bytes, s: string, now: int)
    requires Pow.IsMac(mac)
  {
    exists ts, nonce, core :: IsTokenText(mac, s, ts, nonce, core)
                              && Pow.Signed(ts) * SECOND <= now <= Pow.Signed(ts) * SECOND + 300 * SECOND
  }

  ghost predicate IsTokenText(mac: Bytes -> Bytes, s: string, ts: nat, nonce: Bytes, core: string)
    requires Pow.IsMac(mac)
  {
    ts < TWO_64 && |nonce| == 16 && Surrounds(s, core) && Pow.Lower(core) == Pow.Token(mac, ts, nonce)
  }

  lemma GoodMeansFresh(mac: Bytes -> Bytes, s: string, now: int)
    requires Pow.IsMac(mac)
    ensures Pow.VerifyPoWToken(mac, s, now) == Pow.Good <==> IsFreshToken(mac, s, now)
  {
    Pow.GoodIffFreshToken(mac, s, now);
    if ts, nonce :| Pow.Spells(mac, s, ts, nonce) && Pow.InWindow(ts, now) {
      TrimIffSurrounds(s, TrimSpace(s));
      assert IsTokenText(mac, s, ts, nonce, TrimSpace(s));
    }
    if ts, nonce, core :| IsTokenText(mac, s, ts, nonce, core)
                          && Pow.Signed(ts) * SECOND <= now <= Pow.Signed(ts) * SECOND + 300 * SECOND {
      TrimIffSurrounds(s, core);
      assert Pow.Spells(mac, s, ts, nonce) && Pow.InWindow(ts, now);
    }
  }

  /** Not too large, readable, of an allowed type, and stripped if it must be. */
  ghost predicate FileInOrder(rules: AttachmentRules, u: Upload) {
    u.size <= rules.maxSizeMBPerFile * 1024 * 1024 && exists mime, data :: TakenAs(rules, u, mime, data)
  }

  ghost predicate FilesInOrder(rules: AttachmentRules, files: seq<Upload>) {
    && |files| <= rules.maxFiles
    && (forall i :: 0 <= i < |files| ==> FileInOrder(rules, files[i]))
    && (files != [] ==> TotalSize(files) <= rules.maxTotalSizeMB * 1024 * 1024)
  }

  lemma AcceptableMeans(rules: AttachmentRules, u: Upload)
    ensures Acceptable(rules, u) <==> FileInOrder(rules, u)
  {
    if Acceptable(rules, u) {
      AcceptedIsTaken(rules, u);
    }
  }

  lemma FilesPassMeans(rules: AttachmentRules, files: seq<Upload>)
    ensures AttachmentsPass(rules, files) <==> FilesInOrder(rules, files)
  {
    forall i | 0 <= i < |files| ensures Acceptable(rules, files[i]) <==> FileInOrder(rules, files[i]) {
      AcceptableMeans(rules, files[i]);
    }
  }

  /** The hidden field is blank, the tokens are right, and every field and every file is in order. */
  ghost predicate FormInOrder(cfg: Config, secrets: Secrets, form: SubmitForm, now: int)
    requires Pow.IsMac(secrets.powMac)
  {
    && (cfg.honeypot && "hp_name" in form.values ==> Blank(form.values["hp_name"]))
    && "_csrf" in form.values && TokensMatch(form.cookie, form.values["_csrf"])
    && (cfg.powEnabled ==> "_pow" in form.values && IsFreshToken(secrets.powMac, form.values["_pow"], now))
    && (forall i :: 0 <= i < |cfg.fields| ==> InOrder(form.values, cfg.fields[i]))
    && (cfg.attachments.enabled && form.files.Some? ==> FilesInOrder(cfg.attachments, form.files.value))
  }

  lemma NoTokenIsNone(mac: Bytes -> Bytes, now: int)
    requires Pow.IsMac(mac)
    ensures Pow.VerifyPoWToken(mac, "", now) != Pow.Good
  {
  }

  lemma FieldsPassMeans(form: map<string, string>, fields: seq<Field>)
    ensures FieldsPass(form, fields) <==> forall i :: 0 <= i < |fields| ==> InOrder(form, fields[i])
  {
    forall i | 0 <= i < |fields| ensures FieldPasses(form, fields[i]) <==> InOrder(form, fields[i]) {
      PassesIffInOrder(form, fields[i]);
    }
  }

  lemma PassesMeans(cfg: Config, secrets: Secrets, form: SubmitForm, now: int)
    requires Pow.IsMac(secrets.powMac)
    ensures Passes(cfg, secrets, form, now) <==> FormInOrder(cfg, secrets, form, now)
  {
    BlankIffNothing(FormValue(form.values, "hp_name"));
    GoodMeansFresh(secrets.powMac, FormValue(form.values, "_pow"), now);
    NoTokenIsNone(secrets.powMac, now);
    FieldsPassMeans(form.values, cfg.fields);
    if cfg.attachments.enabled && form.files.Some? {
      FilesPassMeans(cfg.attachments, form.files.value);
    }
  }

  /**
    A case is opened by a form in order and by nothing else, and the page shows
    the code that was drawn for it.  A form in order that opens none was
    unlucky: a draw failed, no id was free, or the metadata could not be written.
   */
  lemma OnlyFormsInOrderOpenCases(app: App, t: Turn)
    requires IsTurn(app, t) && Pow.IsMac(app.secrets.powMac)
    ensures (exists e :: e in t.events && e.Submitted?) ==>
      && t.request.Submit? && FormInOrder(app.cfg, app.secrets, t.request.form, t.request.clock.checked)
      && t.page.Done? && GoodCode(t.request.draws, t.page.text)
    ensures LiveCodesDiffer(t.before + t.events) && t.request.Submit? && t.events == [] &&
            FormInOrder(app.cfg, app.secrets, t.request.form, t.request.clock.checked) ==>
      Unlucky(app, t.request.form, t.request.draws, Run(t.before))
  {
    if t.request.Submit? {
      PassesMeans(app.cfg, app.secrets, t.request.form, t.request.clock.checked);
    }
  }
}
