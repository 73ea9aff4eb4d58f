/** The HTTP handlers that drive the store and the sessions, and the book they keep. */
module Handlers {
  import opened Common
  import opened Text
  import opened FileSystem
  import opened Ustar
  import opened Tarpack
  import opened Intake
  import opened Ledger
  import opened CaseStore
  import opened Desk
  import Sessions
  import Codes
  import Crypto
  import Pipeline
  import Pow
  import Retention

  datatype Config = Config(
    honeypot: bool,
    powEnabled: bool,
    fields: seq<Field>,
    attachments: AttachmentRules,
    ttlDays: int)

  /** The receiver's and the server's secrets, as what can be done with them. */
  datatype Secrets = Secrets(
    lookupKey: Bytes,
    powMac: Bytes -> Bytes,
    seal: Bytes -> Bytes,                  // age to the receiver's public key
    password: string -> bool,
    totp: (string, int) -> bool,
    duressSet: bool,
    duress: (string, int) -> bool)

  datatype Page =
    | Status(code: nat)
    | SeeOther(to: string)
    | Done(text: string)
    | ReplyPage(view: View)
    | AdminReplyPage(id: Id, note: Note)
    | LoginFailed
    | Inbox(items: map<Id, bool>)
    | CasePage(id: Id, hasReply: bool)
    | Download(blob: Bytes)
    | NoPage

  /** What a bot that filled in the hidden field is shown. */
  const TRAP_PAGE := Done("honeypot triggered")

  predicate IsRefusal(page: Page) {
    page.Status? || page == TRAP_PAGE
  }

  datatype Note = Missing | Mismatch | Saved

  /** A POST to /submit; `files` is None when the form is not multipart. */
  datatype SubmitForm = SubmitForm(cookie: string, values: map<string, string>, files: Option<seq<Upload>>)

  /** Everything random that a submission draws. */
  datatype Draws = Draws(
    words: seq<string>,
    code: nat -> Option<(Codes.Octet, Codes.Octet)>,
    salt: Option<Bytes>,
    ids: nat -> Id)

  /** The clock when the token is checked (nanoseconds), when the envelope is made and when the case is stored (seconds). */
  datatype Clock = Clock(checked: int, received: int, stored: int)

  /** The session cookie, the form's token, and the two clock readings of Touch. */
  datatype Auth = Auth(cookie: string, csrf: string, checked: int, refreshed: int)

  function TouchOf(auth: Auth): Sessions.Event {
    Sessions.Touch(auth.cookie, auth.checked, auth.refreshed)
  }

  const LOGIN := "/admin/login"
  const INBOX := "/admin/inbox"

  /** What an authorised receiver is told about a reply. */
  function ReplyOutcome(b: Book, id: Id, typedCode: string, typedBody: string): Page {
    if !ValidCaseID(id) || id !in b then Status(404)
    else if TrimSpace(typedCode) == "" || TrimSpace(typedBody) == "" then AdminReplyPage(id, Missing)
    else if Answers(b[id].code, typedCode, typedBody) then AdminReplyPage(id, Saved)
    else AdminReplyPage(id, Mismatch)
  }

  /** The page of one case. */
  function CaseView(b: Book, id: Id): Page {
    if ValidCaseID(id) && id in b then CasePage(id, b[id].reply.Some?) else Status(404)
  }

  /** The only case with this code, or none. */
  ghost predicate Finds(b: Book, code: string, r: Option<Id>) {
    && (r.Some? ==> r.value in b)
    && (forall id :: id in b ==> (b[id].code == code <==> r == Some(id)))
  }

  ghost function RefusalOf(b: Book, id: Id, typedCode: string, typedBody: string): Option<Page> {
    if id in b && Answers(b[id].code, typedCode, typedBody) then None
    else Some(ReplyOutcome(b, id, typedCode, typedBody))
  }

  /** Refused means nothing to change; otherwise the reply is the trimmed text. */
  lemma RefusalMeans(b: Book, id: Id, typedCode: string, typedBody: string)
    requires ValidCaseID(id)
    ensures var r := RefusalOf(b, id, typedCode, typedBody);
      if r.Some? then AfterReply(b, id, typedCode, typedBody) == b && r.value == ReplyOutcome(b, id, typedCode, typedBody)
      else
        && id in b && b[id].code == TrimSpace(typedCode)
        && AfterReply(b, id, typedCode, typedBody) == b[id := b[id].(reply := Some(TrimSpace(typedBody)))]
        && ReplyOutcome(b, id, typedCode, typedBody) == AdminReplyPage(id, Saved)
  {
  }

  lemma RefusalCases(b: Book, id: Id, typedCode: string, typedBody: string)
    requires ValidCaseID(id)
    ensures var code, body, r := TrimSpace(typedCode), TrimSpace(typedBody), RefusalOf(b, id, typedCode, typedBody);
      && (id !in b ==> r == Some(Status(404)))
      && (id in b && (code == "" || body == "") ==> r == Some(AdminReplyPage(id, Missing)))
      && (id in b && code != "" && body != "" ==>
            r == if b[id].code == code then None else Some(AdminReplyPage(id, Mismatch)))
  {
  }

  /** NewID: sixteen small hexadecimal digits. */
  predicate ValidCaseID(id: string) {
    |id| == 16 && forall i :: 0 <= i < |id| ==> '0' <= id[i] <= '9' || 'a' <= id[i] <= 'f'
  }

  predicate CodeDrawn(draws: Draws) {
    |draws.words| == Codes.LIST_SIZE && forall i :: 0 <= i < Codes.WORDS ==> draws.code(i).Some?
  }

  /** The words at the indices that were drawn; from a proper word list a code that a visitor can type. */
  ghost predicate GoodCode(draws: Draws, code: string) {
    && (exists drawn :: IsPhraseOf(draws, drawn, code))
    && (Codes.IsWordlist(draws.words) ==> code != "" && Trimmed(code))
  }

  ghost predicate IsPhraseOf(draws: Draws, drawn: seq<Codes.Octet>, code: string) {
    && |drawn| == 2 * Codes.WORDS && |draws.words| == Codes.LIST_SIZE
    && (forall i :: 0 <= i < Codes.WORDS ==> draws.code(i) == Some((drawn[2 * i], drawn[2 * i + 1])))
    && code == Codes.Phrase(draws.words, Codes.Indices(drawn))
  }

  /** The hidden field was filled in. */
  predicate Trapped(cfg: Config, form: SubmitForm) {
    cfg.honeypot && TrimSpace(FormValue(form.values, "hp_name")) != ""
  }

  function Uploads(cfg: Config, form: SubmitForm): seq<Upload> {
    if cfg.attachments.enabled && form.files.Some? then form.files.value else []
  }

  /** Everything a submission is checked for. */
  ghost predicate Passes(cfg: Config, secrets: Secrets, form: SubmitForm, now: int)
    requires Pow.IsMac(secrets.powMac)
  {
    && !Trapped(cfg, form)
    && Sessions.VerifyAnonCSRF(form.cookie, FormValue(form.values, "_csrf"))
    && (cfg.powEnabled ==> Pow.VerifyPoWToken(secrets.powMac, FormValue(form.values, "_pow"), now) == Pow.Good)
    && FieldsPass(form.values, cfg.fields)
    && (cfg.attachments.enabled && form.files.Some? ==> AttachmentsPass(cfg.attachments, form.files.value))
  }

  /** All five ids that CreateCase tries are in use. */
  ghost predicate AllTaken(ids: nat -> Id, b: Book) {
    forall k :: 0 <= k < MAX_RETRIES ==> ids(k) in b
  }

  /** The submission is what was entered: these fields, these files, this code. */
  ghost predicate IsEntered(s: Submission, cfg: Config, form: SubmitForm) {
    && AreEntries(s.fields, form.values, cfg.fields, |cfg.fields|)
    && AllAcceptable(cfg.attachments, Uploads(cfg, form))
    && AreAccepted(cfg.attachments, Uploads(cfg, form), s.attachments)
  }

  /** A padded archive; of members that fit ustar headers, the archive of the submission's files. */
  ghost predicate IsTarOf(tar: Bytes, pad: nat, s: Submission, json: Bytes) {
    && tar != [] && |tar| % PAD_BLOCK == 0
    && (Packable(s, json) ==> IsPacked(tar, FilesOf(s, json), pad))
  }

  predicate Seals(blob: Bytes, tar: Bytes, seal: Bytes -> Bytes) {
    blob == Crypto.Wrapped(Crypto.VERSION, seal(tar))
  }

  /** The blob is the sealed archive of the submission. */
  ghost predicate IsBlobOf(blob: Bytes, s: Submission, marshal: Meta -> Option<Bytes>, seal: Bytes -> Bytes) {
    marshal(MetaOf(s)).Some? && exists tar, pad :: IsTarOf(tar, pad, s, marshal(MetaOf(s)).value) && Seals(blob, tar, seal)
  }

  /** What this form's images shrink or grow to, and its metadata, fits a tar member. */
  ghost predicate FormFits(cfg: Config, form: SubmitForm, json: Bytes) {
    |json| < SIZE_LIMIT && forall i :: 0 <= i < |Uploads(cfg, form)| ==>
      StripsSmall(cfg.attachments, Uploads(cfg, form)[i], SIZE_LIMIT)
  }

  /** With a cap below eight gibibytes per file the archive of an accepted form is a plain ustar archive. */
  lemma CapMakesPackable(cfg: Config, form: SubmitForm, s: Submission, json: Bytes)
    requires IsEntered(s, cfg, form) && FormFits(cfg, form, json)
    requires cfg.attachments.maxSizeMBPerFile * MEGABYTE < SIZE_LIMIT && ShortIndex(|Uploads(cfg, form)|)
    ensures Packable(s, json)
  {
    forall i | 0 <= i < |s.attachments| ensures |s.attachments[i].data| < SIZE_LIMIT {
      AcceptedSize(cfg.attachments, Uploads(cfg, form)[i], SIZE_LIMIT);
    }
  }

  class App {
    const cfg: Config
    const secrets: Secrets
    const marshal: Meta -> Option<Bytes>
    const richer: seq<TarFile> -> Bytes    // the tar writer on members that do not fit ustar headers
    const store: Store
    const sessions: Sessions.SessionStore
    ghost var history: seq<Event>

    ghost predicate Valid()
      reads this, store, store.disk
    {
      store.Valid() && Pow.IsMac(secrets.powMac)
    }

    ghost function Book(): Book
      reads this
    {
      Run(history)
    }

    /** Without faults: the store holds exactly the book that the history calls for. */
    ghost predicate Sound()
      reads this, store, store.disk
    {
      Holds(Book())
    }

    ghost predicate Holds(b: Book)
      reads this, store, store.disk
    {
      && Valid() && store.FaultFree() && Crypto.Lawful(store.suite)
      && Represents(store.suite, secrets.lookupKey, store.rows, store.disk.files, store.disk.dirs, b)
    }

    /** A server on any store; `history` is what its book stands for, nothing at first. */
    constructor (cfg: Config, secrets: Secrets, marshal: Meta -> Option<Bytes>, richer: seq<TarFile> -> Bytes, store: Store,
                 sessions: Sessions.SessionStore, ghost history: seq<Event>)
      requires store.Valid() && Pow.IsMac(secrets.powMac)
      ensures this.cfg == cfg && this.secrets == secrets && this.marshal == marshal && this.richer == richer
      ensures this.store == store && this.sessions == sessions && this.history == history && Valid()
      ensures Holds(Run(history)) ==> Sound()
    {
      this.cfg, this.secrets, this.marshal, this.richer := cfg, secrets, marshal, richer;
      this.store, this.sessions, this.history := store, sessions, history;
    }

    /** The checks of processSubmit in their order; a page on the first that fails. */
    method CheckSubmit(form: SubmitForm, now: int)
      returns (page: Option<Page>, values: map<string, string>, atts: seq<Attachment>)
      requires Pow.IsMac(secrets.powMac)
      ensures page.None? <==> Passes(cfg, secrets, form, now)
      ensures page.Some? ==> IsRefusal(page.value) && (page.value.Done? <==> Trapped(cfg, form))
      ensures page.None? ==> AreEntries(values, form.values, cfg.fields, |cfg.fields|)
      ensures page.None? ==>
        AllAcceptable(cfg.attachments, Uploads(cfg, form)) && AreAccepted(cfg.attachments, Uploads(cfg, form), atts)
    {
      values, atts := map[], [];
      if cfg.honeypot && TrimSpace(FormValue(form.values, "hp_name")) != "" {
        return Some(TRAP_PAGE), values, atts;
      }
      if !Sessions.VerifyAnonCSRF(form.cookie, FormValue(form.values, "_csrf")) {
        return Some(Status(403)), values, atts;
      }
      if cfg.powEnabled {
        if Pow.VerifyPoWToken(secrets.powMac, FormValue(form.values, "_pow"), now) != Pow.Good {
          return Some(Status(403)), values, atts;
        }
      }
      var ok;
      ok, values := CollectFields(cfg.fields, form.values);
      if !ok {
        return Some(Status(400)), values, atts;
      }
      if cfg.attachments.enabled && form.files.Some? {
        ok, atts := CollectAttachments(cfg.attachments, form.files.value);
        if !ok {
          return Some(Status(400)), values, atts;
        }
      }
      page := None;
    }

    /** From the checked submission to the sealed blob. */
    method SealSubmission(s: Submission) returns (blob: Option<Bytes>)
      ensures blob.None? <==> marshal(MetaOf(s)).None?
      ensures blob.Some? ==> IsBlobOf(blob.value, s, marshal, secrets.seal)
    {
      var packed, pad := PackSubmission(s, marshal, richer);
      if packed.None? {
        return None;
      }
      var sealed := Pipeline.EncryptToReceiver(packed.value, secrets.seal);
      assert IsTarOf(packed.value, pad, s, marshal(MetaOf(s)).value);
      blob := Some(sealed);
    }

    /**
      A submission opens a case if and only if it passes every check and the
      random source, the metadata and the five id draws do not hinder it.
      Then the page shows the code, the book gains an entry for it, and the
      blob is the sealed archive of what was entered.  Otherwise nothing
      happens.
     */
    method ProcessSubmit(form: SubmitForm, clock: Clock, draws: Draws)
      returns (page: Page, ghost made: Option<Id>, ghost sub: Submission)
      requires Valid()
      modifies this`history, store`rows, store`statements, store.disk
      ensures Valid()
      ensures made.None? ==> history == old(history) && IsRefusal(page)
      ensures made.Some? ==> Passes(cfg, secrets, form, clock.checked) && CodeDrawn(draws) && page == Done(sub.code)
      ensures made.Some? ==> Opened(old(history), made.value, sub, clock) && sub.receivedAt == clock.received
      ensures made.Some? ==> GoodCode(draws, sub.code)
      ensures Passes(cfg, secrets, form, clock.checked) ==> IsEntered(sub, cfg, form)
      ensures old(Sound()) && made.None? && Passes(cfg, secrets, form, clock.checked) ==>
        Hindered(draws, sub, old(Book()))
      ensures old(Sound()) && LiveCodesDiffer(history) ==> Sound()
    {
      made, sub := None, Submission("", map[], [], 0);
      var refused, values, atts := CheckSubmit(form, clock.checked);
      if refused.Some? {
        return refused.value, made, sub;
      }
      var id, env := Register(form, values, atts, clock, draws);
      made, sub := id, env;
      page := if id.None? then Status(500) else Done(env.code);
    }

    /** The history gained this case, and its blob is the sealed archive of the submission. */
    ghost predicate Opened(before: seq<Event>, id: Id, s: Submission, clock: Clock)
      reads this
    {
      && |history| == |before| + 1 && history[|before|].Submitted?
      && var e := history[|before|];
      && history == before + [e]
      && e == Submitted(id, s.code, clock.stored, Retention.TtlSeconds(cfg.ttlDays), e.blob)
      && IsBlobOf(e.blob, s, marshal, secrets.seal)
    }

    /** A draw failed, the metadata could not be written, or no id was free. */
    ghost predicate Hindered(draws: Draws, s: Submission, b: Book) {
      !CodeDrawn(draws) || draws.salt.None? || marshal(MetaOf(s)).None? || AllTaken(draws.ids, b)
    }

    /** Code, archive, case: all that follows the checks. */
    method Register(ghost form: SubmitForm, values: map<string, string>, atts: seq<Attachment>, clock: Clock, draws: Draws)
      returns (id: Option<Id>, sub: Submission)
      requires Valid() && IsEntered(Submission("", values, atts, 0), cfg, form)
      modifies this`history, store`rows, store`statements, store.disk
      ensures Valid()
      ensures IsEntered(sub, cfg, form) && sub.receivedAt == clock.received
      ensures id.None? ==> history == old(history)
      ensures id.Some? ==> CodeDrawn(draws) && Opened(old(history), id.value, sub, clock)
      ensures id.Some? ==> GoodCode(draws, sub.code)
      ensures old(Sound()) && id.None? ==> Hindered(draws, sub, old(Book()))
      ensures old(Sound()) && LiveCodesDiffer(history) ==> Sound()
    {
      var blob;
      sub, blob := Prepare(form, values, atts, clock, draws);
      if blob.None? {
        return None, sub;
      }
      id := OpenCase(sub.code, draws.salt.value, blob.value, clock.stored, draws.ids);
    }

    /** Draw the code, put it into the envelope, pack and seal. */
    method Prepare(ghost form: SubmitForm, values: map<string, string>, atts: seq<Attachment>, clock: Clock, draws: Draws)
      returns (sub: Submission, blob: Option<Bytes>)
      requires IsEntered(Submission("", values, atts, 0), cfg, form)
      ensures IsEntered(sub, cfg, form) && sub.receivedAt == clock.received
      ensures blob.None? <==> !CodeDrawn(draws) || draws.salt.None? || marshal(MetaOf(sub)).None?
      ensures blob.Some? ==> IsBlobOf(blob.value, sub, marshal, secrets.seal)
      ensures blob.Some? ==> GoodCode(draws, sub.code)
    {
      sub := Submission("", values, atts, clock.received);
      var code, drawn := Codes.GenerateCode(draws.words, draws.code);
      if code.None? || draws.salt.None? {
        return sub, None;
      }
      assert IsPhraseOf(draws, drawn, code.value);
      sub := Submission(code.value, values, atts, clock.received);
      blob := SealSubmission(sub);
    }

    /** The case itself: digests of the code, time to live, CreateCase. */
    method OpenCase(code: string, salt: Bytes, blob: Bytes, now: int, ids: nat -> Id) returns (id: Option<Id>)
      requires Valid()
      modifies this`history, store`rows, store`statements, store.disk
      ensures Valid()
      ensures id.None? ==> history == old(history)
      ensures id.Some? ==>
        history == old(history) + [Submitted(id.value, code, now, Retention.TtlSeconds(cfg.ttlDays), blob)]
      ensures old(Sound()) && LiveCodesDiffer(history) ==> Sound()
      ensures old(Sound()) && id.None? ==> AllTaken(ids, old(Book()))
    {
      ghost var h0, rows0, f0, d0 := history, store.rows, store.disk.files, store.disk.dirs;
      var hash := store.suite.hash(code, salt);
      var lookup := store.suite.mac(secrets.lookupKey, code);
      var ttl := Retention.TtlSeconds(cfg.ttlDays);
      id := store.CreateCase(lookup, hash, salt, now, ttl, blob, ids);
      if id.Some? {
        ghost var e := Submitted(id.value, code, now, ttl, blob);
        history := history + [e];
        RunSnoc(h0, e);
        if old(Sound()) && LiveCodesDiffer(history) {
          CodeIsNew(h0, e);
          SubmittedRepresents(store.suite, secrets.lookupKey, rows0, f0, d0, Run(h0), id.value, code, salt, now, ttl, blob);
        }
      }
    }

    /** CaseCodeLookup and FindCaseByCode. */
    method FindCode(code: string) returns (id: Option<Id>)
      requires Valid()
      modifies store`statements
      ensures Valid() && (old(Sound()) ==> Sound())
      ensures old(Sound()) ==> Finds(Book(), code, id)
    {
      ghost var book := Book();
      if old(Sound()) {
        RepresentedRows(store.suite, secrets.lookupKey, store.rows, store.disk.files, store.disk.dirs, book);
      }
      id := store.FindCaseByCode(code, store.suite.mac(secrets.lookupKey, code), secrets.lookupKey, CodesOf(book));
      if old(Sound()) {
        forall x ensures id == Some(x) <==> x in book && book[x].code == code {
          FoundInBook(store.suite, secrets.lookupKey, store.rows, store.disk.files, store.disk.dirs, book, code, x);
        }
      }
    }

    /** POST /reply. */
    method HandleReply(cookie: string, csrf: string, typed: string) returns (page: Page)
      requires Valid()
      modifies store`statements, store.disk`calls
      ensures Valid() && (old(Sound()) ==> Sound())
      ensures !Sessions.VerifyAnonCSRF(cookie, csrf) ==> page == Status(403)
      ensures Sessions.VerifyAnonCSRF(cookie, csrf) && TrimSpace(typed) == "" ==> page == Status(400)
      ensures Sessions.VerifyAnonCSRF(cookie, csrf) && TrimSpace(typed) != "" ==> page.ReplyPage?
      ensures old(Sound()) && page.ReplyPage? ==> Shows(Book(), typed, page.view)
    {
      if !Sessions.VerifyAnonCSRF(cookie, csrf) {
        return Status(403);
      }
      var code := TrimSpace(typed);
      if code == "" {
        return Status(400);
      }
      var id := FindCode(code);
      if id.None? {
        return ReplyPage(NoMatch);
      }
      var view := OpenReply(id.value, code);
      page := ReplyPage(view);
    }

    /** Read reply.bin if there is one and open it with the key of code and id. */
    method OpenReply(id: Id, code: string) returns (view: View)
      requires Valid()
      modifies store`statements, store.disk`calls
      ensures Valid() && (old(Sound()) ==> Sound())
      ensures !view.NoMatch? && view.id == id
      ensures old(Sound()) && id in Book() && Book()[id].code == code ==> view == ViewOf(id, Book()[id].reply)
    {
      view := Verified(id);
      if old(Sound()) && id in Book() {
        ReplyOf(store.suite, secrets.lookupKey, store.rows, store.disk.files, store.disk.dirs, Book(), id);
      }
      var rb := store.ReadReply(id);
      if rb.Some? {
        var c := store.GetCase(id);
        if c.Some? {
          var plaintext := Crypto.DecryptSymmetric(store.suite, store.suite.kdf(code, id), rb.value);
          if plaintext.Some? {
            view := HasReply(id, plaintext.value);
          }
        }
      }
    }

    // ---- the receiver's side ----

    /** requireAuth: refresh the session, then the CSRF token of a POST. */
    method RequireAuth(auth: Auth, isPost: bool) returns (denied: Option<Page>)
      modifies sessions`sessions
      ensures sessions.sessions == Sessions.Step(old(sessions.sessions), TouchOf(auth))
      ensures denied.None? <==> Authorized(old(sessions.sessions), auth, isPost)
      ensures denied.Some? ==> denied.value == DeniedPage(old(sessions.sessions), auth)
    {
      var ok := sessions.TouchSession(auth.cookie, auth.checked, auth.refreshed);
      if !ok {
        return Some(SeeOther(LOGIN));
      }
      if isPost {
        if !sessions.VerifyCSRF(auth.cookie, auth.csrf) {
          return Some(Status(403));
        }
      }
      denied := None;
    }

    predicate Authorized(m: Sessions.Table, auth: Auth, isPost: bool) {
      Sessions.Accepts(m, auth.cookie, auth.checked) && (isPost ==> sessions.VerifyCSRF(auth.cookie, auth.csrf))
    }

    function DeniedPage(m: Sessions.Table, auth: Auth): Page {
      if Sessions.Accepts(m, auth.cookie, auth.checked) then Status(403) else SeeOther(LOGIN)
    }

    /**
      POST /admin/reply/<id>.  An authorised receiver who types the case's own
      code and a reply changes exactly that case's reply; anyone or anything
      else changes nothing.
     */
    method HandleAdminReply(auth: Auth, id: Id, typedCode: string, typedBody: string, nonce: Bytes) returns (page: Page)
      requires Valid() && |nonce| == Crypto.NONCE_SIZE
      modifies this`history, sessions`sessions, store`rows, store`statements, store.disk
      ensures Valid()
      ensures sessions.sessions == Sessions.Step(old(sessions.sessions), TouchOf(auth))
      ensures !Authorized(old(sessions.sessions), auth, true) ==> page == DeniedPage(old(sessions.sessions), auth)
      ensures history == if Authorized(old(sessions.sessions), auth, true) && ValidCaseID(id)
                         then old(history) + [Replied(id, typedCode, typedBody)] else old(history)
      ensures old(Sound()) ==> Sound()
      ensures old(Sound()) && Authorized(old(sessions.sessions), auth, true) ==>
        page == ReplyOutcome(old(Book()), id, typedCode, typedBody)
      ensures old(Sound()) && page != AdminReplyPage(id, Saved) ==>
        store.rows == old(store.rows) && store.disk.files == old(store.disk.files)
    {
      var denied := RequireAuth(auth, true);
      if denied.Some? {
        return denied.value;
      }
      if !ValidCaseID(id) {
        return Status(404);
      }
      page := TryReply(id, typedCode, typedBody, nonce);
      RunSnoc(history, Replied(id, typedCode, typedBody));
      history := history + [Replied(id, typedCode, typedBody)];
    }

    /** The handler behind requireAuth and validCaseID. */
    method TryReply(id: Id, typedCode: string, typedBody: string, nonce: Bytes) returns (page: Page)
      requires Valid() && |nonce| == Crypto.NONCE_SIZE && ValidCaseID(id)
      modifies store`rows, store`statements, store.disk
      ensures Valid()
      ensures old(Sound()) ==> Holds(AfterReply(Book(), id, typedCode, typedBody))
      ensures old(Sound()) ==> page == ReplyOutcome(Book(), id, typedCode, typedBody)
      ensures old(Sound()) && page != AdminReplyPage(id, Saved) ==>
        store.rows == old(store.rows) && store.disk.files == old(store.disk.files)
    {
      RefusalMeans(Book(), id, typedCode, typedBody);
      var refused := CheckReply(id, typedCode, typedBody);
      if refused.Some? {
        return refused.value;
      }
      var ok := StoreReply(id, TrimSpace(typedCode), TrimSpace(typedBody), nonce);
      page := if ok then AdminReplyPage(id, Saved) else Status(500);
    }

    /** The case exists, code and body are there, and the code is this case's. */
    method CheckReply(id: Id, typedCode: string, typedBody: string) returns (refused: Option<Page>)
      requires Valid() && ValidCaseID(id)
      modifies store`statements
      ensures Valid() && (old(Sound()) ==> Sound())
      ensures refused.Some? ==> refused.value != AdminReplyPage(id, Saved)
      ensures old(Sound()) ==> refused == RefusalOf(Book(), id, typedCode, typedBody)
    {
      ghost var b := Book();
      RefusalCases(b, id, typedCode, typedBody);
      var found := HasCase(id);
      if !found {
        return Some(Status(404));
      }
      var code, body := TrimSpace(typedCode), TrimSpace(typedBody);
      if code == "" || body == "" {
        return Some(AdminReplyPage(id, Missing));
      }
      var matched := IsCodeOf(id, code);
      refused := if !matched then Some(AdminReplyPage(id, Mismatch)) else None;
    }

    method HasCase(id: Id) returns (found: bool)
      requires Valid()
      modifies store`statements
      ensures Valid() && (old(Sound()) ==> Sound())
      ensures old(Sound()) ==> (found <==> id in Book())
    {
      var c := store.GetCase(id);
      found := c.Some?;
    }

    /** FindCaseByCode must come back with this very case. */
    method IsCodeOf(id: Id, code: string) returns (matched: bool)
      requires Valid()
      modifies store`statements
      ensures Valid() && (old(Sound()) ==> Sound())
      ensures old(Sound()) && id in Book() ==> (matched <==> Book()[id].code == code)
    {
      var r := FindCode(code);
      matched := r == Some(id);
    }

    /** Seal the reply under the key of code and id, and write it. */
    method StoreReply(id: Id, code: string, body: string, nonce: Bytes) returns (ok: bool)
      requires Valid() && |nonce| == Crypto.NONCE_SIZE
      modifies store`rows, store`statements, store.disk
      ensures Valid()
      ensures old(Sound()) && id in Book() && Book()[id].code == code ==>
        ok && Holds(Book()[id := Book()[id].(reply := Some(body))])
    {
      ghost var rows0, f0, d0 := store.rows, store.disk.files, store.disk.dirs;
      var key := store.suite.kdf(code, id);
      var blob := Crypto.EncryptSymmetric(store.suite, key, nonce, body);
      ok := store.WriteReply(id, blob);
      if old(Sound()) && id in Book() && Book()[id].code == code {
        assert Stands(store.suite, secrets.lookupKey, f0, d0, id, rows0[id], Book()[id]);
        Crypto.SymmetricRoundTrip(store.suite, key, nonce, body);
        RepliedRepresents(store.suite, secrets.lookupKey, rows0, f0, d0, Book(), id, body, blob);
      }
    }

    /** POST /admin/login: password and one-time code; the duress code wipes and answers like a failure. */
    method HandleAdminLogin(cookie: string, csrf: string, password: string, code: string, now: int, token: Option<string>)
      returns (page: Page)
      requires Valid()
      modifies this`history, sessions`sessions, store`rows, store`statements, store.disk
      ensures Valid() && (old(Sound()) ==> Sound())
      ensures !Sessions.VerifyAnonCSRF(cookie, csrf) ==> page == Status(403)
      ensures Sessions.VerifyAnonCSRF(cookie, csrf) && (UnderDuress(password, code, now) || !LogsIn(password, code, now)) ==>
        page == LoginFailed
      ensures page == SeeOther(INBOX) <==>
        && Sessions.VerifyAnonCSRF(cookie, csrf) && LogsIn(password, code, now)
        && !UnderDuress(password, code, now) && token.Some?
      ensures sessions.sessions == if page == SeeOther(INBOX)
        then Sessions.Step(old(sessions.sessions), Sessions.New(token.value, now)) else old(sessions.sessions)
      ensures Sessions.VerifyAnonCSRF(cookie, csrf) && UnderDuress(password, code, now) ==>
        && history == old(history) + [Wiped]
        && (old(Sound()) ==> store.rows == map[] && store.disk.files == map[] && store.disk.dirs == {[], BLOB_DIR})
      ensures page == SeeOther(INBOX) || history != old(history) ==>
        secrets.password(password) && password != "" && code != ""
      ensures page == SeeOther(INBOX) ==> secrets.totp(code, now)
      ensures history != old(history) <==>
        && Sessions.VerifyAnonCSRF(cookie, csrf) && password != "" && code != ""
        && secrets.password(password) && secrets.duressSet && secrets.duress(code, now)
      ensures !secrets.password(password) ==>
        && page in {Status(403), LoginFailed} && history == old(history) && sessions.sessions == old(sessions.sessions)
        && store.rows == old(store.rows)
        && store.disk.files == old(store.disk.files) && store.disk.dirs == old(store.disk.dirs)
      ensures !(Sessions.VerifyAnonCSRF(cookie, csrf) && UnderDuress(password, code, now)) ==>
        && history == old(history) && store.rows == old(store.rows)
        && store.disk.files == old(store.disk.files) && store.disk.dirs == old(store.disk.dirs)
    {
      if !Sessions.VerifyAnonCSRF(cookie, csrf) {
        return Status(403);
      }
      if password == "" || code == "" {
        return LoginFailed;
      }
      var passOK := secrets.password(password);
      if passOK && secrets.duressSet && secrets.duress(code, now) {
        WipeAll();
        return LoginFailed;
      }
      if !passOK || !secrets.totp(code, now) {
        return LoginFailed;
      }
      if token.None? {
        return Status(500);
      }
      sessions.NewSession(token.value, now);
      page := SeeOther(INBOX);
    }

    predicate LogsIn(password: string, code: string, now: int) {
      password != "" && code != "" && secrets.password(password) && secrets.totp(code, now)
    }

    predicate UnderDuress(password: string, code: string, now: int) {
      password != "" && code != "" && secrets.password(password) && secrets.duressSet && secrets.duress(code, now)
    }

    method WipeAll()
      requires Valid()
      modifies this`history, store`rows, store`statements, store.disk
      ensures Valid() && history == old(history) + [Wiped]
      ensures old(Sound()) ==> Sound()
      ensures old(Sound()) ==> store.rows == map[] && store.disk.files == map[] && store.disk.dirs == {[], BLOB_DIR}
    {
      var _ := store.Wipe();
      RunSnoc(history, Wiped);
      history := history + [Wiped];
      WipedRepresents(store.suite, secrets.lookupKey);
    }

    /** One turn of the sweeper. */
    method SweepOnce(now: int) returns (n: nat, ok: bool)
      requires Valid()
      modifies this`history, store`rows, store`statements, store.disk
      ensures Valid() && history == old(history) + [Swept(now)]
      ensures old(Sound()) ==> ok && Sound() && n == |old(Book())| - |Book()|
    {
      ghost var rows0, f0, d0 := store.rows, store.disk.files, store.disk.dirs;
      n, ok := store.GC(now);
      ghost var h0 := history;
      RunSnoc(h0, Swept(now));
      history := history + [Swept(now)];
      if old(Sound()) {
        SweptRepresents(store.suite, secrets.lookupKey, rows0, f0, d0,
                        store.rows, store.disk.files, store.disk.dirs, Run(h0), now);
        assert |rows0| == |rows0.Keys| && |store.rows| == |store.rows.Keys|;
        assert |Run(h0)| == |Run(h0).Keys| && |Book()| == |Book().Keys|;
      }
    }

    /** /admin/logout, by GET or POST. */
    method HandleAdminLogout(auth: Auth, isPost: bool) returns (page: Page)
      modifies sessions`sessions
      ensures var touched := Sessions.Step(old(sessions.sessions), TouchOf(auth));
        sessions.sessions == if Authorized(old(sessions.sessions), auth, isPost)
                             then Sessions.Step(touched, Sessions.Destroy(auth.cookie)) else touched
      ensures page == if Authorized(old(sessions.sessions), auth, isPost) then SeeOther(LOGIN)
                      else DeniedPage(old(sessions.sessions), auth)
    {
      var denied := RequireAuth(auth, isPost);
      if denied.Some? {
        return denied.value;
      }
      if auth.cookie != "" {
        sessions.DestroySession(auth.cookie);
      }
      page := SeeOther(LOGIN);
    }

    /** GET /admin: to the inbox, or to the login. */
    method HandleAdminRoot(auth: Auth) returns (page: Page)
      modifies sessions`sessions
      ensures sessions.sessions == Sessions.Step(old(sessions.sessions), TouchOf(auth))
      ensures page == SeeOther(if Sessions.Accepts(old(sessions.sessions), auth.cookie, auth.checked) then INBOX else LOGIN)
    {
      var ok := sessions.TouchSession(auth.cookie, auth.checked, auth.refreshed);
      page := SeeOther(if ok then INBOX else LOGIN);
    }

    /** GET /admin/inbox: every open case and whether it has a reply. */
    method HandleAdminInbox(auth: Auth) returns (page: Page)
      requires Valid()
      modifies sessions`sessions, store`statements
      ensures Valid() && (old(Sound()) ==> Sound())
      ensures sessions.sessions == Sessions.Step(old(sessions.sessions), TouchOf(auth))
      ensures !Authorized(old(sessions.sessions), auth, false) ==> page == DeniedPage(old(sessions.sessions), auth)
      ensures old(Sound()) ==> page == if Authorized(old(sessions.sessions), auth, false)
        then Inbox(Listed(Book())) else DeniedPage(old(sessions.sessions), auth)
    {
      if old(Sound()) {
        RowsListBook(store.suite, secrets.lookupKey, store.rows, store.disk.files, store.disk.dirs, Book());
      }
      var denied := RequireAuth(auth, false);
      if denied.Some? {
        return denied.value;
      }
      var cases := store.ListCases();
      page := if cases.None? then Status(500) else Inbox(ListedRows(cases.value));
    }

    /** GET /admin/case/<id> and GET /admin/reply/<id>. */
    method HandleAdminCase(auth: Auth, id: Id) returns (page: Page)
      requires Valid()
      modifies sessions`sessions, store`statements
      ensures Valid() && (old(Sound()) ==> Sound())
      ensures sessions.sessions == Sessions.Step(old(sessions.sessions), TouchOf(auth))
      ensures !Authorized(old(sessions.sessions), auth, false) ==> page == DeniedPage(old(sessions.sessions), auth)
      ensures old(Sound()) ==> page == if Authorized(old(sessions.sessions), auth, false)
        then CaseView(Book(), id) else DeniedPage(old(sessions.sessions), auth)
    {
      var denied := RequireAuth(auth, false);
      if denied.Some? {
        return denied.value;
      }
      page := ShowCase(id);
    }

    method ShowCase(id: Id) returns (page: Page)
      requires Valid()
      modifies store`statements
      ensures Valid() && (old(Sound()) ==> Sound())
      ensures old(Sound()) ==> page == CaseView(Book(), id)
    {
      if old(Sound()) {
        FlagOf(store.suite, secrets.lookupKey, store.rows, store.disk.files, store.disk.dirs, Book(), id);
      }
      if !ValidCaseID(id) {
        return Status(404);
      }
      var c := store.GetCase(id);
      page := if c.None? then Status(404) else CasePage(id, c.value.hasReply);
    }

    /** GET /admin/download/<id>: the blob as stored; the read mark is best effort. */
    method HandleAdminDownload(auth: Auth, id: Id) returns (page: Page)
      requires Valid()
      modifies sessions`sessions, store`rows, store`statements, store.disk`calls
      ensures Valid() && (old(Sound()) ==> Sound())
      ensures sessions.sessions == Sessions.Step(old(sessions.sessions), TouchOf(auth))
      ensures !Authorized(old(sessions.sessions), auth, false) ==> page == DeniedPage(old(sessions.sessions), auth)
      ensures old(Sound()) && Authorized(old(sessions.sessions), auth, false) ==>
        page == if ValidCaseID(id) && id in Book() then Download(Book()[id].blob) else Status(404)
    {
      var denied := RequireAuth(auth, false);
      if denied.Some? {
        return denied.value;
      }
      if !ValidCaseID(id) {
        return Status(404);
      }
      page := FetchBlob(id);
    }

    /** The handler behind requireAuth and validCaseID. */
    method FetchBlob(id: Id) returns (page: Page)
      requires Valid()
      modifies store`rows, store`statements, store.disk`calls
      ensures Valid() && (old(Sound()) ==> Sound())
      ensures old(Sound()) ==> page == if id in Book() then Download(Book()[id].blob) else Status(404)
    {
      if old(Sound()) {
        BlobIffBooked(store.suite, secrets.lookupKey, store.rows, store.disk.files, store.disk.dirs, Book(), id);
      }
      var blob := store.ReadBlob(id);
      if blob.None? {
        return Status(404);
      }
      ghost var rows0 := store.rows;
      var _ := store.MarkRead(id);
      if old(Sound()) {
        MarkedRepresents(store.suite, secrets.lookupKey, rows0, store.disk.files, store.disk.dirs, Book(), id);
      }
      page := Download(blob.value);
    }
  }

  lemma RunSnoc(h: seq<Event>, e: Event)
    ensures Run(h + [e]) == Step(Run(h), e)
  {
    assert (h + [e])[..|h|] == h;
  }

  /** The code of the last event is not that of an open case. */
  lemma CodeIsNew(h: seq<Event>, e: Event)
    requires e.Submitted? && LiveCodesDiffer(h + [e])
    ensures Unused(Run(h), e.code)
  {
    var all := h + [e];
    assert all[|h|] == e && all[..|h|] == h;
  }
}
