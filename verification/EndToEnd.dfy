/** From the form a visitor fills in to the files on the receiver's machine. */
module EndToEnd {
  import opened Common
  import opened FileSystem
  import opened PathNames
  import opened Ustar
  import opened Tarpack
  import opened Intake
  import opened Viewer
  import opened Ledger
  import opened Handlers
  import opened Portal
  import Crypto
  import Pipeline
  import Sessions

  /** What the viewer does with a blob: exactly the submission's files appear, if it is a blob of one. */
  method ReadAtReceiver(viewer: Disk, blob: Bytes, open: Bytes -> Option<Bytes>, base: seq<Name>,
                        ghost sub: Submission, ghost marshal: Meta -> Option<Bytes>, ghost seal: Bytes -> Bytes)
    returns (r: Pipeline.Outcome, ghost extracted: map<Path, Bytes>)
    requires viewer.Valid() && viewer.FaultFree() && AllPlain(base)
    requires Pipeline.NoPathAt(viewer.files, viewer.dirs, base) && Pipeline.Age(seal, open)
    modifies viewer
    ensures IsUstarBlobOf(blob, sub, marshal, seal) ==>
      r == Pipeline.Done && IsReceived(viewer.files, old(viewer.files), extracted, base, sub, marshal)
  {
    ghost var files: seq<TarFile>, tail: Bytes := [], [];
    extracted := map[];
    if IsUstarBlobOf(blob, sub, marshal, seal) {
      files, tail := OpensToArchive(blob, open, sub, marshal, seal);
      Pipeline.PlacedIsSubmission(sub, marshal(MetaOf(sub)).value, base);
      extracted := Placed(base, files, |files|);
    }
    r := Pipeline.Decrypt(viewer, blob, open, base, files, tail);
  }

  /** The blob of a submission whose files fit ustar headers. */
  ghost predicate IsUstarBlobOf(blob: Bytes, sub: Submission, marshal: Meta -> Option<Bytes>, seal: Bytes -> Bytes) {
    IsBlobOf(blob, sub, marshal, seal) && Packable(sub, marshal(MetaOf(sub)).value)
  }

  /** Opened with the receiver's key, the blob of a submission is the archive of its files. */
  lemma OpensToArchive(blob: Bytes, open: Bytes -> Option<Bytes>, sub: Submission, marshal: Meta -> Option<Bytes>,
                       seal: Bytes -> Bytes) returns (files: seq<TarFile>, tail: Bytes)
    requires Pipeline.Age(seal, open) && IsUstarBlobOf(blob, sub, marshal, seal)
    ensures files == FilesOf(sub, marshal(MetaOf(sub)).value)
    ensures Pipeline.IsEnvelopeOf(blob, open, files, tail)
  {
    var json := marshal(MetaOf(sub)).value;
    var tar, pad :| IsTarOf(tar, pad, sub, json) && Seals(blob, tar, seal);
    files, tail := FilesOf(sub, json), Zeros(pad);
    Pipeline.FilesWellNamed(sub, json);
    Crypto.EnvelopeRoundTrip(Crypto.VERSION, seal(tar), []);
  }

  /** The disk gained meta.json and the attachments of the submission, and nothing else changed. */
  ghost predicate IsReceived(files: map<Path, Bytes>, before: map<Path, Bytes>, extracted: map<Path, Bytes>,
                             base: seq<Name>, sub: Submission, marshal: Meta -> Option<Bytes>) {
    && marshal(MetaOf(sub)).Some?
    && files == before + extracted
    && Pipeline.IsSubmission(extracted, base, sub.attachments, marshal(MetaOf(sub)).value)
  }

  /** The case is in the book with the blob of this submission. */
  ghost predicate Holding(app: App, id: Id, sub: Submission)
    reads app
  {
    ValidCaseID(id) && id in app.Book() && IsBlobOf(app.Book()[id].blob, sub, app.marshal, app.secrets.seal)
  }

  method FetchHeld(app: App, auth: Auth, id: Id, ghost sub: Submission) returns (page: Page)
    requires app.Valid()
    modifies app.sessions`sessions, app.store`rows, app.store`statements, app.store.disk`calls
    ensures old(app.Sound()) && Holding(app, id, sub) ==>
      if Sessions.Accepts(old(app.sessions.sessions), auth.cookie, auth.checked) then IsFetched(page, app, sub)
      else page == SeeOther(LOGIN)
  {
    page := app.HandleAdminDownload(auth, id);
  }

  /** The blob of the submission. */
  ghost predicate IsFetched(page: Page, app: App, sub: Submission) {
    page.Download? && IsBlobOf(page.blob, sub, app.marshal, app.secrets.seal)
  }

  /** Metadata and attachments are below eight gibibytes each, so that the archive is plain ustar. */
  ghost predicate FitsUstar(app: App, sub: Submission) {
    app.marshal(MetaOf(sub)).Some? && Packable(sub, app.marshal(MetaOf(sub)).value)
  }

  method ReadFetched(page: Page, ghost app: App, viewer: Disk, base: seq<Name>, open: Bytes -> Option<Bytes>,
                     ghost sub: Submission)
    returns (outcome: Option<Pipeline.Outcome>, ghost extracted: map<Path, Bytes>)
    requires viewer.Valid() && viewer.FaultFree() && AllPlain(base)
    requires Pipeline.NoPathAt(viewer.files, viewer.dirs, base) && Pipeline.Age(app.secrets.seal, open)
    modifies viewer
    ensures IsFetched(page, app, sub) && FitsUstar(app, sub) ==>
      outcome == Some(Pipeline.Done) && IsReceived(viewer.files, old(viewer.files), extracted, base, sub, app.marshal)
  {
    outcome, extracted := None, map[];
    if page.Download? {
      var r;
      r, extracted := ReadAtReceiver(viewer, page.blob, open, base, sub, app.marshal, app.secrets.seal);
      outcome := Some(r);
    }
  }

  // ---- what the receiver reads, in terms of what the visitor entered ----

  /** meta.json is read back as what was written. */
  ghost predicate Unmarshals(marshal: Meta -> Option<Bytes>, unmarshal: Bytes -> Option<Meta>) {
    forall m {:trigger marshal(m)} :: marshal(m).Some? ==> unmarshal(marshal(m).value) == Some(m)
  }

  /** Number, name as uploaded, and the type and size of what was taken of the upload. */
  ghost predicate TellsOfFile(f: MetaFile, index: nat, rules: AttachmentRules, u: Upload) {
    f.index == index && f.originalName == u.filename && exists data :: TakenAs(rules, u, f.mime, data) && f.size == |data|
  }

  /** The code on the visitor's page, the hour, the fields as filled in, and the uploads in turn. */
  ghost predicate TellsOf(m: Meta, cfg: Config, form: SubmitForm, code: string, received: int) {
    && m.version == 1 && m.code == code && IsHourOf(m.receivedAt, received)
    && FieldsAre(m.fields, form.values, cfg.fields)
    && |m.files| == |Uploads(cfg, form)|
    && forall i :: 0 <= i < |m.files| ==> TellsOfFile(m.files[i], i + 1, cfg.attachments, Uploads(cfg, form)[i])
  }

  /** The name begins with the number, in three digits or more, and a dash. */
  ghost predicate IsNumbered(n: Name, index: nat) {
    exists d: Bytes :: IsNumber(d) && |d| >= 3 && DecimalValue(d) == index && d + "-" <= n
  }

  ghost function FileAt(base: seq<Name>, name: Name): Path {
    base + ["attachments", name]
  }

  /** The file stands under its number with the bytes that were taken of the upload, as meta.json describes it. */
  ghost predicate IsFileOf(extracted: map<Path, Bytes>, base: seq<Name>, name: Name, f: MetaFile, rules: AttachmentRules,
                           u: Upload) {
    && IsNumbered(name, f.index) && FileAt(base, name) in extracted
    && TakenAs(rules, u, f.mime, extracted[FileAt(base, name)]) && f.size == |extracted[FileAt(base, name)]|
  }

  /** One file for each upload. */
  ghost predicate HasFiles(extracted: map<Path, Bytes>, base: seq<Name>, names: seq<Name>, files: seq<MetaFile>,
                           rules: AttachmentRules, ups: seq<Upload>) {
    && |names| == |files| == |ups|
    && forall i :: 0 <= i < |names| ==> IsFileOf(extracted, base, names[i], files[i], rules, ups[i])
  }

  ghost predicate HasOnly(extracted: map<Path, Bytes>, base: seq<Name>, names: seq<Name>) {
    forall p :: p in extracted ==> p == base + ["meta.json"] || IsNamed(base, names, p)
  }

  ghost predicate IsNamed(base: seq<Name>, names: seq<Name>, p: Path) {
    exists i :: 0 <= i < |names| && p == FileAt(base, names[i])
  }

  /** meta.json and the uploads, one file each, and nothing else. */
  ghost predicate IsDelivery(extracted: map<Path, Bytes>, base: seq<Name>, names: seq<Name>, m: Meta, cfg: Config,
                             form: SubmitForm, code: string, received: int) {
    && TellsOf(m, cfg, form, code, received)
    && HasFiles(extracted, base, names, m.files, cfg.attachments, Uploads(cfg, form))
    && HasOnly(extracted, base, names)
  }

  /** Files, and any metadata that tells of this form, stay below the eight gibibytes of a plain archive. */
  ghost predicate StaysSmall(app: App, form: SubmitForm, code: string, received: int) {
    && app.cfg.attachments.maxSizeMBPerFile * MEGABYTE < SIZE_LIMIT && ShortIndex(|Uploads(app.cfg, form)|)
    && (forall i :: 0 <= i < |Uploads(app.cfg, form)| ==>
          StripsSmall(app.cfg.attachments, Uploads(app.cfg, form)[i], SIZE_LIMIT))
    && forall m {:trigger app.marshal(m)} :: TellsOf(m, app.cfg, form, code, received) && app.marshal(m).Some? ==>
         |app.marshal(m).value| < SIZE_LIMIT
  }

  lemma MetaTells(sub: Submission, cfg: Config, form: SubmitForm)
    requires IsEntered(sub, cfg, form)
    ensures TellsOf(MetaOf(sub), cfg, form, sub.code, sub.receivedAt)
  {
    var m, ups := MetaOf(sub), Uploads(cfg, form);
    MetaOfIs(m, sub);
    EntriesAreFields(sub.fields, form.values, cfg.fields);
    forall i | 0 <= i < |m.files| ensures TellsOfFile(m.files[i], i + 1, cfg.attachments, ups[i]) {
      AcceptedIsTaken(cfg.attachments, ups[i]);
      assert TakenAs(cfg.attachments, ups[i], m.files[i].mime, sub.attachments[i].data);
    }
  }

  lemma SmallIsUstar(app: App, form: SubmitForm, sub: Submission)
    requires IsEntered(sub, app.cfg, form) && StaysSmall(app, form, sub.code, sub.receivedAt)
    requires app.marshal(MetaOf(sub)).Some?
    ensures FitsUstar(app, sub)
  {
    MetaTells(sub, app.cfg, form);
    CapMakesPackable(app.cfg, form, sub, app.marshal(MetaOf(sub)).value);
  }

  lemma BaseNameNumbered(index: nat, a: Attachment)
    ensures IsNumbered(BaseName(index, a), index)
  {
    Decimal3RoundTrip(index);
    assert IsNumber(Decimal3(index)) && Decimal3(index) + "-" <= BaseName(index, a);
  }

  lemma FileDelivered(extracted: map<Path, Bytes>, base: seq<Name>, sub: Submission, json: Bytes, cfg: Config,
                      form: SubmitForm, i: nat)
    requires IsEntered(sub, cfg, form) && i < |sub.attachments|
    requires Pipeline.IsSubmission(extracted, base, sub.attachments, json)
    ensures IsFileOf(extracted, base, BaseName(i + 1, sub.attachments[i]), MetaOf(sub).files[i], cfg.attachments,
                     Uploads(cfg, form)[i])
  {
    MetaOfIs(MetaOf(sub), sub);
    AcceptedIsTaken(cfg.attachments, Uploads(cfg, form)[i]);
    BaseNameNumbered(i + 1, sub.attachments[i]);
    assert FileAt(base, BaseName(i + 1, sub.attachments[i])) == Pipeline.AttachmentPath(base, sub.attachments, i);
  }

  ghost function NamesOf(atts: seq<Attachment>): seq<Name> {
    seq(|atts|, i requires 0 <= i < |atts| => BaseName(i + 1, atts[i]))
  }

  ghost predicate AreNames(names: seq<Name>, atts: seq<Attachment>) {
    |names| == |atts| && forall i :: 0 <= i < |atts| ==> names[i] == BaseName(i + 1, atts[i])
  }

  lemma IsNamedAt(base: seq<Name>, names: seq<Name>, atts: seq<Attachment>, p: Path)
    requires AreNames(names, atts) && Pipeline.IsExtractedPath(base, atts, p) && p != base + ["meta.json"]
    ensures IsNamed(base, names, p)
  {
    var i :| 0 <= i < |atts| && p == Pipeline.AttachmentPath(base, atts, i);
    assert p == FileAt(base, names[i]);
  }

  lemma OnlyNamed(extracted: map<Path, Bytes>, base: seq<Name>, names: seq<Name>, atts: seq<Attachment>, json: Bytes)
    requires Pipeline.IsSubmission(extracted, base, atts, json) && AreNames(names, atts)
    ensures HasOnly(extracted, base, names)
  {
    forall p | p in extracted && p != base + ["meta.json"] ensures IsNamed(base, names, p) {
      assert Pipeline.IsExtractedPath(base, atts, p);
      IsNamedAt(base, names, atts, p);
    }
  }

  lemma MetaCounts(sub: Submission, cfg: Config, form: SubmitForm)
    requires IsEntered(sub, cfg, form)
    ensures |MetaOf(sub).files| == |sub.attachments| == |Uploads(cfg, form)|
  {
  }

  lemma AllNamed(extracted: map<Path, Bytes>, base: seq<Name>, names: seq<Name>, sub: Submission, json: Bytes,
                 cfg: Config, form: SubmitForm)
    requires IsEntered(sub, cfg, form) && Pipeline.IsSubmission(extracted, base, sub.attachments, json)
    requires AreNames(names, sub.attachments)
    ensures HasFiles(extracted, base, names, MetaOf(sub).files, cfg.attachments, Uploads(cfg, form))
  {
    var files, ups := MetaOf(sub).files, Uploads(cfg, form);
    MetaCounts(sub, cfg, form);
    forall i | 0 <= i < |names| ensures IsFileOf(extracted, base, names[i], files[i], cfg.attachments, ups[i]) {
      FileDelivered(extracted, base, sub, json, cfg, form, i);
    }
  }

  lemma NamesAre(atts: seq<Attachment>)
    ensures AreNames(NamesOf(atts), atts)
  {
  }

  lemma SubmissionIsDelivery(extracted: map<Path, Bytes>, base: seq<Name>, names: seq<Name>, sub: Submission, json: Bytes,
                             cfg: Config, form: SubmitForm)
    requires IsEntered(sub, cfg, form) && Pipeline.IsSubmission(extracted, base, sub.attachments, json)
    requires AreNames(names, sub.attachments)
    ensures IsDelivery(extracted, base, names, MetaOf(sub), cfg, form, sub.code, sub.receivedAt)
  {
    MetaTells(sub, cfg, form);
    AllNamed(extracted, base, names, sub, json, cfg, form);
    OnlyNamed(extracted, base, names, sub.attachments, json);
  }

  /** meta.json is there, and what is read from it is true of the form and of the other files. */
  ghost predicate Arrived(files: map<Path, Bytes>, before: map<Path, Bytes>, extracted: map<Path, Bytes>, base: seq<Name>,
                          names: seq<Name>, unmarshal: Bytes -> Option<Meta>, cfg: Config, form: SubmitForm, code: string,
                          received: int) {
    && files == before + extracted && base + ["meta.json"] in extracted
    && unmarshal(extracted[base + ["meta.json"]]).Some?
    && IsDelivery(extracted, base, names, unmarshal(extracted[base + ["meta.json"]]).value, cfg, form, code, received)
  }

  lemma ReceivedArrived(files: map<Path, Bytes>, before: map<Path, Bytes>, extracted: map<Path, Bytes>, base: seq<Name>,
                        app: App, unmarshal: Bytes -> Option<Meta>, form: SubmitForm, sub: Submission)
    requires IsReceived(files, before, extracted, base, sub, app.marshal) && IsEntered(sub, app.cfg, form)
    requires Unmarshals(app.marshal, unmarshal)
    ensures Arrived(files, before, extracted, base, NamesOf(sub.attachments), unmarshal, app.cfg, form,
                    sub.code, sub.receivedAt)
  {
    NamesAre(sub.attachments);
    SubmissionIsDelivery(extracted, base, NamesOf(sub.attachments), sub, app.marshal(MetaOf(sub)).value, app.cfg, form);
  }

  // ---- the way of a submission ----

  /** What came of the submission in `made` if it is the case `id` and still open. */
  ghost predicate StillOpen(h: seq<Event>, c: nat, made: Option<Id>, id: Id) {
    made == Some(id) && ValidCaseID(id) && LiveCodesDiffer(h) && Open(h, c) && h[c].id == id
  }

  lemma {:induction false} HistoryGrows(app: App, start: seq<Event>, sessions: seq<Sessions.Event>, turns: seq<Turn>,
                                         finish: seq<Event>, sessions': seq<Sessions.Event>)
    requires Chained(app, start, sessions, turns, finish, sessions')
    ensures start <= finish
  {
    if turns != [] {
      var t := turns[|turns| - 1];
      HistoryGrows(app, start, sessions, turns[..|turns| - 1], t.before, t.sessions);
    }
  }

  ghost predicate Readable(app: App, unmarshal: Bytes -> Option<Meta>, form: SubmitForm, code: string, received: int) {
    StaysSmall(app, form, code, received) && Unmarshals(app.marshal, unmarshal)
  }

  /** The submission is what was entered, with the code that was shown and the time it came in. */
  ghost predicate IsSubmissionOf(sub: Submission, app: App, form: SubmitForm, code: string, received: int) {
    IsEntered(sub, app.cfg, form) && sub.code == code && sub.receivedAt == received
  }

  /** An open case keeps the blob of its submission, whatever is asked of the portal meanwhile. */
  method SubmitThenServe(app: App, form: SubmitForm, clock: Clock, draws: Draws, between: seq<Request>,
                         ghost id: Id, ghost sessions: seq<Sessions.Event>)
    returns (shown: Page, ghost made: Option<Id>, ghost sub: Submission, ghost c: nat, ghost sessions': seq<Sessions.Event>)
    requires app.Sound() && app.sessions.sessions == Sessions.Run(sessions)
    requires forall i :: 0 <= i < |between| ==> WellDrawn(between[i])
    modifies app`history, app.sessions`sessions, app.store`rows, app.store`statements, app.store.disk
    ensures app.Valid() && (made.Some? ==> shown.Done? && IsSubmissionOf(sub, app, form, shown.text, clock.received))
    ensures app.sessions.sessions == Sessions.Run(sessions')
    ensures StillOpen(app.history, c, made, id) ==> app.Sound() && Holding(app, id, sub)
  {
    c := |app.history|;
    shown, made, sub := app.ProcessSubmit(form, clock, draws);
    ghost var h := app.history;
    var pages;
    ghost var turns;
    pages, turns, sessions' := Serve(app, between, sessions);
    if StillOpen(app.history, c, made, id) {
      HistoryGrows(app, h, sessions, turns, app.history, sessions');
      OpenIsBooked(app.history, c);
    }
  }

  /** The receiver's machine has what the visitor entered. */
  ghost predicate Delivered(viewer: Disk, before: map<Path, Bytes>, outcome: Option<Pipeline.Outcome>,
                            extracted: map<Path, Bytes>, base: seq<Name>, names: seq<Name>,
                            unmarshal: Bytes -> Option<Meta>, cfg: Config, form: SubmitForm, code: string, received: int)
    reads viewer
  {
    && outcome == Some(Pipeline.Done)
    && Arrived(viewer.files, before, extracted, base, names, unmarshal, cfg, form, code, received)
  }

  /** Download and decryption of a case held for the receiver; `held` says that it is. */
  method Receive(app: App, auth: Auth, id: Id, viewer: Disk, base: seq<Name>, open: Bytes -> Option<Bytes>,
                 ghost unmarshal: Bytes -> Option<Meta>, ghost form: SubmitForm, ghost sub: Submission,
                 ghost code: string, ghost received: int, ghost held: bool)
    returns (page: Page, outcome: Option<Pipeline.Outcome>, ghost extracted: map<Path, Bytes>, ghost names: seq<Name>)
    requires app.Valid() && viewer != app.store.disk && viewer.Valid() && viewer.FaultFree() && AllPlain(base)
    requires Pipeline.NoPathAt(viewer.files, viewer.dirs, base) && Pipeline.Age(app.secrets.seal, open)
    requires held ==> app.Sound() && Holding(app, id, sub) && IsSubmissionOf(sub, app, form, code, received)
    modifies app.sessions`sessions, app.store`rows, app.store`statements, app.store.disk`calls, viewer
    ensures held ==>
      if Sessions.Accepts(old(app.sessions.sessions), auth.cookie, auth.checked) then page.Download?
      else page == SeeOther(LOGIN)
    ensures held && page.Download? && Readable(app, unmarshal, form, code, received) ==>
      Delivered(viewer, old(viewer.files), outcome, extracted, base, names, unmarshal, app.cfg, form, code, received)
  {
    names := NamesOf(sub.attachments);
    page := FetchHeld(app, auth, id, sub);
    outcome, extracted := ReadFetched(page, app, viewer, base, open, sub);
    if held && page.Download? && Readable(app, unmarshal, form, code, received) {
      SmallIsUstar(app, form, sub);
      ReceivedArrived(viewer.files, old(viewer.files), extracted, base, app, unmarshal, form, sub);
    }
  }

  /**
    A visitor submits, anything at all happens at the portal, the receiver
    downloads the case and opens it on the air-gapped machine.  While the case
    is open, the download works exactly when the receiver's session is alive.
    What then appears on that machine is meta.json and one file for each
    upload: the metadata has the code that the visitor was shown, the hour, and
    the fields as they were filled in, and describes the files as they are.
   */
  method SubmissionReachesReceiver(app: App, form: SubmitForm, clock: Clock, draws: Draws, between: seq<Request>,
                                   auth: Auth, id: Id, viewer: Disk, base: seq<Name>, open: Bytes -> Option<Bytes>,
                                   ghost unmarshal: Bytes -> Option<Meta>, ghost sessions: seq<Sessions.Event>)
    returns (shown: Page, page: Page, outcome: Option<Pipeline.Outcome>, ghost made: Option<Id>, ghost c: nat,
             ghost extracted: map<Path, Bytes>, ghost names: seq<Name>, ghost sessions': seq<Sessions.Event>)
    requires app.Sound() && app.sessions.sessions == Sessions.Run(sessions)
    requires forall i :: 0 <= i < |between| ==> WellDrawn(between[i])
    requires viewer != app.store.disk && viewer.Valid() && viewer.FaultFree() && AllPlain(base)
    requires Pipeline.NoPathAt(viewer.files, viewer.dirs, base) && Pipeline.Age(app.secrets.seal, open)
    modifies app`history, app.sessions`sessions, app.store`rows, app.store`statements, app.store.disk, viewer
    ensures made.Some? ==> shown.Done?
    ensures StillOpen(app.history, c, made, id) && Sessions.FreshTokens(sessions') ==>
      if Sessions.Alive(sessions', auth.cookie, auth.checked) then page.Download? else page == SeeOther(LOGIN)
    ensures StillOpen(app.history, c, made, id) && page.Download? ==>
      Readable(app, unmarshal, form, shown.text, clock.received) ==>
      Delivered(viewer, old(viewer.files), outcome, extracted, base, names, unmarshal, app.cfg, form,
                shown.text, clock.received)
  {
    ghost var sub, code;
    shown, made, sub, c, sessions' := SubmitThenServe(app, form, clock, draws, between, id, sessions);
    if Sessions.FreshTokens(sessions') {
      Sessions.TouchIffAlive(sessions', auth.cookie, auth.checked);
    }
    code := if shown.Done? then shown.text else "";
    ghost var held := StillOpen(app.history, c, made, id);
    page, outcome, extracted, names :=
      Receive(app, auth, id, viewer, base, open, unmarshal, form, sub, code, clock.received, held);
  }
}
