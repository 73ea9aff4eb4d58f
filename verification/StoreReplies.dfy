/** What reply.bin of an unexpired case holds: the third theorem about the store's steps. */
module StoreReplies {
  import opened Common
  import opened StoreSteps
  import opened StoreOrphans
  import opened StoreKeeping
  import opened StoreCauses

  /** The case's reply.bin, if it has one. */
  function ReplyFile(s: State, id: Id): Option<Bytes> {
    if id in s.dirs && REPLY_NAME in s.dirs[id] then Some(s.dirs[id][REPLY_NAME]) else None
  }

  // ---- events that touch reply.bin ----

  /** A WriteReply of this case reaches the file. */
  predicate WritesReply(s: State, e: Event, id: Id) {
    && Enabled(s, e) && e.ReplyStep? && e.reply.WriteReplyFile? && s.threads[e.t].id == id
    && id in s.dirs
  }

  predicate WritesWhole(s: State, e: Event, id: Id) {
    WritesReply(s, e, id) && e.reply.w.Wrote?
  }

  /** It fails after it has truncated the file. */
  predicate WritesTorn(s: State, e: Event, id: Id) {
    WritesReply(s, e, id) && e.reply.w.Failed? && e.reply.w.partial.Some?
  }

  /** The rollback of this case's create unlinks the file. */
  predicate UnlinksReply(s: State, e: Event, id: Id) {
    Enabled(s, e) && e.CreateStep? && e.create == RemoveAllUnlink(REPLY_NAME) && s.threads[e.t].id == id
  }

  predicate TouchesReply(s: State, e: Event, id: Id) {
    WritesWhole(s, e, id) || WritesTorn(s, e, id) || UnlinksReply(s, e, id)
  }

  /** What the event makes of the file. */
  function Touched(s: State, e: Event, id: Id, file: Option<Bytes>): Option<Bytes> {
    if WritesWhole(s, e, id) then Some(s.threads[e.t].blob)
    else if WritesTorn(s, e, id) then e.reply.w.partial
    else if UnlinksReply(s, e, id) then None
    else file
  }

  /** What the last event of the run that touched the file made of it; nothing else is looked at. */
  function LastTouch(s: State, events: seq<Event>, id: Id, file: Option<Bytes>): Option<Bytes>
    requires IsRun(s, events)
    decreases |events|
  {
    if events == [] then file
    else LastTouch(Apply(s, events[0]), events[1..], id, Touched(s, events[0], id, file))
  }

  /** No event of the run touches the file. */
  predicate Quiet(s: State, events: seq<Event>, id: Id)
    requires IsRun(s, events)
    decreases |events|
  {
    events == [] || (!TouchesReply(s, events[0], id) && Quiet(Apply(s, events[0]), events[1..], id))
  }

  // ---- nothing else touches it while the case is unexpired ----

  lemma NamesDiffer()
    ensures BLOB_NAME != REPLY_NAME
  {
    assert BLOB_NAME[0] != REPLY_NAME[0];
  }

  lemma BlobIsNoReply(s: State, t: nat, w: Written, id: Id)
    requires CreateEnabled(s, t, WriteBlob(w))
    ensures ReplyFile(DoWriteBlob(s, t, w), id) == ReplyFile(s, id)
  {
    NamesDiffer();
  }

  lemma DirIsNoReply(s: State, t: nat, call: CreateCall, id: Id)
    requires CreateEnabled(s, t, call) && (call.Mkdir? || call.RemoveAllRmdir?)
    ensures ReplyFile(ApplyCreate(s, t, call), id) == ReplyFile(s, id)
  {
  }

  lemma CreateTouches(s: State, t: nat, call: CreateCall, id: Id)
    requires CreateEnabled(s, t, call)
    ensures ReplyFile(ApplyCreate(s, t, call), id) == Touched(s, CreateStep(t, call), id, ReplyFile(s, id))
  {
    match call
    case Mkdir(ok) => DirIsNoReply(s, t, call, id);
    case RemoveAllRmdir(ok) => DirIsNoReply(s, t, call, id);
    case WriteBlob(w) => BlobIsNoReply(s, t, w, id);
    case _ =>
  }

  lemma ReplyTouches(s: State, t: nat, call: ReplyCall, id: Id)
    requires ReplyEnabled(s, t, call)
    ensures ReplyFile(ApplyReply(s, t, call), id) == Touched(s, ReplyStep(t, call), id, ReplyFile(s, id))
  {
  }

  lemma SweepTouchesExpired(s: State, call: SweepCall, id: Id)
    requires SweepEnabled(s, call) && (s.sweep.Todo() != [] ==> s.sweep.todo[0] != id)
    ensures ReplyFile(ApplySweep(s, call), id) == ReplyFile(s, id)
  {
    match call
    case Overwrite(w) =>
    case Remove(ok) =>
    case Rmdir(ok) =>
    case _ =>
  }

  /** Not expired, or not even inserted. */
  predicate NotExpired(s: State, id: Id) {
    id in s.expiry ==> s.expiry[id] >= s.clock
  }

  lemma StepTouches(s: State, e: Event, id: Id)
    requires Bookkeeping(s) && Enabled(s, e) && NotExpired(s, id)
    ensures ReplyFile(Apply(s, e), id) == Touched(s, e, id, ReplyFile(s, id))
  {
    match e
    case CreateStep(t, call) => CreateTouches(s, t, call, id);
    case ReplyStep(t, call) => ReplyTouches(s, t, call, id);
    case SweepStep(call) =>
      assert s.sweep.Todo() != [] ==> s.sweep.Todo()[0] in s.sweep.Todo();
      SweepTouchesExpired(s, call, id);
    case _ =>
  }

  /** The clock does not go back, and an expiry never changes. */
  lemma NotExpiredBefore(s: State, e: Event, id: Id)
    requires Enabled(s, e) && NotExpired(Apply(s, e), id)
    requires forall x :: x in s.rows ==> x in s.expiry
    ensures NotExpired(s, id)
  {
    match e
    case CreateStep(t, call) =>
    case SweepStep(call) => SweepMovesNoThread(s, call);
    case _ =>
  }

  lemma {:induction false} NotExpiredAtStart(s: State, events: seq<Event>, id: Id)
    requires Inv(s) && IsRun(s, events) && NotExpired(After(s, events), id)
    ensures NotExpired(s, id)
    decreases |events|
  {
    if events != [] {
      StepKeepsInv(s, events[0]);
      NotExpiredAtStart(Apply(s, events[0]), events[1..], id);
      NotExpiredBefore(s, events[0], id);
    }
  }

  /**
    While the case is unexpired its reply.bin is what the last event that
    touched it made of it: a whole write, a torn one, or the unlinking by a
    rollback.  Sweeps, crashes and everything else leave it alone.
   */
  lemma {:induction false} ReplyIsLastTouch(s: State, events: seq<Event>, id: Id)
    requires Inv(s) && IsRun(s, events) && NotExpired(After(s, events), id)
    ensures ReplyFile(After(s, events), id) == LastTouch(s, events, id, ReplyFile(s, id))
    decreases |events|
  {
    if events != [] {
      NotExpiredAtStart(s, events, id);
      StepKeepsInv(s, events[0]);
      StepTouches(s, events[0], id);
      ReplyIsLastTouch(Apply(s, events[0]), events[1..], id);
    }
  }

  lemma {:induction false} LastTouchForgets(s: State, events: seq<Event>, id: Id, file: Option<Bytes>)
    requires IsRun(s, events)
    ensures LastTouch(s, events, id, file) == if Quiet(s, events, id) then file else LastTouch(s, events, id, None)
    decreases |events|
  {
    if events != [] {
      var s', rest := Apply(s, events[0]), events[1..];
      LastTouchForgets(s', rest, id, Touched(s, events[0], id, file));
      LastTouchForgets(s', rest, id, Touched(s, events[0], id, None));
    }
  }

  /**
    A reply that was written whole is still there, byte for byte, if and only
    if no later write of that case reached the file and no rollback unlinked
    it, or the last that did happened to leave the same bytes.
   */
  lemma WholeReplyKept(s: State, e: Event, events: seq<Event>, id: Id)
    requires Inv(s) && WritesWhole(s, e, id) && IsRun(Apply(s, e), events)
    requires NotExpired(After(Apply(s, e), events), id)
    ensures var blob, s' := s.threads[e.t].blob, Apply(s, e);
      ReplyFile(After(s', events), id) == Some(blob) <==>
        Quiet(s', events, id) || LastTouch(s', events, id, None) == Some(blob)
  {
    var s' := Apply(s, e);
    StepKeepsInv(s, e);
    NotExpiredAtStart(s', events, id);
    NotExpiredBefore(s, e, id);
    StepTouches(s, e, id);
    ReplyIsLastTouch(s', events, id);
    LastTouchForgets(s', events, id, ReplyFile(s', id));
  }

  // ---- has_reply ----

  predicate EverWhole(s: State, events: seq<Event>, id: Id)
    requires IsRun(s, events)
    decreases |events|
  {
    events != [] && (WritesWhole(s, events[0], id) || EverWhole(Apply(s, events[0]), events[1..], id))
  }

  predicate Flagless(th: Thread, id: Id) {
    && (th.CInsert? ==> !th.row.hasReply)
    && (th.RFlag? ==> th.id != id)
  }

  /** The case has no flag, and nobody is about to set it. */
  ghost predicate Unflagged(s: State, id: Id) {
    && (id in s.rows ==> !s.rows[id].hasReply)
    && forall t :: t in s.threads ==> Flagless(s.threads[t], id)
  }

  lemma InsertSetsNoFlag(s: State, t: nat, x: Id, ok: bool, id: Id)
    requires CreateEnabled(s, t, Insert(x, ok)) && Unflagged(s, id)
    ensures Unflagged(DoInsert(s, t, x, ok), id)
  {
    assert Flagless(s.threads[t], id);
  }

  lemma CreateSetsNoFlag(s: State, t: nat, call: CreateCall, id: Id)
    requires CreateEnabled(s, t, call) && Unflagged(s, id)
    ensures Unflagged(ApplyCreate(s, t, call), id)
  {
    match call
    case Insert(x, ok) => InsertSetsNoFlag(s, t, x, ok, id);
    case Mkdir(ok) =>
    case WriteBlob(w) =>
    case RollbackDelete(ok) =>
    case _ =>
  }

  lemma ReplySetsNoFlag(s: State, t: nat, call: ReplyCall, id: Id)
    requires ReplyEnabled(s, t, call) && Unflagged(s, id) && !WritesWhole(s, ReplyStep(t, call), id)
    ensures Unflagged(ApplyReply(s, t, call), id)
  {
    assert Flagless(s.threads[t], id);
  }

  lemma SweepSetsNoFlag(s: State, call: SweepCall, id: Id)
    requires SweepEnabled(s, call) && Unflagged(s, id)
    ensures Unflagged(ApplySweep(s, call), id)
  {
    SweepMovesNoThread(s, call);
    match call
    case Delete(ok) =>
    case _ => SweepKeepsRows(s, call);
  }

  lemma SweepKeepsRows(s: State, call: SweepCall)
    requires SweepEnabled(s, call) && !call.Delete?
    ensures ApplySweep(s, call).rows == s.rows
  {
    match call
    case List(names, ok) =>
    case Stat(ok) =>
    case Rmdir(ok) =>
    case _ =>
  }

  lemma StepSetsNoFlag(s: State, e: Event, id: Id)
    requires Enabled(s, e) && Unflagged(s, id) && !WritesWhole(s, e, id)
    ensures Unflagged(Apply(s, e), id)
  {
    match e
    case CreateStep(t, call) => CreateSetsNoFlag(s, t, call, id);
    case ReplyStep(t, call) => ReplySetsNoFlag(s, t, call, id);
    case SweepStep(call) => SweepSetsNoFlag(s, call, id);
    case _ =>
  }

  lemma {:induction false} FlagNeedsWrite(s: State, events: seq<Event>, id: Id)
    requires IsRun(s, events) && Unflagged(s, id)
    ensures Unflagged(After(s, events), id) || EverWhole(s, events, id)
    decreases |events|
  {
    if events != [] && !WritesWhole(s, events[0], id) {
      StepSetsNoFlag(s, events[0], id);
      FlagNeedsWrite(Apply(s, events[0]), events[1..], id);
    }
  }

  /**
    has_reply = 1 means that a reply of the case was once written whole; and
    while the case is unexpired, what its visitor can read is what the last
    event that touched the file left.
   */
  lemma FlaggedReply(clock: int, events: seq<Event>, id: Id)
    requires IsRun(Empty(clock), events)
    ensures var s := After(Empty(clock), events);
      && (id in s.rows && s.rows[id].hasReply ==> EverWhole(Empty(clock), events, id))
      && (NotExpired(s, id) ==> ReplyFile(s, id) == LastTouch(Empty(clock), events, id, None))
  {
    FlagNeedsWrite(Empty(clock), events, id);
    if NotExpired(After(Empty(clock), events), id) {
      ReplyIsLastTouch(Empty(clock), events, id);
    }
  }

  // ---- a second reply can damage the first ----

  /** The case has its blob. */
  lemma ReachReturned() returns (s: State)
    ensures Reachable(0, s)
    ensures s == State(map["a" := SAMPLE_ROW], map["a" := map[BLOB_NAME := "x"]], 0, map[], Idle,
                       map["a" := 10], map["a" := "x"], {}, {}, {}, {}, {})
  {
    var s3 := ReachWriting();
    s := s3.(dirs := map["a" := map[BLOB_NAME := "x"]], threads := map[], returned := map["a" := "x"]);
    assert s3.threads - {0} == map[];
    Reach(0, s3, CreateStep(0, WriteBlob(Wrote)), s);
  }

  /** A first reply is about to be written. */
  lemma ReachFirstReply() returns (s: State)
    ensures Reachable(0, s)
    ensures s == State(map["a" := SAMPLE_ROW], map["a" := map[BLOB_NAME := "x"]], 0, map[1 := RWrite("a", "r")], Idle,
                       map["a" := 10], map["a" := "x"], {}, {}, {}, {}, {})
  {
    var s4 := ReachReturned();
    var s5 := s4.(threads := map[1 := RCheck("a", "r")]);
    Reach(0, s4, StartReply(1, "a", "r"), s5);
    s := s5.(threads := map[1 := RWrite("a", "r")]);
    Reach(0, s5, ReplyStep(1, Check(true)), s);
  }

  lemma ReachWriting() returns (s: State)
    ensures Reachable(0, s)
    ensures s == State(map["a" := SAMPLE_ROW], map["a" := map[]], 0, map[0 := CWrite("a", "x")], Idle,
                       map["a" := 10], map[], {}, {}, {}, {}, {})
  {
    var s2 := ReachInserted();
    s := s2.(dirs := map["a" := map[]], threads := map[0 := CWrite("a", "x")]);
    Reach(0, s2, CreateStep(0, Mkdir(true)), s);
  }

  /** The first reply is saved and flagged. */
  lemma ReachSaved() returns (s: State)
    ensures Reachable(0, s)
    ensures s == State(map["a" := FLAGGED_ROW], map["a" := map[BLOB_NAME := "x", REPLY_NAME := "r"]], 0, map[], Idle,
                       map["a" := 10], map["a" := "x"], {}, {}, {}, {}, {})
  {
    NamesDiffer();
    var s6 := ReachFirstReply();
    var s7 := s6.(dirs := map["a" := map[BLOB_NAME := "x", REPLY_NAME := "r"]], threads := map[1 := RFlag("a")]);
    Reach(0, s6, ReplyStep(1, WriteReplyFile(Wrote)), s7);
    s := s7.(rows := map["a" := FLAGGED_ROW], threads := map[]);
    assert s7.threads - {1} == map[];
    Reach(0, s7, ReplyStep(1, SetFlag(true)), s);
  }

  /** A second reply is about to be written. */
  lemma ReachSecondReply() returns (s: State)
    ensures Reachable(0, s)
    ensures s == State(map["a" := FLAGGED_ROW], map["a" := map[BLOB_NAME := "x", REPLY_NAME := "r"]], 0,
                       map[2 := RWrite("a", "q")], Idle, map["a" := 10], map["a" := "x"], {}, {}, {}, {}, {})
  {
    var s8 := ReachSaved();
    var s9 := s8.(threads := map[2 := RCheck("a", "q")]);
    Reach(0, s8, StartReply(2, "a", "q"), s9);
    s := s9.(threads := map[2 := RWrite("a", "q")]);
    Reach(0, s9, ReplyStep(2, Check(true)), s);
  }

  /** Unexpired, its create a success, flagged, and its reply an empty file. */
  predicate Damaged(s: State, id: Id) {
    && Live(s, id) && id in s.returned && id !in s.aborted
    && id in s.rows && s.rows[id].hasReply && ReplyFile(s, id) == Some([])
  }

  /** A second reply fails after truncating the file: the row stays flagged over an empty reply. */
  lemma SecondReplyCanDamage()
    ensures exists s :: Reachable(0, s) && Damaged(s, "a")
  {
    var s10 := ReachSecondReply();
    var s11 := s10.(dirs := s10.dirs["a" := s10.dirs["a"][REPLY_NAME := []]], threads := map[]);
    assert s10.threads - {2} == map[];
    Reach(0, s10, ReplyStep(2, WriteReplyFile(Failed(Some([])))), s11);
    assert Damaged(s11, "a");
  }
}
