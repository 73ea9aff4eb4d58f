/**
  The case store under concurrency.  Every SQL statement and every file-system
  call is one atomic event; creates, replies and the single sweeper interleave
  freely, any call may fail, the clock may advance and the process may die
  between any two events.
 */
module StoreSteps {
  import opened Common

  /** The files of one case directory. */
  type Files = map<string, Bytes>

  /** Where one goroutine stands: the call it is about to make. */
  datatype Thread =
    // CreateCase
    | CInsert(row: Row, blob: Bytes, tries: nat)
    | CMkdir(id: Id, blob: Bytes)
    | CWrite(id: Id, blob: Bytes)
    | CRemoveAll(id: Id)
    | CRollback(id: Id)
    // WriteReply
    | RCheck(id: Id, blob: Bytes)
    | RWrite(id: Id, blob: Bytes)
    | RFlag(id: Id)
  {
    /** A create that has inserted its row and has not returned yet. */
    predicate InFlight() {
      CMkdir? || CWrite? || CRemoveAll? || CRollback?
    }
  }

  /** Where the sweeper stands; `todo[0]` is the case being swept. */
  datatype Sweep =
    | Idle
    | Next(todo: seq<Id>)
    | Entry(todo: seq<Id>, names: seq<string>)
    | Zero(todo: seq<Id>, names: seq<string>, size: nat)
    | Unlink(todo: seq<Id>, names: seq<string>)
    | DeleteRow(todo: seq<Id>)
  {
    function Todo(): seq<Id> {
      if Idle? then [] else todo
    }

    /** The sweeper is past the listing of its current directory and before the rmdir. */
    predicate Shredding() {
      (Entry? || Zero? || Unlink?) && todo != []
    }

    /** The names listed and not yet unlinked. */
    function Left(): seq<string> {
      if Shredding() then names else []
    }
  }

  /** The outcome of a whole-file write: a failed one may leave anything behind, or nothing new. */
  datatype Written = Wrote | Failed(partial: Option<Bytes>)

  /** The first three fields are the disk and the wall clock; the last seven only record history. */
  datatype State = State(
    rows: map<Id, Row>,
    dirs: map<Id, Files>,
    clock: int,
    threads: map<nat, Thread>,
    sweep: Sweep,
    expiry: map<Id, int>,      // every id ever inserted, with its expires_at
    returned: map<Id, Bytes>,  // creates that returned nil, with the blob they were given
    aborted: set<Id>,          // creates whose blob write failed
    leaked: set<Id>,           // rollbacks that deleted the row although RemoveAll had left the directory
    early: set<Id>,            // ids a sweep selected while their create was still running
    outrun: set<Id>,           // directories made after their row had gone, or left when the sweep deleted it
    robbed: set<Id>)           // cases whose reply.bin a rollback unlinked, with none written since

  /** The calls CreateCase makes after it has built its row, with their outcomes. */
  datatype CreateCall =
    | Insert(id: Id, ok: bool)
    | Mkdir(ok: bool)
    | WriteBlob(w: Written)
    | RemoveAllUnlink(name: string)
    | RemoveAllRmdir(ok: bool)
    | RollbackDelete(ok: bool)

  /** The calls of WriteReply. */
  datatype ReplyCall =
    | Check(ok: bool)
    | WriteReplyFile(w: Written)
    | SetFlag(ok: bool)

  /** The calls of GC and of the shredDir it runs on each case directory. */
  datatype SweepCall =
    | Select(order: seq<Id>)
    | List(listing: seq<string>, ok: bool)
    | Stat(ok: bool)
    | Overwrite(w: Written)
    | Remove(ok: bool)
    | Rmdir(ok: bool)
    | Delete(ok: bool)
    | Done

  datatype Event =
    | Tick(dt: nat)
    | Crash
    | StartCreate(t: nat, row: Row, blob: Bytes)
    | StartReply(t: nat, id: Id, blob: Bytes)
    | CreateStep(t: nat, create: CreateCall)
    | ReplyStep(t: nat, reply: ReplyCall)
    | SweepStep(call: SweepCall)

  /** No element occurs twice. */
  predicate Distinct<T(==)>(s: seq<T>) {
    forall i, j :: 0 <= i < j < |s| ==> s[i] != s[j]
  }

  /** The answer of `SELECT id FROM cases WHERE expires_at < now`, in any order. */
  predicate IsExpiredList(s: State, order: seq<Id>) {
    && Distinct(order)
    && (forall id :: id in order ==> id in s.rows && s.rows[id].expiresAt < s.clock)
    && (forall id :: id in s.rows && s.rows[id].expiresAt < s.clock ==> id in order)
  }

  predicate IsListing(files: Files, names: seq<string>) {
    && Distinct(names)
    && (forall n :: n in names ==> n in files)
    && (forall n :: n in files ==> n in names)
  }

  predicate CreateEnabled(s: State, t: nat, call: CreateCall) {
    && t in s.threads
    && match call
       case Insert(id, ok) => s.threads[t].CInsert? && (id in s.rows || !ok || id !in s.expiry)
       case Mkdir(_) => s.threads[t].CMkdir?
       case WriteBlob(_) => s.threads[t].CWrite?
       case RemoveAllUnlink(_) => s.threads[t].CRemoveAll?
       case RemoveAllRmdir(_) => s.threads[t].CRemoveAll?
       case RollbackDelete(_) => s.threads[t].CRollback?
  }

  predicate ReplyEnabled(s: State, t: nat, call: ReplyCall) {
    && t in s.threads
    && match call
       case Check(_) => s.threads[t].RCheck?
       case WriteReplyFile(_) => s.threads[t].RWrite?
       case SetFlag(_) => s.threads[t].RFlag?
  }

  predicate SweepEnabled(s: State, call: SweepCall) {
    match call
    case Select(order) => s.sweep.Idle? && IsExpiredList(s, order)
    case List(names, ok) =>
      && s.sweep.Next? && s.sweep.todo != []
      && (ok && s.sweep.todo[0] in s.dirs ==> IsListing(s.dirs[s.sweep.todo[0]], names))
    case Stat(_) => s.sweep.Entry? && s.sweep.todo != [] && s.sweep.names != []
    case Overwrite(_) => s.sweep.Zero? && s.sweep.todo != [] && s.sweep.names != []
    case Remove(_) => s.sweep.Unlink? && s.sweep.todo != [] && s.sweep.names != []
    case Rmdir(_) => s.sweep.Entry? && s.sweep.todo != [] && s.sweep.names == []
    case Delete(_) => s.sweep.DeleteRow? && s.sweep.todo != []
    case Done => s.sweep.Next? && s.sweep.todo == []
  }

  /** The goroutine or sweeper named by the event is at the call the event makes. */
  predicate Enabled(s: State, e: Event) {
    match e
    case Tick(_) => true
    case Crash => true
    case StartCreate(t, row, _) => t !in s.threads && !row.hasReply && !row.readFlag
    case StartReply(t, _, _) => t !in s.threads
    case CreateStep(t, call) => CreateEnabled(s, t, call)
    case ReplyStep(t, call) => ReplyEnabled(s, t, call)
    case SweepStep(call) => SweepEnabled(s, call)
  }

  /** Effect of os.WriteFile on one directory of the tree; it fails when the directory is missing. */
  function Put(dirs: map<Id, Files>, id: Id, name: string, data: Bytes, w: Written): map<Id, Files> {
    if id !in dirs then dirs
    else if w.Wrote? then dirs[id := dirs[id][name := data]]
    else if w.partial.Some? then dirs[id := dirs[id][name := w.partial.value]]
    else dirs
  }

  function UnlinkFile(dirs: map<Id, Files>, id: Id, name: string): map<Id, Files> {
    if id in dirs then dirs[id := dirs[id] - {name}] else dirs
  }

  /** The write leaves a file behind, whole or torn. */
  predicate Leaves(w: Written) {
    w.Wrote? || w.partial.Some?
  }

  predicate HasReplyFile(s: State, id: Id) {
    id in s.dirs && REPLY_NAME in s.dirs[id]
  }

  /** A successful rmdir; what was out of reach is gone. */
  function RemoveDir(s: State, id: Id): State {
    s.(dirs := s.dirs - {id}, leaked := s.leaked - {id}, outrun := s.outrun - {id})
  }

  function InFlightIds(threads: map<nat, Thread>): set<Id> {
    set t | t in threads && threads[t].InFlight() :: threads[t].id
  }

  function Goto(s: State, t: nat, th: Thread): State {
    s.(threads := s.threads[t := th])
  }

  function Return(s: State, t: nat): State {
    s.(threads := s.threads - {t})
  }

  // ---- CreateCase ----

  /** On a UNIQUE error another id is drawn, five attempts in all. */
  function DoInsert(s: State, t: nat, id: Id, ok: bool): State
    requires t in s.threads && s.threads[t].CInsert?
  {
    var th := s.threads[t];
    if id in s.rows then
      if th.tries + 1 < MAX_RETRIES then Goto(s, t, th.(tries := th.tries + 1)) else Return(s, t)
    else if !ok then Return(s, t)
    else Goto(s, t, CMkdir(id, th.blob)).(
      rows := s.rows[id := th.row],
      expiry := s.expiry[id := th.row.expiresAt])
  }

  function DoMkdir(s: State, t: nat, ok: bool): State
    requires t in s.threads && s.threads[t].CMkdir?
  {
    var th := s.threads[t];
    if !ok then Goto(s, t, CRollback(th.id))
    else Goto(s, t, CWrite(th.id, th.blob)).(
      dirs := if th.id in s.dirs then s.dirs else s.dirs[th.id := map[]],
      outrun := if th.id in s.rows then s.outrun else s.outrun + {th.id})
  }

  function DoWriteBlob(s: State, t: nat, w: Written): State
    requires t in s.threads && s.threads[t].CWrite?
  {
    var th := s.threads[t];
    var s' := s.(dirs := Put(s.dirs, th.id, BLOB_NAME, th.blob, w));
    if th.id in s.dirs && w.Wrote? then
      Return(s', t).(returned := s.returned[th.id := th.blob])
    else
      Goto(s', t, CRemoveAll(th.id)).(aborted := s.aborted + {th.id})
  }

  function DoRemoveAllUnlink(s: State, t: nat, name: string): State
    requires t in s.threads && s.threads[t].CRemoveAll?
  {
    var id := s.threads[t].id;
    s.(dirs := UnlinkFile(s.dirs, id, name),
       robbed := if name == REPLY_NAME && HasReplyFile(s, id) then s.robbed + {id} else s.robbed)
  }

  function DoRemoveAllRmdir(s: State, t: nat, ok: bool): State
    requires t in s.threads && s.threads[t].CRemoveAll?
  {
    var id := s.threads[t].id;
    var s' := Goto(s, t, CRollback(id));
    if ok && id in s.dirs && s.dirs[id] == map[] then RemoveDir(s', id) else s'
  }

  function DoRollbackDelete(s: State, t: nat, ok: bool): State
    requires t in s.threads && s.threads[t].CRollback?
  {
    var id := s.threads[t].id;
    if ok then
      Return(s, t).(
      rows := s.rows - {id},
      leaked := if id in s.dirs then s.leaked + {id} else s.leaked)
    else Return(s, t)
  }

  // ---- WriteReply ----

  function DoReplyCheck(s: State, t: nat, ok: bool): State
    requires t in s.threads && s.threads[t].RCheck?
  {
    var th := s.threads[t];
    if ok && th.id in s.rows then Goto(s, t, RWrite(th.id, th.blob)) else Return(s, t)
  }

  function DoReplyWrite(s: State, t: nat, w: Written): State
    requires t in s.threads && s.threads[t].RWrite?
  {
    var th := s.threads[t];
    var s' := s.(dirs := Put(s.dirs, th.id, REPLY_NAME, th.blob, w),
                 robbed := if Leaves(w) && th.id in s.dirs then s.robbed - {th.id} else s.robbed);
    if th.id in s.dirs && w.Wrote? then Goto(s', t, RFlag(th.id)) else Return(s', t)
  }

  function DoReplyFlag(s: State, t: nat, ok: bool): State
    requires t in s.threads && s.threads[t].RFlag?
  {
    var id := s.threads[t].id;
    if ok && id in s.rows then Return(s, t).(rows := s.rows[id := s.rows[id].(hasReply := true)])
    else Return(s, t)
  }

  // ---- GC: "not exist" moves on to the DELETE, any other error ends the sweep ----

  function DoSelect(s: State, order: seq<Id>): State {
    s.(sweep := Next(order), early := s.early + (InFlightIds(s.threads) * (set id | id in order)))
  }

  function DoList(s: State, names: seq<string>, ok: bool): State
    requires s.sweep.Next? && s.sweep.todo != []
  {
    if s.sweep.todo[0] !in s.dirs then s.(sweep := DeleteRow(s.sweep.todo))
    else if !ok then s.(sweep := Idle)
    else s.(sweep := Entry(s.sweep.todo, names))
  }

  function DoStat(s: State, ok: bool): State
    requires s.sweep.Entry? && s.sweep.todo != [] && s.sweep.names != []
  {
    var id, name := s.sweep.todo[0], s.sweep.names[0];
    if id !in s.dirs || name !in s.dirs[id] then s.(sweep := DeleteRow(s.sweep.todo))
    else if !ok then s.(sweep := Idle)
    else s.(sweep := Zero(s.sweep.todo, s.sweep.names, |s.dirs[id][name]|))
  }

  function DoZero(s: State, w: Written): State
    requires s.sweep.Zero? && s.sweep.todo != [] && s.sweep.names != []
  {
    s.(dirs := Put(s.dirs, s.sweep.todo[0], s.sweep.names[0], Repeat('\0', s.sweep.size), w),
       sweep := Unlink(s.sweep.todo, s.sweep.names))
  }

  function DoUnlink(s: State, ok: bool): State
    requires s.sweep.Unlink? && s.sweep.todo != [] && s.sweep.names != []
  {
    s.(dirs := if ok then UnlinkFile(s.dirs, s.sweep.todo[0], s.sweep.names[0]) else s.dirs,
       sweep := Entry(s.sweep.todo, s.sweep.names[1..]))
  }

  function DoRmdir(s: State, ok: bool): State
    requires s.sweep.Entry? && s.sweep.todo != [] && s.sweep.names == []
  {
    var id := s.sweep.todo[0];
    if id !in s.dirs then s.(sweep := DeleteRow(s.sweep.todo))
    else if ok && s.dirs[id] == map[] then RemoveDir(s, id).(sweep := DeleteRow(s.sweep.todo))
    else s.(sweep := Idle)
  }

  function DoDelete(s: State, ok: bool): State
    requires s.sweep.DeleteRow? && s.sweep.todo != []
  {
    var id := s.sweep.todo[0];
    if ok then s.(rows := s.rows - {id}, sweep := Next(s.sweep.todo[1..]),
                  outrun := if id in s.dirs then s.outrun + {id} else s.outrun)
    else s.(sweep := Idle)
  }

  function ApplyCreate(s: State, t: nat, call: CreateCall): State
    requires CreateEnabled(s, t, call)
  {
    match call
    case Insert(id, ok) => DoInsert(s, t, id, ok)
    case Mkdir(ok) => DoMkdir(s, t, ok)
    case WriteBlob(w) => DoWriteBlob(s, t, w)
    case RemoveAllUnlink(name) => DoRemoveAllUnlink(s, t, name)
    case RemoveAllRmdir(ok) => DoRemoveAllRmdir(s, t, ok)
    case RollbackDelete(ok) => DoRollbackDelete(s, t, ok)
  }

  function ApplyReply(s: State, t: nat, call: ReplyCall): State
    requires ReplyEnabled(s, t, call)
  {
    match call
    case Check(ok) => DoReplyCheck(s, t, ok)
    case WriteReplyFile(w) => DoReplyWrite(s, t, w)
    case SetFlag(ok) => DoReplyFlag(s, t, ok)
  }

  function ApplySweep(s: State, call: SweepCall): State
    requires SweepEnabled(s, call)
  {
    match call
    case Select(order) => DoSelect(s, order)
    case List(names, ok) => DoList(s, names, ok)
    case Stat(ok) => DoStat(s, ok)
    case Overwrite(w) => DoZero(s, w)
    case Remove(ok) => DoUnlink(s, ok)
    case Rmdir(ok) => DoRmdir(s, ok)
    case Delete(ok) => DoDelete(s, ok)
    case Done => s.(sweep := Idle)
  }

  function Apply(s: State, e: Event): State
    requires Enabled(s, e)
  {
    match e
    case Tick(dt) => s.(clock := s.clock + dt)
    case Crash => s.(threads := map[], sweep := Idle)
    case StartCreate(t, row, blob) => Goto(s, t, CInsert(row, blob, 0))
    case StartReply(t, id, blob) => Goto(s, t, RCheck(id, blob))
    case CreateStep(t, call) => ApplyCreate(s, t, call)
    case ReplyStep(t, call) => ApplyReply(s, t, call)
    case SweepStep(call) => ApplySweep(s, call)
  }

  /** Every event of the run is enabled where it happens. */
  predicate IsRun(s: State, events: seq<Event>)
    decreases |events|
  {
    events == [] || (Enabled(s, events[0]) && IsRun(Apply(s, events[0]), events[1..]))
  }

  function After(s: State, events: seq<Event>): State
    requires IsRun(s, events)
    decreases |events|
  {
    if events == [] then s else After(Apply(s, events[0]), events[1..])
  }

  /** An empty store, as OpenStore leaves it, at any time of day. */
  function Empty(clock: int): State {
    State(map[], map[], clock, map[], Idle, map[], map[], {}, {}, {}, {}, {})
  }

  /** A directory under blob/ that no row of `cases` points to: no sweep will ever select it. */
  predicate Orphan(s: State, id: Id) {
    id in s.dirs && id !in s.rows
  }

  // ---- runs from an empty store ----

  ghost predicate Reachable(clock: int, s: State) {
    exists events :: IsRun(Empty(clock), events) && After(Empty(clock), events) == s
  }

  lemma Reach(clock: int, s: State, e: Event, s': State)
    requires Reachable(clock, s) && Enabled(s, e) && s' == Apply(s, e)
    ensures Reachable(clock, s')
  {
    var events :| IsRun(Empty(clock), events) && After(Empty(clock), events) == s;
    RunSnoc(Empty(clock), events, e);
  }

  lemma {:induction false} RunSnoc(s: State, events: seq<Event>, e: Event)
    requires IsRun(s, events) && Enabled(After(s, events), e)
    ensures IsRun(s, events + [e]) && After(s, events + [e]) == Apply(After(s, events), e)
    decreases |events|
  {
    if events == [] {
      assert events + [e] == [e];
      assert [e][1..] == [];
    } else {
      RunSnoc(Apply(s, events[0]), events[1..], e);
      assert (events + [e])[0] == events[0];
      assert (events + [e])[1..] == events[1..] + [e];
    }
  }

  /** A row that expires at 10. */
  const SAMPLE_ROW := Row([], [], [], 0, 10, false, false)

  /** A fresh store where one goroutine has inserted the row of case "a". */
  lemma ReachInserted() returns (s: State)
    ensures Reachable(0, s)
    ensures s == State(map["a" := SAMPLE_ROW], map[], 0, map[0 := CMkdir("a", "x")], Idle,
                       map["a" := 10], map[], {}, {}, {}, {}, {})
  {
    var s0 := Empty(0);
    assert IsRun(s0, []) && After(s0, []) == s0;
    var s1 := s0.(threads := map[0 := CInsert(SAMPLE_ROW, "x", 0)]);
    Reach(0, s0, StartCreate(0, SAMPLE_ROW, "x"), s1);
    s := State(map["a" := SAMPLE_ROW], map[], 0, map[0 := CMkdir("a", "x")], Idle,
               map["a" := 10], map[], {}, {}, {}, {}, {});
    Reach(0, s1, CreateStep(0, Insert("a", true)), s);
  }
}
