/**
  Which directories under blob/ can end up without a row: the first theorem
  about the store's steps.
 */
module StoreOrphans {
  import opened Common
  import opened StoreSteps

  ghost predicate Bookkeeping(s: State) {
    && (forall id :: id in s.rows ==> id in s.expiry && s.rows[id].expiresAt == s.expiry[id])
    && (forall id :: id in s.dirs ==> id in s.expiry)
    && (forall id :: id in s.sweep.Todo() ==> id in s.expiry && s.expiry[id] < s.clock)
    && (forall t :: t in s.threads && s.threads[t].InFlight() ==> s.threads[t].id in s.expiry)
    && (forall t, u :: t in s.threads && u in s.threads && t != u && s.threads[t].InFlight() && s.threads[u].InFlight()
          ==> s.threads[t].id != s.threads[u].id)
    && Distinct(s.sweep.Todo())
    && Distinct(s.sweep.Left())
  }

  /** A create whose id no sweep has selected owns its row and, once made, its directory. */
  ghost predicate CreateOwns(s: State, th: Thread) {
    th.InFlight() && th.id !in s.early ==>
      && th.id in s.rows
      && th.id !in s.sweep.Todo()
      && (th.CMkdir? ==> th.id !in s.dirs)
      && (th.CWrite? ==> th.id in s.dirs)
  }

  /** What the sweeper knows about the case it is working on. */
  ghost predicate SweepKnows(s: State) {
    && (forall id :: id in s.sweep.Todo() && id !in s.early ==> id in s.rows)
    && (s.sweep.Shredding() && s.sweep.todo[0] !in s.early ==>
          && s.sweep.todo[0] in s.dirs
          && (forall n :: n in s.sweep.names ==> n in s.dirs[s.sweep.todo[0]]))
    && (s.sweep.DeleteRow? && s.sweep.todo != [] && s.sweep.todo[0] !in s.early ==> s.sweep.todo[0] !in s.dirs)
  }

  ghost predicate Inv(s: State) {
    && Bookkeeping(s)
    && (forall t :: t in s.threads ==> CreateOwns(s, s.threads[t]))
    && SweepKnows(s)
  }

  lemma GotoKeeps(s: State, t: nat, th: Thread)
    requires Inv(s) && !th.InFlight()
    ensures Inv(Goto(s, t, th))
  {
  }

  lemma ReturnKeeps(s: State, t: nat)
    requires Inv(s)
    ensures Inv(Return(s, t))
  {
  }

  /** A goroutine outside the window between INSERT and return does not matter to the invariant. */
  lemma ThreadMoves(s: State, t: nat, th: Thread)
    requires Inv(s) && !th.InFlight()
    ensures Inv(Goto(s, t, th)) && Inv(Return(s, t))
  {
    GotoKeeps(s, t, th);
    ReturnKeeps(s, t);
  }

  /** The sweeper may turn to another call on the same list, or stop, when it knows enough. */
  lemma SweepMoves(s: State, sweep: Sweep)
    requires Inv(s)
    requires sweep.Todo() == s.sweep.Todo() || sweep.Todo() == []
    requires Distinct(sweep.Left())
    requires SweepKnows(s.(sweep := sweep))
    ensures Inv(s.(sweep := sweep))
  {
    var s' := s.(sweep := sweep);
    forall t | t in s'.threads ensures CreateOwns(s', s'.threads[t]) {
      assert CreateOwns(s, s.threads[t]);
    }
  }

  /** Neither do writes that make no directory and drop no file, nor what only records history. */
  lemma FilesGrow(s: State, s': State)
    requires Inv(s) && s'.dirs.Keys == s.dirs.Keys
    requires s' == s.(dirs := s'.dirs, robbed := s'.robbed, returned := s'.returned, aborted := s'.aborted)
    requires forall id, n :: id in s.dirs && n in s.dirs[id] ==> n in s'.dirs[id]
    ensures Inv(s')
  {
  }

  lemma TickKeeps(s: State, dt: nat)
    requires Inv(s)
    ensures Inv(s.(clock := s.clock + dt))
  {
  }

  lemma CrashKeeps(s: State)
    requires Inv(s)
    ensures Inv(s.(threads := map[], sweep := Idle))
  {
  }

  lemma InsertedRowKeeps(s: State, t: nat, id: Id)
    requires Inv(s)
    requires t in s.threads && s.threads[t].CInsert? && id !in s.rows && id !in s.expiry
    ensures Inv(DoInsert(s, t, id, true))
  {
    var s' := DoInsert(s, t, id, true);
    var th := s.threads[t];
    assert s'.sweep == s.sweep && s'.dirs == s.dirs && s'.clock == s.clock && s'.leaked == s.leaked;
    assert s'.early == s.early && s'.threads == s.threads[t := CMkdir(id, th.blob)];
    assert s'.rows == s.rows[id := th.row] && s'.expiry == s.expiry[id := th.row.expiresAt];
    assert Bookkeeping(s');
    forall u | u in s'.threads ensures CreateOwns(s', s'.threads[u]) {
      assert u != t ==> CreateOwns(s, s.threads[u]);
    }
    assert SweepKnows(s');
  }

  lemma InsertKeeps(s: State, t: nat, id: Id, ok: bool)
    requires Inv(s)
    requires t in s.threads && s.threads[t].CInsert? && (id in s.rows || !ok || id !in s.expiry)
    ensures Inv(DoInsert(s, t, id, ok))
  {
    if id in s.rows || !ok {
      var again := s.threads[t].(tries := s.threads[t].tries + 1);
      ThreadMoves(s, t, again);
      assert DoInsert(s, t, id, ok) in {Goto(s, t, again), Return(s, t)};
    } else {
      InsertedRowKeeps(s, t, id);
    }
  }

  lemma MkdirKeeps(s: State, t: nat, ok: bool)
    requires Inv(s)
    requires t in s.threads && s.threads[t].CMkdir?
    ensures Inv(DoMkdir(s, t, ok))
  {
  }

  /** From writing the blob to rolling back is no change for the invariant. */
  lemma AbortMoves(s: State, t: nat)
    requires Inv(s) && t in s.threads && s.threads[t].CWrite?
    ensures Inv(Goto(s, t, CRemoveAll(s.threads[t].id)))
  {
  }

  lemma WriteBlobKeeps(s: State, t: nat, w: Written)
    requires Inv(s)
    requires t in s.threads && s.threads[t].CWrite?
    ensures Inv(DoWriteBlob(s, t, w))
  {
    var s' := DoWriteBlob(s, t, w);
    var written := s.(dirs := s'.dirs, returned := s'.returned, aborted := s'.aborted);
    FilesGrow(s, written);
    if s.threads[t].id in s.dirs && w.Wrote? {
      ReturnKeeps(written, t);
    } else {
      AbortMoves(written, t);
    }
  }

  lemma RemoveAllUnlinkKeeps(s: State, t: nat, name: string)
    requires Inv(s)
    requires t in s.threads && s.threads[t].CRemoveAll?
    ensures Inv(DoRemoveAllUnlink(s, t, name))
  {
  }

  lemma RemoveAllRmdirKeeps(s: State, t: nat, ok: bool)
    requires Inv(s)
    requires t in s.threads && s.threads[t].CRemoveAll?
    ensures Inv(DoRemoveAllRmdir(s, t, ok))
  {
  }

  lemma RollbackDeleteKeeps(s: State, t: nat, ok: bool)
    requires Inv(s)
    requires t in s.threads && s.threads[t].CRollback?
    ensures Inv(DoRollbackDelete(s, t, ok))
  {
  }

  lemma ReplyCheckKeeps(s: State, t: nat, ok: bool)
    requires Inv(s)
    requires t in s.threads && s.threads[t].RCheck?
    ensures Inv(DoReplyCheck(s, t, ok))
  {
    var th := s.threads[t];
    ThreadMoves(s, t, RWrite(th.id, th.blob));
  }

  lemma ReplyWriteKeeps(s: State, t: nat, w: Written)
    requires Inv(s)
    requires t in s.threads && s.threads[t].RWrite?
    ensures Inv(DoReplyWrite(s, t, w))
  {
    var s' := DoReplyWrite(s, t, w);
    var written := s.(dirs := s'.dirs, robbed := s'.robbed);
    FilesGrow(s, written);
    ThreadMoves(written, t, RFlag(s.threads[t].id));
  }

  lemma ReplyFlagKeeps(s: State, t: nat, ok: bool)
    requires Inv(s)
    requires t in s.threads && s.threads[t].RFlag?
    ensures Inv(DoReplyFlag(s, t, ok))
  {
  }

  lemma SelectKeeps(s: State, order: seq<Id>)
    requires Inv(s)
    requires s.sweep.Idle? && IsExpiredList(s, order)
    ensures Inv(DoSelect(s, order))
  {
  }

  lemma ListKeeps(s: State, names: seq<string>, ok: bool)
    requires Inv(s)
    requires s.sweep.Next? && s.sweep.todo != []
    requires ok && s.sweep.todo[0] in s.dirs ==> IsListing(s.dirs[s.sweep.todo[0]], names)
    ensures Inv(DoList(s, names, ok))
  {
    SweepMoves(s, DoList(s, names, ok).sweep);
  }

  lemma StatKeeps(s: State, ok: bool)
    requires Inv(s)
    requires s.sweep.Entry? && s.sweep.todo != [] && s.sweep.names != []
    ensures Inv(DoStat(s, ok))
  {
    SweepMoves(s, DoStat(s, ok).sweep);
  }

  lemma ZeroKeeps(s: State, w: Written)
    requires Inv(s)
    requires s.sweep.Zero? && s.sweep.todo != [] && s.sweep.names != []
    ensures Inv(DoZero(s, w))
  {
  }

  lemma UnlinkKeeps(s: State, ok: bool)
    requires Inv(s)
    requires s.sweep.Unlink? && s.sweep.todo != [] && s.sweep.names != []
    ensures Inv(DoUnlink(s, ok))
  {
  }

  lemma RmdirKeeps(s: State, ok: bool)
    requires Inv(s)
    requires s.sweep.Entry? && s.sweep.todo != [] && s.sweep.names == []
    ensures Inv(DoRmdir(s, ok))
  {
    var id, s' := s.sweep.todo[0], DoRmdir(s, ok);
    if s'.dirs == s.dirs {
      SweepMoves(s, s'.sweep);
    } else {
      assert s'.dirs == s.dirs - {id};
    }
  }

  lemma DeleteKeeps(s: State, ok: bool)
    requires Inv(s)
    requires s.sweep.DeleteRow? && s.sweep.todo != []
    ensures Inv(DoDelete(s, ok))
  {
  }

  lemma CreateKeepsInv(s: State, t: nat, call: CreateCall)
    requires Inv(s) && CreateEnabled(s, t, call)
    ensures Inv(ApplyCreate(s, t, call))
  {
    match call
    case Insert(id, ok) => InsertKeeps(s, t, id, ok);
    case Mkdir(ok) => MkdirKeeps(s, t, ok);
    case WriteBlob(w) => WriteBlobKeeps(s, t, w);
    case RemoveAllUnlink(name) => RemoveAllUnlinkKeeps(s, t, name);
    case RemoveAllRmdir(ok) => RemoveAllRmdirKeeps(s, t, ok);
    case RollbackDelete(ok) => RollbackDeleteKeeps(s, t, ok);
  }

  lemma ReplyKeepsInv(s: State, t: nat, call: ReplyCall)
    requires Inv(s) && ReplyEnabled(s, t, call)
    ensures Inv(ApplyReply(s, t, call))
  {
    match call
    case Check(ok) => ReplyCheckKeeps(s, t, ok);
    case WriteReplyFile(w) => ReplyWriteKeeps(s, t, w);
    case SetFlag(ok) => ReplyFlagKeeps(s, t, ok);
  }

  lemma SweepKeepsInv(s: State, call: SweepCall)
    requires Inv(s) && SweepEnabled(s, call)
    ensures Inv(ApplySweep(s, call))
  {
    match call
    case Select(order) => SelectKeeps(s, order);
    case List(names, ok) => ListKeeps(s, names, ok);
    case Stat(ok) => StatKeeps(s, ok);
    case Overwrite(w) => ZeroKeeps(s, w);
    case Remove(ok) => UnlinkKeeps(s, ok);
    case Rmdir(ok) => RmdirKeeps(s, ok);
    case Delete(ok) => DeleteKeeps(s, ok);
    case Done => SweepMoves(s, Idle);
  }

  lemma StepKeepsInv(s: State, e: Event)
    requires Inv(s) && Enabled(s, e)
    ensures Inv(Apply(s, e))
  {
    match e
    case Tick(dt) => TickKeeps(s, dt);
    case Crash => CrashKeeps(s);
    case StartCreate(t, row, blob) => ThreadMoves(s, t, CInsert(row, blob, 0));
    case StartReply(t, id, blob) => ThreadMoves(s, t, RCheck(id, blob));
    case CreateStep(t, call) => CreateKeepsInv(s, t, call);
    case ReplyStep(t, call) => ReplyKeepsInv(s, t, call);
    case SweepStep(call) => SweepKeepsInv(s, call);
  }

  lemma {:induction false} RunKeepsInv(s: State, events: seq<Event>)
    requires Inv(s) && IsRun(s, events)
    ensures Inv(After(s, events))
    decreases |events|
  {
    if events != [] {
      StepKeepsInv(s, events[0]);
      RunKeepsInv(Apply(s, events[0]), events[1..]);
    }
  }

  lemma ReachableInv(clock: int, s: State)
    requires Reachable(clock, s)
    ensures Inv(s)
  {
    var events :| IsRun(Empty(clock), events) && After(Empty(clock), events) == s;
    RunKeepsInv(Empty(clock), events);
  }

  // ---- every directory without a row ----

  /** A rollback leaked the directory, or a sweep and a late create passed each other. */
  predicate OutOfReach(s: State, id: Id) {
    id in s.leaked || id in s.outrun
  }

  ghost predicate OrphanExact(s: State, id: Id) {
    && (Orphan(s, id) <==> OutOfReach(s, id))
    && (OutOfReach(s, id) ==> id in s.expiry)
    && (id in s.outrun ==> id in s.early)
  }

  lemma CreateKeepsOrphans(s: State, t: nat, call: CreateCall, id: Id)
    requires CreateEnabled(s, t, call) && OrphanExact(s, id) && CreateOwns(s, s.threads[t])
    requires s.threads[t].InFlight() ==> s.threads[t].id in s.expiry
    requires id in s.dirs || id in s.rows ==> id in s.expiry
    ensures OrphanExact(ApplyCreate(s, t, call), id)
  {
  }

  lemma ReplyKeepsOrphans(s: State, t: nat, call: ReplyCall, id: Id)
    requires ReplyEnabled(s, t, call) && OrphanExact(s, id)
    ensures OrphanExact(ApplyReply(s, t, call), id)
  {
  }

  /** Calls of the sweep that neither remove a directory nor delete a row. */
  lemma ShredKeepsOrphans(s: State, call: SweepCall, id: Id)
    requires SweepEnabled(s, call) && !call.Rmdir? && !call.Delete? && OrphanExact(s, id)
    ensures OrphanExact(ApplySweep(s, call), id)
  {
  }

  lemma SweepKeepsOrphans(s: State, call: SweepCall, id: Id)
    requires SweepEnabled(s, call) && OrphanExact(s, id) && SweepKnows(s)
    requires s.sweep.Todo() != [] ==> s.sweep.todo[0] in s.expiry
    ensures OrphanExact(ApplySweep(s, call), id)
  {
    match call
    case Rmdir(ok) =>
    case Delete(ok) =>
    case _ => ShredKeepsOrphans(s, call, id);
  }

  lemma StepKeepsOrphans(s: State, e: Event, id: Id)
    requires Inv(s) && OrphanExact(s, id) && Enabled(s, e)
    ensures OrphanExact(Apply(s, e), id)
  {
    match e
    case CreateStep(t, call) => CreateKeepsOrphans(s, t, call, id);
    case ReplyStep(t, call) => ReplyKeepsOrphans(s, t, call, id);
    case SweepStep(call) =>
      assert s.sweep.Todo() != [] ==> s.sweep.Todo()[0] in s.sweep.Todo();
      SweepKeepsOrphans(s, call, id);
    case _ =>
  }

  lemma {:induction false} RunKeepsOrphans(s: State, events: seq<Event>, id: Id)
    requires Inv(s) && OrphanExact(s, id) && IsRun(s, events)
    ensures OrphanExact(After(s, events), id)
    decreases |events|
  {
    if events != [] {
      StepKeepsInv(s, events[0]);
      StepKeepsOrphans(s, events[0], id);
      RunKeepsOrphans(Apply(s, events[0]), events[1..], id);
    }
  }

  /**
    Which ciphertext is out of reach of the TTL sweep, by what the state
    records of its past: that a rollback deleted the row over a directory, or
    that a sweep and a create that it outran passed each other.  StoreCauses
    tells the same by the outcomes of calls and the clock alone.
   */
  lemma NoCiphertextOutOfReach(clock: int, s: State, id: Id)
    requires Reachable(clock, s)
    ensures Orphan(s, id) <==> OutOfReach(s, id)
    ensures id in s.dirs && !OutOfReach(s, id) ==>
      id in s.expiry && forall order :: s.expiry[id] < s.clock && IsExpiredList(s, order) ==> id in order
  {
    ReachableInv(clock, s);
    ReachableOrphans(clock, s, id);
  }

  lemma ReachableOrphans(clock: int, s: State, id: Id)
    requires Reachable(clock, s)
    ensures OrphanExact(s, id)
  {
    var events :| IsRun(Empty(clock), events) && After(Empty(clock), events) == s;
    RunKeepsOrphans(Empty(clock), events, id);
  }

  /** A case that no sweep selected while its create was running can only be lost by a rollback. */
  lemma OnlyRollbackLeaks(clock: int, s: State, id: Id)
    requires Reachable(clock, s) && id !in s.early
    ensures Orphan(s, id) <==> id in s.leaked
  {
    ReachableOrphans(clock, s, id);
  }

  /** A create of this case is between its INSERT and its return although the case has expired. */
  ghost predicate RunningLate(s: State, id: Id) {
    && id in s.expiry && s.expiry[id] < s.clock
    && exists t :: t in s.threads && s.threads[t].InFlight() && s.threads[t].id == id
  }

  lemma EarlySelect(s: State, order: seq<Id>, id: Id)
    requires Bookkeeping(s) && IsExpiredList(s, order) && id !in s.early && id in DoSelect(s, order).early
    ensures RunningLate(s, id)
  {
    assert id in InFlightIds(s.threads) && id in order;
  }

  lemma CreateMarksNothing(s: State, t: nat, call: CreateCall)
    requires CreateEnabled(s, t, call)
    ensures ApplyCreate(s, t, call).early == s.early
  {
  }

  lemma SweepMarksNothing(s: State, call: SweepCall)
    requires SweepEnabled(s, call) && !call.Select?
    ensures ApplySweep(s, call).early == s.early
  {
    match call
    case Stat(ok) =>
    case Rmdir(ok) =>
    case Delete(ok) =>
    case _ =>
  }

  lemma OnlySelectMarks(s: State, e: Event)
    requires Enabled(s, e) && !IsSelect(e)
    ensures Apply(s, e).early == s.early
  {
    match e
    case CreateStep(t, call) => CreateMarksNothing(s, t, call);
    case SweepStep(call) => SweepMarksNothing(s, call);
    case _ =>
  }

  lemma EarlyStep(s: State, e: Event, id: Id)
    requires Bookkeeping(s) && Enabled(s, e) && id !in s.early && id in Apply(s, e).early
    ensures RunningLate(s, id)
  {
    if IsSelect(e) {
      EarlySelect(s, e.call.order, id);
    } else {
      OnlySelectMarks(s, e);
    }
  }

  lemma {:induction false} EarlyRanLate(s: State, events: seq<Event>, id: Id) returns (k: nat)
    requires Inv(s) && IsRun(s, events) && id !in s.early && id in After(s, events).early
    ensures k <= |events| && IsRun(s, events[..k]) && RunningLate(After(s, events[..k]), id)
    decreases |events|
  {
    var s' := Apply(s, events[0]);
    if id in s'.early {
      EarlyStep(s, events[0], id);
      k := 0;
    } else {
      StepKeepsInv(s, events[0]);
      k := EarlyRanLate(s', events[1..], id);
      k := k + 1;
      assert events[..k][0] == events[0] && events[..k][1..] == events[1..][..k - 1];
    }
  }

  /** A case is only ever outrun when its create was still running after its own expiry. */
  lemma OutrunRanLate(clock: int, events: seq<Event>, id: Id) returns (k: nat)
    requires IsRun(Empty(clock), events) && id in After(Empty(clock), events).outrun
    ensures k <= |events| && IsRun(Empty(clock), events[..k]) && RunningLate(After(Empty(clock), events[..k]), id)
  {
    var s := After(Empty(clock), events);
    assert Reachable(clock, s);
    ReachableOrphans(clock, s, id);
    k := EarlyRanLate(Empty(clock), events, id);
  }

  // ---- what a whole sweep achieves ----

  predicate IsSelect(e: Event) {
    e.SweepStep? && e.call.Select?
  }

  /** The first `k` of the selected cases have been dealt with. */
  ghost predicate SweptSoFar(s: State, order: seq<Id>, k: nat) {
    && k <= |order| && !s.sweep.Idle? && s.sweep.todo == order[k..]
    && forall i :: 0 <= i < k ==> Dealt(s, order[i])
  }

  /** No row, and no directory unless a create was still running when the case was selected. */
  ghost predicate Dealt(s: State, id: Id) {
    id in s.expiry && id !in s.rows && (id !in s.early ==> id !in s.dirs)
  }

  lemma DealtStaysInCreate(s: State, t: nat, call: CreateCall, id: Id)
    requires CreateEnabled(s, t, call) && CreateOwns(s, s.threads[t]) && Dealt(s, id)
    ensures Dealt(ApplyCreate(s, t, call), id)
  {
  }

  lemma DealtStaysInReply(s: State, t: nat, call: ReplyCall, id: Id)
    requires ReplyEnabled(s, t, call) && Dealt(s, id)
    ensures Dealt(ApplyReply(s, t, call), id)
  {
  }

  lemma DealtStaysInSweep(s: State, call: SweepCall, id: Id)
    requires SweepEnabled(s, call) && !call.Select? && Dealt(s, id)
    ensures Dealt(ApplySweep(s, call), id)
  {
  }

  lemma DealtStays(s: State, e: Event, id: Id)
    requires Inv(s) && Enabled(s, e) && !IsSelect(e) && Dealt(s, id)
    ensures Dealt(Apply(s, e), id)
  {
    match e
    case CreateStep(t, call) => DealtStaysInCreate(s, t, call, id);
    case ReplyStep(t, call) => DealtStaysInReply(s, t, call, id);
    case SweepStep(call) => DealtStaysInSweep(s, call, id);
    case _ =>
  }

  /** The list of cases to do changes only when a row is deleted, or when the sweep ends. */
  lemma TodoShrinks(s: State, call: SweepCall)
    requires SweepEnabled(s, call) && !call.Select?
    ensures var sweep := ApplySweep(s, call).sweep;
      sweep.Idle? || (!s.sweep.Idle? && sweep.todo == if call.Delete? then s.sweep.todo[1..] else s.sweep.todo)
  {
    match call
    case Stat(ok) =>
    case Rmdir(ok) =>
    case Delete(ok) =>
    case _ =>
  }

  lemma DeleteDeals(s: State, ok: bool)
    requires Inv(s) && SweepEnabled(s, Delete(ok))
    ensures DoDelete(s, ok).sweep.Idle? || Dealt(DoDelete(s, ok), s.sweep.todo[0])
  {
    assert s.sweep.todo[0] in s.sweep.Todo();
  }

  lemma SweepGoesOn(s: State, e: Event, order: seq<Id>, k: nat) returns (k': nat)
    requires Inv(s) && Enabled(s, e) && !IsSelect(e) && SweptSoFar(s, order, k)
    ensures Apply(s, e).sweep.Idle? || SweptSoFar(Apply(s, e), order, k')
  {
    forall i | 0 <= i < k ensures Dealt(Apply(s, e), order[i]) {
      DealtStays(s, e, order[i]);
    }
    k' := k;
    if e.SweepStep? {
      TodoShrinks(s, e.call);
      if e.call.Delete? && !Apply(s, e).sweep.Idle? {
        DeleteDeals(s, e.call.ok);
        k' := k + 1;
      }
    }
  }

  lemma {:induction false} SweepRuns(s: State, events: seq<Event>, order: seq<Id>, k: nat)
    requires Inv(s) && IsRun(s, events) && forall e :: e in events ==> !IsSelect(e)
    requires SweptSoFar(s, order, k)
    ensures After(s, events).sweep == Next([]) ==> forall id :: id in order ==> Dealt(After(s, events), id)
    decreases |events|
  {
    if events == [] {
      if s.sweep == Next([]) {
        assert k == |order|;
      }
    } else {
      StepKeepsInv(s, events[0]);
      var s' := Apply(s, events[0]);
      var k' := SweepGoesOn(s, events[0], order, k);
      if s'.sweep.Idle? {
        IdleStays(s', events[1..]);
      } else {
        SweepRuns(s', events[1..], order, k');
      }
    }
  }

  lemma {:induction false} IdleStays(s: State, events: seq<Event>)
    requires IsRun(s, events) && s.sweep.Idle? && forall e :: e in events ==> !IsSelect(e)
    ensures After(s, events).sweep.Idle?
    decreases |events|
  {
    if events != [] {
      assert events[0] in events;
      IdleStays(Apply(s, events[0]), events[1..]);
    }
  }

  /**
    A sweep that gets from its SELECT to its end has removed the row of every
    case it selected, and the directory too unless the create of the case was
    still running at the SELECT, whatever creates and replies went on between.
   */
  lemma SweepRemovesAll(s: State, order: seq<Id>, events: seq<Event>)
    requires Inv(s) && SweepEnabled(s, Select(order)) && IsRun(DoSelect(s, order), events)
    requires forall e :: e in events ==> !IsSelect(e)
    requires After(DoSelect(s, order), events).sweep == Next([])
    ensures forall id :: id in order ==> Dealt(After(DoSelect(s, order), events), id)
  {
    SelectKeeps(s, order);
    assert order[0..] == order;
    SweepRuns(DoSelect(s, order), events, order, 0);
  }

  // ---- a late reply ----

  /** A reply written after its directory was listed: the rest of the sweep cannot remove the row. */
  ghost predicate Saved(s: State, id: Id, name: string) {
    && id !in s.early && id in s.rows && id in s.dirs && name in s.dirs[id]
    && (forall t :: t in s.threads && s.threads[t].InFlight() ==> s.threads[t].id != id)
    && (s.sweep.Idle? || (s.sweep.Shredding() && s.sweep.todo[0] == id && name !in s.sweep.names))
  }

  lemma CreateStepKeepsSaved(s: State, t: nat, call: CreateCall, id: Id, name: string)
    requires Inv(s) && CreateEnabled(s, t, call) && Saved(s, id, name)
    ensures Saved(ApplyCreate(s, t, call), id, name)
  {
    assert id in s.expiry;
    assert s.threads[t].InFlight() ==> s.threads[t].id != id;
  }

  lemma ReplyStepKeepsSaved(s: State, t: nat, call: ReplyCall, id: Id, name: string)
    requires Inv(s) && ReplyEnabled(s, t, call) && Saved(s, id, name)
    ensures Saved(ApplyReply(s, t, call), id, name)
  {
  }

  lemma SweepStepKeepsSaved(s: State, call: SweepCall, id: Id, name: string)
    requires Inv(s) && SweepEnabled(s, call) && !call.Select? && Saved(s, id, name)
    ensures Saved(ApplySweep(s, call), id, name)
  {
  }

  lemma StepKeepsSaved(s: State, e: Event, id: Id, name: string)
    requires Inv(s) && Enabled(s, e) && !IsSelect(e) && Saved(s, id, name)
    ensures Saved(Apply(s, e), id, name)
  {
    match e
    case CreateStep(t, call) => CreateStepKeepsSaved(s, t, call, id, name);
    case ReplyStep(t, call) => ReplyStepKeepsSaved(s, t, call, id, name);
    case SweepStep(call) => SweepStepKeepsSaved(s, call, id, name);
    case _ =>
  }

  lemma {:induction false} RunKeepsSaved(s: State, events: seq<Event>, id: Id, name: string)
    requires Inv(s) && IsRun(s, events) && Saved(s, id, name)
    requires forall e :: e in events ==> !IsSelect(e)
    ensures Saved(After(s, events), id, name)
    decreases |events|
  {
    if events != [] {
      StepKeepsInv(s, events[0]);
      StepKeepsSaved(s, events[0], id, name);
      RunKeepsSaved(Apply(s, events[0]), events[1..], id, name);
    }
  }

  /**
    A reply.bin written while its case is being shredded makes the sweep fail:
    whatever else happens, the row and the reply are still there when the next
    sweep starts.
   */
  lemma LateReplyKeepsRow(s: State, events: seq<Event>, id: Id)
    requires Inv(s) && IsRun(s, events)
    requires forall e :: e in events ==> !IsSelect(e)
    requires s.sweep.Shredding() && s.sweep.todo[0] == id && id !in s.early
    requires REPLY_NAME !in s.sweep.names && REPLY_NAME in s.dirs[id]
    ensures var s' := After(s, events); id in s'.rows && id in s'.dirs && REPLY_NAME in s'.dirs[id]
  {
    assert forall t :: t in s.threads ==> CreateOwns(s, s.threads[t]);
    RunKeepsSaved(s, events, id, REPLY_NAME);
  }

  // ---- the two exceptions do happen ----

  /** A ciphertext under a directory without a row. */
  predicate BlobOutOfReach(s: State, id: Id) {
    Orphan(s, id) && BLOB_NAME in s.dirs[id]
  }

  /** The write of the blob tears: the create starts to roll back. */
  lemma ReachTorn() returns (s: State)
    ensures Reachable(0, s)
    ensures s == State(map["a" := SAMPLE_ROW], map["a" := map[BLOB_NAME := "x"]], 0, map[0 := CRemoveAll("a")], Idle,
                       map["a" := 10], map[], {"a"}, {}, {}, {}, {})
  {
    var s2 := ReachInserted();
    var s3 := s2.(dirs := map["a" := map[]], threads := map[0 := CWrite("a", "x")]);
    Reach(0, s2, CreateStep(0, Mkdir(true)), s3);
    s := s3.(dirs := map["a" := map[BLOB_NAME := "x"]], threads := map[0 := CRemoveAll("a")], aborted := {"a"});
    Reach(0, s3, CreateStep(0, WriteBlob(Failed(Some("x")))), s);
  }

  /** RemoveAll fails, its error is dropped, the row goes: what was written is out of reach. */
  lemma RollbackCanLeak()
    ensures exists s :: Reachable(0, s) && BlobOutOfReach(s, "a") && s.early == {}
  {
    var s4 := ReachTorn();
    var s5 := s4.(threads := map[0 := CRollback("a")]);
    Reach(0, s4, CreateStep(0, RemoveAllRmdir(false)), s5);
    var s6 := s5.(threads := map[], rows := map[], leaked := {"a"});
    Reach(0, s5, CreateStep(0, RollbackDelete(true)), s6);
    assert BlobOutOfReach(s6, "a");
  }

  /** The sweep selects the case before its directory exists and tolerates that. */
  lemma ReachSweptInFlight() returns (s: State)
    ensures Reachable(0, s)
    ensures s == State(map["a" := SAMPLE_ROW], map[], 11, map[0 := CMkdir("a", "x")], DeleteRow(["a"]),
                       map["a" := 10], map[], {}, {}, {"a"}, {}, {})
  {
    var s2 := ReachInserted();
    var s3 := s2.(clock := 11);
    Reach(0, s2, Tick(11), s3);
    var s4 := s3.(sweep := Next(["a"]), early := {"a"});
    assert s3.threads[0].InFlight();
    assert InFlightIds(s3.threads) == {"a"};
    Reach(0, s3, SweepStep(Select(["a"])), s4);
    s := s4.(sweep := DeleteRow(["a"]));
    Reach(0, s4, SweepStep(List([], true)), s);
  }

  /** The sweep deletes the row, and only then the directory is made. */
  lemma ReachOutrun() returns (s: State)
    ensures Reachable(0, s)
    ensures s == State(map[], map["a" := map[]], 11, map[0 := CWrite("a", "x")], Next([]),
                       map["a" := 10], map[], {}, {}, {"a"}, {"a"}, {})
  {
    var s5 := ReachSweptInFlight();
    var s6 := s5.(rows := map[], sweep := Next([]));
    assert s5.rows - {"a"} == map[] && ["a"][1..] == [];
    Reach(0, s5, SweepStep(Delete(true)), s6);
    s := s6.(dirs := map["a" := map[]], threads := map[0 := CWrite("a", "x")], outrun := {"a"});
    Reach(0, s6, CreateStep(0, Mkdir(true)), s);
  }

  /** A create paused past its own expiry: it writes its blob and succeeds, out of reach of every sweep. */
  lemma SlowCreateCanLeak()
    ensures exists s :: Reachable(0, s) && BlobOutOfReach(s, "a") && s.leaked == {} && "a" in s.returned
  {
    var s7 := ReachOutrun();
    var s8 := s7.(dirs := map["a" := map[BLOB_NAME := "x"]], threads := map[], returned := map["a" := "x"]);
    assert s7.threads - {0} == map[];
    Reach(0, s7, CreateStep(0, WriteBlob(Wrote)), s8);
    assert BlobOutOfReach(s8, "a");
  }
}
