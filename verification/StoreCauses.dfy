/**
  Why a directory under blob/ has no row, told by the outcomes of calls and by
  the clock alone.
 */
module StoreCauses {
  import opened Common
  import opened StoreSteps
  import opened StoreOrphans

  // ---- runs, one event at a time ----

  lemma {:induction false} LastStep(s: State, events: seq<Event>)
    requires IsRun(s, events) && events != []
    ensures var p, e := events[..|events| - 1], events[|events| - 1];
      IsRun(s, p) && Enabled(After(s, p), e) && After(s, events) == Apply(After(s, p), e)
    decreases |events|
  {
    var n := |events| - 1;
    if n > 0 {
      LastStep(Apply(s, events[0]), events[1..]);
      assert events[..n][1..] == events[1..][..n - 1] && events[..n][0] == events[0];
    }
  }

  // ---- what the rollback of a create did ----

  /** The RemoveAll of this case's rollback ends with the directory still there. */
  predicate LeavesDir(s: State, e: Event, id: Id) {
    && Enabled(s, e) && e.CreateStep? && e.create.RemoveAllRmdir? && s.threads[e.t].id == id
    && id in Apply(s, e).dirs
  }

  /** The DELETE of this case's rollback works. */
  predicate DropsRow(s: State, e: Event, id: Id) {
    Enabled(s, e) && e.CreateStep? && e.create == RollbackDelete(true) && s.threads[e.t].id == id
  }

  ghost predicate LeftAt(clock: int, events: seq<Event>, k: int, id: Id) {
    0 <= k < |events| && IsRun(Empty(clock), events[..k]) && LeavesDir(After(Empty(clock), events[..k]), events[k], id)
  }

  ghost predicate DroppedAt(clock: int, events: seq<Event>, k: int, id: Id) {
    0 <= k < |events| && IsRun(Empty(clock), events[..k]) && DropsRow(After(Empty(clock), events[..k]), events[k], id)
  }

  /** Some RemoveAll of the run left the case's directory. */
  ghost predicate RemoveAllFailed(clock: int, events: seq<Event>, id: Id) {
    exists k :: LeftAt(clock, events, k, id)
  }

  /** And afterwards the rollback deleted the row all the same. */
  ghost predicate RollbackFailed(clock: int, events: seq<Event>, id: Id) {
    exists k, j :: k < j && LeftAt(clock, events, k, id) && DroppedAt(clock, events, j, id)
  }

  /** At no moment of the run is a create of the case under way after the case has expired. */
  ghost predicate NeverLate(clock: int, events: seq<Event>, id: Id) {
    forall k :: 0 <= k <= |events| ==> !LateAt(clock, events, k, id)
  }

  ghost predicate LateAt(clock: int, events: seq<Event>, k: int, id: Id) {
    0 <= k <= |events| && IsRun(Empty(clock), events[..k]) && RunningLate(After(Empty(clock), events[..k]), id)
  }

  lemma LeftInPrefix(clock: int, p: seq<Event>, e: Event, k: int, id: Id)
    requires k < |p|
    ensures LeftAt(clock, p + [e], k, id) <==> LeftAt(clock, p, k, id)
    ensures DroppedAt(clock, p + [e], k, id) <==> DroppedAt(clock, p, k, id)
  {
    if 0 <= k {
      assert (p + [e])[..k] == p[..k];
    }
  }

  lemma LeftAtEnd(clock: int, p: seq<Event>, e: Event, id: Id)
    requires IsRun(Empty(clock), p)
    ensures LeftAt(clock, p + [e], |p|, id) <==> LeavesDir(After(Empty(clock), p), e, id)
    ensures DroppedAt(clock, p + [e], |p|, id) <==> DropsRow(After(Empty(clock), p), e, id)
  {
    assert (p + [e])[..|p|] == p;
  }

  lemma RemoveAllFailedSnoc(clock: int, p: seq<Event>, e: Event, id: Id)
    requires IsRun(Empty(clock), p)
    ensures RemoveAllFailed(clock, p + [e], id) <==>
      RemoveAllFailed(clock, p, id) || LeavesDir(After(Empty(clock), p), e, id)
  {
    var h := p + [e];
    LeftAtEnd(clock, p, e, id);
    if k :| LeftAt(clock, h, k, id) {
      if k < |p| {
        LeftInPrefix(clock, p, e, k, id);
      }
    }
    if k :| LeftAt(clock, p, k, id) {
      LeftInPrefix(clock, p, e, k, id);
    }
  }

  lemma RollbackFailedSnoc(clock: int, p: seq<Event>, e: Event, id: Id)
    requires IsRun(Empty(clock), p)
    ensures RollbackFailed(clock, p + [e], id) <==>
      RollbackFailed(clock, p, id) || (RemoveAllFailed(clock, p, id) && DropsRow(After(Empty(clock), p), e, id))
  {
    var h := p + [e];
    LeftAtEnd(clock, p, e, id);
    if k, j :| k < j && LeftAt(clock, h, k, id) && DroppedAt(clock, h, j, id) {
      LeftInPrefix(clock, p, e, k, id);
      if j < |p| {
        LeftInPrefix(clock, p, e, j, id);
      }
    }
    if k, j :| k < j && LeftAt(clock, p, k, id) && DroppedAt(clock, p, j, id) {
      LeftInPrefix(clock, p, e, k, id);
      LeftInPrefix(clock, p, e, j, id);
    }
    if k :| LeftAt(clock, p, k, id) {
      LeftInPrefix(clock, p, e, k, id);
    }
  }

  // ---- what a state knows of it ----

  /** A create of the case that is under way has left its directory only if it is about to delete its row. */
  predicate KnowsLeft(s: State, th: Thread, id: Id, left: bool) {
    th.InFlight() && th.id == id ==> if th.CRollback? then id in s.dirs <==> left else !left
  }

  ghost predicate Law(s: State, id: Id, left: bool, failed: bool) {
    && (Orphan(s, id) <==> failed)
    && (forall t :: t in s.threads ==> KnowsLeft(s, s.threads[t], id, left))
    && (id !in s.expiry ==> !left && !failed)
  }

  /** Nothing about the case changes. */
  predicate Untouched(s: State, s': State, id: Id) {
    && (id in s'.rows <==> id in s.rows) && (id in s'.dirs <==> id in s.dirs) && (id in s'.expiry <==> id in s.expiry)
  }

  lemma LawOfOthers(s: State, s': State, t: nat, id: Id, left: bool, failed: bool)
    requires Law(s, id, left, failed) && Untouched(s, s', id)
    requires forall u :: u in s'.threads && u != t ==> u in s.threads && s'.threads[u] == s.threads[u]
    requires t in s'.threads ==> KnowsLeft(s', s'.threads[t], id, left)
    ensures Law(s', id, left, failed)
  {
    forall u | u in s'.threads ensures KnowsLeft(s', s'.threads[u], id, left) {
      assert u != t ==> KnowsLeft(s, s.threads[u], id, left);
    }
  }

  /** Another create's call. */
  predicate IsOther(s: State, t: nat, call: CreateCall, id: Id)
    requires t in s.threads
  {
    (s.threads[t].InFlight() ==> s.threads[t].id != id) && (call.Insert? ==> call.id != id)
  }

  lemma OtherUntouched(s: State, t: nat, call: CreateCall, id: Id)
    requires CreateEnabled(s, t, call) && IsOther(s, t, call, id)
    ensures Untouched(s, ApplyCreate(s, t, call), id)
  {
  }

  /** A create's call moves no other goroutine. */
  lemma OneThreadMoves(s: State, t: nat, call: CreateCall)
    requires CreateEnabled(s, t, call)
    ensures ApplyCreate(s, t, call).threads - {t} == s.threads - {t}
  {
    match call
    case Insert(_, ok) =>
    case Mkdir(ok) =>
    case WriteBlob(w) =>
    case RemoveAllRmdir(ok) =>
    case RollbackDelete(ok) =>
    case _ =>
  }

  /** And its own stays with its case. */
  lemma OtherStaysOther(s: State, t: nat, call: CreateCall, id: Id)
    requires CreateEnabled(s, t, call) && IsOther(s, t, call, id)
    ensures var threads := ApplyCreate(s, t, call).threads;
      t in threads && threads[t].InFlight() ==> threads[t].id != id
  {
    match call
    case Insert(_, ok) =>
    case Mkdir(ok) =>
    case WriteBlob(w) =>
    case _ =>
  }

  lemma LawOtherCreate(s: State, t: nat, call: CreateCall, id: Id, left: bool, failed: bool)
    requires Law(s, id, left, failed) && CreateEnabled(s, t, call) && IsOther(s, t, call, id)
    ensures Law(ApplyCreate(s, t, call), id, left, failed)
  {
    var s' := ApplyCreate(s, t, call);
    OtherUntouched(s, t, call, id);
    OneThreadMoves(s, t, call);
    OtherStaysOther(s, t, call, id);
    forall u | u in s'.threads && u != t ensures u in s.threads && s'.threads[u] == s.threads[u] {
      assert u in s'.threads - {t} && (s'.threads - {t})[u] == (s.threads - {t})[u];
    }
    LawOfOthers(s, s', t, id, left, failed);
  }

  lemma LawInsert(s: State, t: nat, id: Id, ok: bool, left: bool, failed: bool)
    requires Inv(s) && Law(s, id, left, failed) && CreateEnabled(s, t, Insert(id, ok))
    ensures Law(DoInsert(s, t, id, ok), id, left, failed)
  {
    var s' := DoInsert(s, t, id, ok);
    forall u | u in s'.threads ensures KnowsLeft(s', s'.threads[u], id, left) {
      assert u != t ==> KnowsLeft(s, s.threads[u], id, left);
    }
  }

  /** The case's own create before its rollback. */
  lemma LawOwnCreate(s: State, t: nat, call: CreateCall, id: Id, left: bool, failed: bool)
    requires Inv(s) && Law(s, id, left, failed) && CreateEnabled(s, t, call) && id !in s.early
    requires call.Mkdir? || call.WriteBlob? || call.RemoveAllUnlink?
    requires s.threads[t].id == id
    ensures Law(ApplyCreate(s, t, call), id, left, failed)
  {
    var s' := ApplyCreate(s, t, call);
    assert CreateOwns(s, s.threads[t]) && KnowsLeft(s, s.threads[t], id, left);
    forall u | u in s'.threads ensures KnowsLeft(s', s'.threads[u], id, left) {
      assert u != t ==> KnowsLeft(s, s.threads[u], id, left);
    }
  }

  lemma LawRmdir(s: State, t: nat, ok: bool, id: Id, left: bool, failed: bool)
    requires Inv(s) && Law(s, id, left, failed) && CreateEnabled(s, t, RemoveAllRmdir(ok)) && id !in s.early
    requires s.threads[t].id == id
    ensures var s' := DoRemoveAllRmdir(s, t, ok); Law(s', id, left || id in s'.dirs, failed)
  {
    var s' := DoRemoveAllRmdir(s, t, ok);
    assert CreateOwns(s, s.threads[t]) && KnowsLeft(s, s.threads[t], id, left);
    forall u | u in s'.threads ensures KnowsLeft(s', s'.threads[u], id, left || id in s'.dirs) {
      assert u != t ==> KnowsLeft(s, s.threads[u], id, left);
    }
  }

  lemma LawRollback(s: State, t: nat, ok: bool, id: Id, left: bool, failed: bool)
    requires Inv(s) && Law(s, id, left, failed) && CreateEnabled(s, t, RollbackDelete(ok)) && id !in s.early
    requires s.threads[t].id == id
    ensures Law(DoRollbackDelete(s, t, ok), id, left, failed || (left && ok))
  {
    var s' := DoRollbackDelete(s, t, ok);
    assert CreateOwns(s, s.threads[t]) && KnowsLeft(s, s.threads[t], id, left);
    forall u | u in s'.threads ensures KnowsLeft(s', s'.threads[u], id, left) {
      assert KnowsLeft(s, s.threads[u], id, left);
    }
  }

  lemma LawCreate(s: State, t: nat, call: CreateCall, id: Id, left: bool, failed: bool)
    requires Inv(s) && Law(s, id, left, failed) && CreateEnabled(s, t, call) && id !in s.early
    ensures var e := CreateStep(t, call);
      Law(ApplyCreate(s, t, call), id, left || LeavesDir(s, e, id), failed || (left && DropsRow(s, e, id)))
  {
    if call.Insert? {
      if call.id == id {
        LawInsert(s, t, id, call.ok, left, failed);
      } else {
        LawOtherCreate(s, t, call, id, left, failed);
      }
    } else if s.threads[t].id != id {
      LawOtherCreate(s, t, call, id, left, failed);
    } else {
      match call
      case RemoveAllRmdir(ok) => LawRmdir(s, t, ok, id, left, failed);
      case RollbackDelete(ok) => LawRollback(s, t, ok, id, left, failed);
      case _ => LawOwnCreate(s, t, call, id, left, failed);
    }
  }

  lemma LawReply(s: State, t: nat, call: ReplyCall, id: Id, left: bool, failed: bool)
    requires Law(s, id, left, failed) && ReplyEnabled(s, t, call)
    ensures Law(ApplyReply(s, t, call), id, left, failed)
  {
    LawOfOthers(s, ApplyReply(s, t, call), t, id, left, failed);
  }

  /** The sweeper takes the directory before the row. */
  lemma SweepMakesNoOrphan(s: State, call: SweepCall, id: Id)
    requires Inv(s) && SweepEnabled(s, call) && id !in s.early
    ensures Orphan(ApplySweep(s, call), id) <==> Orphan(s, id)
  {
    match call
    case Rmdir(ok) => assert s.sweep.todo[0] in s.sweep.Todo();
    case Delete(ok) => assert s.sweep.todo[0] in s.sweep.Todo();
    case _ =>
  }

  /** It keeps off a case whose create is under way. */
  lemma SweepKeepsOff(s: State, call: SweepCall, t: nat)
    requires Inv(s) && SweepEnabled(s, call) && t in s.threads && s.threads[t].InFlight()
    requires s.threads[t].id !in s.early
    ensures s.threads[t].id in ApplySweep(s, call).dirs <==> s.threads[t].id in s.dirs
  {
    assert CreateOwns(s, s.threads[t]);
    match call
    case Rmdir(ok) => assert s.sweep.todo[0] in s.sweep.Todo();
    case _ =>
  }

  lemma SweepKeepsExpiry(s: State, call: SweepCall)
    requires SweepEnabled(s, call)
    ensures ApplySweep(s, call).expiry == s.expiry
  {
    match call
    case Select(order) =>
    case List(names, ok) =>
    case Stat(ok) =>
    case Overwrite(w) =>
    case Remove(ok) =>
    case Rmdir(ok) =>
    case Delete(ok) =>
    case Done =>
  }

  lemma SweepKeepsThreads(s: State, call: SweepCall)
    requires SweepEnabled(s, call)
    ensures ApplySweep(s, call).threads == s.threads
  {
    match call
    case Select(order) =>
    case List(names, ok) =>
    case Stat(ok) =>
    case Overwrite(w) =>
    case Remove(ok) =>
    case Rmdir(ok) =>
    case Delete(ok) =>
    case Done =>
  }

  lemma SweepMovesNoThread(s: State, call: SweepCall)
    requires SweepEnabled(s, call)
    ensures ApplySweep(s, call).threads == s.threads && ApplySweep(s, call).expiry == s.expiry
  {
    SweepKeepsThreads(s, call);
    SweepKeepsExpiry(s, call);
  }

  lemma LawSweep(s: State, call: SweepCall, id: Id, left: bool, failed: bool)
    requires Inv(s) && Law(s, id, left, failed) && SweepEnabled(s, call) && id !in s.early
    ensures Law(ApplySweep(s, call), id, left, failed)
  {
    var s' := ApplySweep(s, call);
    SweepMakesNoOrphan(s, call, id);
    SweepMovesNoThread(s, call);
    forall u | u in s'.threads ensures KnowsLeft(s', s'.threads[u], id, left) {
      assert KnowsLeft(s, s.threads[u], id, left);
      if s.threads[u].InFlight() && s.threads[u].id == id {
        SweepKeepsOff(s, call, u);
      }
    }
  }

  lemma LawStep(s: State, e: Event, id: Id, left: bool, failed: bool)
    requires Inv(s) && Law(s, id, left, failed) && Enabled(s, e) && id !in s.early
    ensures Law(Apply(s, e), id, left || LeavesDir(s, e, id), failed || (left && DropsRow(s, e, id)))
  {
    match e
    case CreateStep(t, call) => LawCreate(s, t, call, id, left, failed);
    case ReplyStep(t, call) => LawReply(s, t, call, id, left, failed);
    case SweepStep(call) => LawSweep(s, call, id, left, failed);
    case StartCreate(t, row, blob) => LawOfOthers(s, Apply(s, e), t, id, left, failed);
    case StartReply(t, _, blob) => LawOfOthers(s, Apply(s, e), t, id, left, failed);
    case _ =>
  }

  lemma NeverEarly(clock: int, events: seq<Event>, id: Id)
    requires IsRun(Empty(clock), events) && NeverLate(clock, events, id)
    ensures id !in After(Empty(clock), events).early
  {
    if id in After(Empty(clock), events).early {
      var k := EarlyRanLate(Empty(clock), events, id);
      assert LateAt(clock, events, k, id);
    }
  }

  lemma NeverLateBefore(clock: int, p: seq<Event>, e: Event, id: Id)
    requires NeverLate(clock, p + [e], id)
    ensures NeverLate(clock, p, id)
  {
    forall k | 0 <= k <= |p| ensures !LateAt(clock, p, k, id) {
      assert (p + [e])[..k] == p[..k];
      assert !LateAt(clock, p + [e], k, id);
    }
  }

  lemma {:induction false} LawHolds(clock: int, events: seq<Event>, id: Id)
    requires IsRun(Empty(clock), events) && NeverLate(clock, events, id)
    ensures Law(After(Empty(clock), events), id, RemoveAllFailed(clock, events, id), RollbackFailed(clock, events, id))
    decreases |events|
  {
    if events != [] {
      var n := |events| - 1;
      var p, e := events[..n], events[n];
      assert events == p + [e];
      LastStep(Empty(clock), events);
      NeverLateBefore(clock, p, e, id);
      LawHolds(clock, p, id);
      NeverEarly(clock, p, id);
      RunKeepsInv(Empty(clock), p);
      LawStep(After(Empty(clock), p), e, id, RemoveAllFailed(clock, p, id), RollbackFailed(clock, p, id));
      RemoveAllFailedSnoc(clock, p, e, id);
      RollbackFailedSnoc(clock, p, e, id);
    }
  }

  // ---- the theorems ----

  /**
    In every run whose create of the case is never under way after the case
    has expired, the directory is without a row at the end if and only if a
    rollback's RemoveAll left it and the rollback went on to delete the row.
    Crashes, replies, sweeps and other creates have no part in it.
   */
  lemma OrphanIffRollbackFailed(clock: int, events: seq<Event>, id: Id)
    requires IsRun(Empty(clock), events) && NeverLate(clock, events, id)
    ensures Orphan(After(Empty(clock), events), id) <==> RollbackFailed(clock, events, id)
  {
    LawHolds(clock, events, id);
  }

  /** Whatever the run, a directory without a row has one of two causes. */
  lemma OrphanHasCause(clock: int, events: seq<Event>, id: Id)
    requires IsRun(Empty(clock), events) && Orphan(After(Empty(clock), events), id)
    ensures RollbackFailed(clock, events, id) || exists k :: LateAt(clock, events, k, id)
  {
    if NeverLate(clock, events, id) {
      OrphanIffRollbackFailed(clock, events, id);
    }
  }

  /** Every rollback of the run cleared its directory, and no create ran past its case's expiry. */
  ghost predicate Orderly(clock: int, events: seq<Event>) {
    forall id :: !RemoveAllFailed(clock, events, id) && NeverLate(clock, events, id)
  }

  /**
    Row first on create, row last on sweep: when every RemoveAll of a rollback
    clears its directory and no create runs past its case's expiry, every
    directory under blob/ has a row, whatever else the run does.
   */
  lemma EveryDirectoryHasRow(clock: int, events: seq<Event>)
    requires IsRun(Empty(clock), events) && Orderly(clock, events)
    ensures var s := After(Empty(clock), events); forall id :: id in s.dirs ==> id in s.rows
  {
    var s := After(Empty(clock), events);
    forall id | id in s.dirs ensures id in s.rows {
      assert !RemoveAllFailed(clock, events, id);
      OrphanIffRollbackFailed(clock, events, id);
    }
  }

  lemma {:induction false} EarlyStays(s: State, events: seq<Event>)
    requires IsRun(s, events) && forall e :: e in events ==> !IsSelect(e)
    ensures After(s, events).early == s.early
    decreases |events|
  {
    if events != [] {
      assert events[0] in events;
      OnlySelectMarks(s, events[0]);
      EarlyStays(Apply(s, events[0]), events[1..]);
    }
  }

  lemma NotSelectedInFlight(clock: int, events: seq<Event>, order: seq<Id>, id: Id)
    requires IsRun(Empty(clock), events) && NeverLate(clock, events, id)
    requires IsExpiredList(After(Empty(clock), events), order)
    ensures id !in DoSelect(After(Empty(clock), events), order).early
  {
    var s := After(Empty(clock), events);
    NeverEarly(clock, events, id);
    RunKeepsInv(Empty(clock), events);
    assert events[..|events|] == events;
    assert !LateAt(clock, events, |events|, id);
    if id in DoSelect(s, order).early {
      EarlySelect(s, order, id);
    }
  }

  /**
    So the sweep reaches everything: after an orderly run, a sweep that gets
    from its SELECT to its end has removed every directory that had expired
    when it began, with its row, whatever goes on meanwhile.
   */
  lemma WholeSweepReachesAll(clock: int, before: seq<Event>, order: seq<Id>, during: seq<Event>, id: Id)
    requires IsRun(Empty(clock), before) && Orderly(clock, before)
    requires SweepEnabled(After(Empty(clock), before), Select(order))
    requires IsRun(DoSelect(After(Empty(clock), before), order), during) && forall e :: e in during ==> !IsSelect(e)
    requires After(DoSelect(After(Empty(clock), before), order), during).sweep == Next([])
    requires id in After(Empty(clock), before).dirs && id in After(Empty(clock), before).expiry
    requires After(Empty(clock), before).expiry[id] < After(Empty(clock), before).clock
    ensures var end := After(DoSelect(After(Empty(clock), before), order), during); id !in end.dirs && id !in end.rows
  {
    var s := After(Empty(clock), before);
    RunKeepsInv(Empty(clock), before);
    EveryDirectoryHasRow(clock, before);
    assert s.rows[id].expiresAt == s.expiry[id];
    assert !RemoveAllFailed(clock, before, id);
    NotSelectedInFlight(clock, before, order, id);
    SweepRemovesAll(s, order, during);
    EarlyStays(DoSelect(s, order), during);
    assert Dealt(After(DoSelect(s, order), during), id);
  }
}
