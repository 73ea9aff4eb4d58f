/**
  What an unexpired case keeps whatever goes on around it: the second theorem
  about the store's steps.
 */
module StoreKeeping {
  import opened Common
  import opened StoreSteps
  import opened StoreOrphans

  predicate Live(s: State, id: Id) {
    id in s.expiry && s.expiry[id] >= s.clock
  }

  ghost predicate KeepsBlob(s: State, id: Id) {
    id in s.returned ==>
      && id in s.rows
      && id in s.dirs && BLOB_NAME in s.dirs[id] && s.dirs[id][BLOB_NAME] == s.returned[id]
  }

  ghost predicate KeepsReply(s: State, id: Id) {
    id in s.rows && s.rows[id].hasReply ==> (HasReplyFile(s, id) <==> id !in s.robbed)
  }

  /** What a goroutine may rely on about an unexpired case at each of its calls. */
  ghost predicate ThreadKnows(s: State, th: Thread) {
    && (th.CInsert? ==> !th.row.hasReply)
    && (th.RWrite? || th.RFlag? ==> th.id in s.expiry)
    && (th.InFlight() ==> th.id !in s.returned)
    && (th.CMkdir? && Live(s, th.id) ==> th.id in s.rows && th.id !in s.dirs)
    && (th.CWrite? && Live(s, th.id) ==> th.id in s.rows && th.id in s.dirs)
    && (th.CRemoveAll? ==> th.id in s.aborted)
    && (th.CRollback? && Live(s, th.id) ==> th.id in s.aborted || th.id !in s.dirs)
    && (th.RFlag? && Live(s, th.id) ==> (HasReplyFile(s, th.id) <==> th.id !in s.robbed))
  }

  ghost predicate Keeping(s: State) {
    && (forall id :: id in s.returned ==> id in s.expiry)
    && s.robbed <= s.aborted
    && (forall id :: Live(s, id) ==> KeepsBlob(s, id) && KeepsReply(s, id))
    && (forall t :: t in s.threads ==> ThreadKnows(s, s.threads[t]))
  }

  ghost predicate SameAt(s: State, s': State, id: Id) {
    && (id in s'.expiry <==> id in s.expiry) && (id in s.expiry ==> s'.expiry[id] == s.expiry[id])
    && (id in s'.rows <==> id in s.rows) && (id in s.rows ==> s'.rows[id].hasReply == s.rows[id].hasReply)
    && (id in s'.dirs <==> id in s.dirs) && (id in s.dirs ==> s'.dirs[id] == s.dirs[id])
    && (id in s'.returned <==> id in s.returned) && (id in s.returned ==> s'.returned[id] == s.returned[id])
    && (id in s'.aborted <==> id in s.aborted) && (id in s'.robbed <==> id in s.robbed)
  }

  ghost predicate SameElsewhere(s: State, s': State, x: Id) {
    forall id :: id != x ==> SameAt(s, s', id)
  }

  /** A call that touches case `x` alone needs a look at `x` and at the goroutines working on it. */
  lemma OneCase(s: State, s': State, t: int, x: Id)
    requires Keeping(s) && s'.clock == s.clock
    requires SameElsewhere(s, s', x)
    requires x in s'.returned ==> x in s'.expiry
    requires x in s'.robbed ==> x in s'.aborted
    requires Live(s', x) ==> KeepsBlob(s', x) && KeepsReply(s', x)
    requires forall u :: u in s'.threads && u != t ==> u in s.threads && s'.threads[u] == s.threads[u]
    requires t in s'.threads ==> ThreadKnows(s', s'.threads[t])
    requires forall u ::
      u in s'.threads && u != t && !s'.threads[u].CInsert? && s'.threads[u].id == x ==> ThreadKnows(s', s'.threads[u])
    ensures Keeping(s')
  {
    forall id | Live(s', id) ensures KeepsBlob(s', id) && KeepsReply(s', id) {
      assert id != x ==> SameAt(s, s', id) && Live(s, id);
    }
    forall u | u in s'.threads ensures ThreadKnows(s', s'.threads[u]) {
      var th := s'.threads[u];
      if u != t && (th.CInsert? || th.id != x) {
        assert ThreadKnows(s, th);
        assert !th.CInsert? ==> SameAt(s, s', th.id);
      }
    }
    forall id | id in s'.robbed ensures id in s'.aborted {
      assert id != x ==> SameAt(s, s', id);
    }
    forall id | id in s'.returned ensures id in s'.expiry {
      assert id != x ==> SameAt(s, s', id);
    }
  }

  lemma ThreadMovesKeeping(s: State, t: nat, th: Thread)
    requires Keeping(s) && ThreadKnows(s, th)
    ensures Keeping(Goto(s, t, th)) && Keeping(Return(s, t))
  {
    forall s' | s' == Goto(s, t, th) || s' == Return(s, t) ensures Keeping(s') {
      forall id | Live(s', id) ensures KeepsBlob(s', id) && KeepsReply(s', id) {
        assert Live(s, id);
      }
      forall u | u in s'.threads ensures ThreadKnows(s', s'.threads[u]) {
        assert ThreadKnows(s, s'.threads[u]);
      }
    }
  }

  lemma NewCaseKeepsKeeping(s: State, t: nat, id: Id)
    requires Bookkeeping(s) && Keeping(s) && t in s.threads && s.threads[t].CInsert?
    requires id !in s.rows && id !in s.expiry
    ensures Keeping(DoInsert(s, t, id, true))
  {
    assert ThreadKnows(s, s.threads[t]);
    assert id !in s.returned && id !in s.dirs;
    OneCase(s, DoInsert(s, t, id, true), t, id);
  }

  lemma InsertKeepsKeeping(s: State, t: nat, id: Id, ok: bool)
    requires Bookkeeping(s) && Keeping(s) && CreateEnabled(s, t, Insert(id, ok))
    ensures Keeping(DoInsert(s, t, id, ok))
  {
    assert ThreadKnows(s, s.threads[t]);
    if id in s.rows || !ok {
      ThreadMovesKeeping(s, t, s.threads[t].(tries := s.threads[t].tries + 1));
    } else {
      NewCaseKeepsKeeping(s, t, id);
    }
  }

  lemma MkdirElsewhere(s: State, t: nat, ok: bool)
    requires CreateEnabled(s, t, Mkdir(ok))
    ensures SameElsewhere(s, DoMkdir(s, t, ok), s.threads[t].id)
  {
  }

  lemma MkdirKeepsKeeping(s: State, t: nat, ok: bool)
    requires Bookkeeping(s) && Keeping(s) && CreateEnabled(s, t, Mkdir(ok))
    ensures Keeping(DoMkdir(s, t, ok))
  {
    assert ThreadKnows(s, s.threads[t]);
    var x := s.threads[t].id;
    assert Live(s, x) ==> KeepsReply(s, x);
    MkdirElsewhere(s, t, ok);
    OneCase(s, DoMkdir(s, t, ok), t, x);
  }

  lemma WriteBlobElsewhere(s: State, t: nat, w: Written)
    requires CreateEnabled(s, t, WriteBlob(w))
    ensures SameElsewhere(s, DoWriteBlob(s, t, w), s.threads[t].id)
  {
  }

  lemma WriteBlobKeepsKeeping(s: State, t: nat, w: Written)
    requires Bookkeeping(s) && Keeping(s) && CreateEnabled(s, t, WriteBlob(w))
    ensures Keeping(DoWriteBlob(s, t, w))
  {
    assert ThreadKnows(s, s.threads[t]);
    var x := s.threads[t].id;
    assert Live(s, x) ==> KeepsReply(s, x);
    WriteBlobElsewhere(s, t, w);
    OneCase(s, DoWriteBlob(s, t, w), t, x);
  }

  lemma RemoveAllUnlinkKeepsKeeping(s: State, t: nat, name: string)
    requires Bookkeeping(s) && Keeping(s) && CreateEnabled(s, t, RemoveAllUnlink(name))
    ensures Keeping(DoRemoveAllUnlink(s, t, name))
  {
    assert ThreadKnows(s, s.threads[t]);
    var x := s.threads[t].id;
    assert Live(s, x) ==> KeepsReply(s, x);
    OneCase(s, DoRemoveAllUnlink(s, t, name), t, x);
  }

  lemma RemoveAllRmdirElsewhere(s: State, t: nat, ok: bool)
    requires CreateEnabled(s, t, RemoveAllRmdir(ok))
    ensures SameElsewhere(s, DoRemoveAllRmdir(s, t, ok), s.threads[t].id)
  {
  }

  lemma RemoveAllRmdirKeepsKeeping(s: State, t: nat, ok: bool)
    requires Bookkeeping(s) && Keeping(s) && CreateEnabled(s, t, RemoveAllRmdir(ok))
    ensures Keeping(DoRemoveAllRmdir(s, t, ok))
  {
    assert ThreadKnows(s, s.threads[t]);
    var x := s.threads[t].id;
    assert Live(s, x) ==> KeepsReply(s, x);
    RemoveAllRmdirElsewhere(s, t, ok);
    OneCase(s, DoRemoveAllRmdir(s, t, ok), t, x);
  }

  lemma RollbackDeleteKeepsKeeping(s: State, t: nat, ok: bool)
    requires Bookkeeping(s) && Keeping(s) && CreateEnabled(s, t, RollbackDelete(ok))
    ensures Keeping(DoRollbackDelete(s, t, ok))
  {
    assert ThreadKnows(s, s.threads[t]);
    var x := s.threads[t].id;
    assert Live(s, x) ==> KeepsReply(s, x);
    OneCase(s, DoRollbackDelete(s, t, ok), t, x);
  }

  lemma ReplyCheckKeepsKeeping(s: State, t: nat, ok: bool)
    requires Keeping(s) && ReplyEnabled(s, t, Check(ok))
    requires forall id :: id in s.rows ==> id in s.expiry
    ensures Keeping(DoReplyCheck(s, t, ok))
  {
    var th := s.threads[t];
    if ok && th.id in s.rows {
      ThreadMovesKeeping(s, t, RWrite(th.id, th.blob));
    } else {
      ThreadMovesKeeping(s, t, th);
    }
  }

  lemma ReplyWriteElsewhere(s: State, t: nat, w: Written)
    requires ReplyEnabled(s, t, WriteReplyFile(w))
    ensures SameElsewhere(s, DoReplyWrite(s, t, w), s.threads[t].id)
  {
  }

  lemma ReplyWriteKeepsKeeping(s: State, t: nat, w: Written)
    requires Keeping(s) && ReplyEnabled(s, t, WriteReplyFile(w))
    ensures Keeping(DoReplyWrite(s, t, w))
  {
    assert ThreadKnows(s, s.threads[t]);
    var x := s.threads[t].id;
    assert Live(s, x) ==> KeepsReply(s, x) && KeepsBlob(s, x);
    ReplyWriteElsewhere(s, t, w);
    OneCase(s, DoReplyWrite(s, t, w), t, x);
  }

  lemma ReplyFlagKeepsKeeping(s: State, t: nat, ok: bool)
    requires Keeping(s) && ReplyEnabled(s, t, SetFlag(ok))
    ensures Keeping(DoReplyFlag(s, t, ok))
  {
    assert ThreadKnows(s, s.threads[t]);
    var x := s.threads[t].id;
    assert Live(s, x) ==> KeepsReply(s, x) && KeepsBlob(s, x);
    OneCase(s, DoReplyFlag(s, t, ok), t, x);
  }

  /** What changes in the expired case the sweeper works on is none of an unexpired one's business. */
  lemma ShredKeepsKeeping(s: State, call: SweepCall)
    requires Bookkeeping(s) && Keeping(s) && SweepEnabled(s, call) && (call.Overwrite? || call.Remove?)
    ensures Keeping(ApplySweep(s, call))
  {
    var x := s.sweep.todo[0];
    assert x in s.sweep.Todo();
    ExpiredCase(s, ApplySweep(s, call), x);
  }

  lemma DropKeepsKeeping(s: State, call: SweepCall)
    requires Bookkeeping(s) && Keeping(s) && SweepEnabled(s, call) && (call.Rmdir? || call.Delete?)
    ensures Keeping(ApplySweep(s, call))
  {
    var x := s.sweep.todo[0];
    assert x in s.sweep.Todo();
    ExpiredCase(s, ApplySweep(s, call), x);
  }

  /** The sweeper writes, unlinks and deletes only what has expired. */
  lemma SweepKeepsKeeping(s: State, call: SweepCall)
    requires Bookkeeping(s) && Keeping(s) && SweepEnabled(s, call)
    ensures Keeping(ApplySweep(s, call))
  {
    if call.Overwrite? || call.Remove? {
      ShredKeepsKeeping(s, call);
    } else if call.Rmdir? || call.Delete? {
      DropKeepsKeeping(s, call);
    } else {
      SweepMovesKeeping(s, ApplySweep(s, call));
    }
  }

  lemma ExpiredCase(s: State, s': State, x: Id)
    requires Keeping(s) && !Live(s, x)
    requires s' == s.(rows := s'.rows, dirs := s'.dirs, sweep := s'.sweep, leaked := s'.leaked, outrun := s'.outrun)
    requires s'.rows - {x} == s.rows - {x} && s'.dirs - {x} == s.dirs - {x}
    ensures Keeping(s')
  {
    forall id ensures id != x ==> SameAt(s, s', id) {
      if id != x {
        assert (id in s.rows <==> id in s.rows - {x}) && (id in s.dirs <==> id in s.dirs - {x});
        assert (id in s'.rows <==> id in s'.rows - {x}) && (id in s'.dirs <==> id in s'.dirs - {x});
      }
    }
    OneCase(s, s', -1, x);
  }

  lemma SweepMovesKeeping(s: State, s': State)
    requires Keeping(s) && s' == s.(sweep := s'.sweep, early := s'.early)
    ensures Keeping(s')
  {
    forall id | Live(s', id) ensures KeepsBlob(s', id) && KeepsReply(s', id) {
      assert Live(s, id);
    }
    forall u | u in s'.threads ensures ThreadKnows(s', s'.threads[u]) {
      assert ThreadKnows(s, s'.threads[u]);
    }
  }

  lemma StepKeepsKeeping(s: State, e: Event)
    requires Bookkeeping(s) && Keeping(s) && Enabled(s, e)
    ensures Keeping(Apply(s, e))
  {
    match e
    case CreateStep(t, call) =>
      match call {
        case Insert(id, ok) => InsertKeepsKeeping(s, t, id, ok);
        case Mkdir(ok) => MkdirKeepsKeeping(s, t, ok);
        case WriteBlob(w) => WriteBlobKeepsKeeping(s, t, w);
        case RemoveAllUnlink(name) => RemoveAllUnlinkKeepsKeeping(s, t, name);
        case RemoveAllRmdir(ok) => RemoveAllRmdirKeepsKeeping(s, t, ok);
        case RollbackDelete(ok) => RollbackDeleteKeepsKeeping(s, t, ok);
      }
    case ReplyStep(t, call) =>
      match call {
        case Check(ok) => ReplyCheckKeepsKeeping(s, t, ok);
        case WriteReplyFile(w) => ReplyWriteKeepsKeeping(s, t, w);
        case SetFlag(ok) => ReplyFlagKeepsKeeping(s, t, ok);
      }
    case SweepStep(call) => SweepKeepsKeeping(s, call);
    case StartCreate(t, row, blob) => ThreadMovesKeeping(s, t, CInsert(row, blob, 0));
    case StartReply(t, id, blob) => ThreadMovesKeeping(s, t, RCheck(id, blob));
    case _ =>
      var s' := Apply(s, e);
      forall id | Live(s', id) ensures KeepsBlob(s', id) && KeepsReply(s', id) {
        assert Live(s, id);
      }
  }

  lemma {:induction false} RunKeepsKeeping(s: State, events: seq<Event>)
    requires Inv(s) && Keeping(s) && IsRun(s, events)
    ensures Keeping(After(s, events))
    decreases |events|
  {
    if events != [] {
      StepKeepsInv(s, events[0]);
      StepKeepsKeeping(s, events[0]);
      RunKeepsKeeping(Apply(s, events[0]), events[1..]);
    }
  }

  /**
    An unexpired case is safe from everything that goes on around it: once its
    CreateCase has returned, its row is there and its blob is what was handed
    in, byte for byte; and a row with has_reply = 1 has its reply.bin if and only
    if no rollback has unlinked one that was not written again since.
   */
  lemma UnexpiredCaseIntact(clock: int, s: State, id: Id)
    requires Reachable(clock, s) && Live(s, id)
    ensures id in s.returned ==>
      && id in s.rows && id in s.dirs
      && BLOB_NAME in s.dirs[id] && s.dirs[id][BLOB_NAME] == s.returned[id]
    ensures id in s.rows && s.rows[id].hasReply ==> (HasReplyFile(s, id) <==> id !in s.robbed)
  {
    var events :| IsRun(Empty(clock), events) && After(Empty(clock), events) == s;
    RunKeepsKeeping(Empty(clock), events);
  }

  /** Only the rollback of a create that failed to write its blob takes a reply away. */
  lemma OnlyAbortedLoseReplies(clock: int, s: State, id: Id)
    requires Reachable(clock, s) && Live(s, id) && id !in s.aborted
    ensures id in s.rows && s.rows[id].hasReply ==> HasReplyFile(s, id)
  {
    var events :| IsRun(Empty(clock), events) && After(Empty(clock), events) == s;
    RunKeepsKeeping(Empty(clock), events);
    UnexpiredCaseIntact(clock, s, id);
  }

  /** A reply is about to be written while the create is about to write its blob. */
  lemma ReachReplying() returns (s: State)
    ensures Reachable(0, s)
    ensures s == State(map["a" := SAMPLE_ROW], map["a" := map[]], 0, map[0 := CWrite("a", "x"), 1 := RWrite("a", "r")], Idle,
                       map["a" := 10], map[], {}, {}, {}, {}, {})
  {
    var s2 := ReachInserted();
    var s3 := s2.(dirs := map["a" := map[]], threads := map[0 := CWrite("a", "x")]);
    Reach(0, s2, CreateStep(0, Mkdir(true)), s3);
    var s4 := s3.(threads := map[0 := CWrite("a", "x"), 1 := RCheck("a", "r")]);
    Reach(0, s3, StartReply(1, "a", "r"), s4);
    s := s4.(threads := map[0 := CWrite("a", "x"), 1 := RWrite("a", "r")]);
    Reach(0, s4, ReplyStep(1, Check(true)), s);
  }

  const FLAGGED_ROW := SAMPLE_ROW.(hasReply := true)

  /** The blob write fails. */
  lemma ReachAborting() returns (s: State)
    ensures Reachable(0, s)
    ensures s == State(map["a" := SAMPLE_ROW], map["a" := map[]], 0, map[0 := CRemoveAll("a"), 1 := RWrite("a", "r")], Idle,
                       map["a" := 10], map[], {"a"}, {}, {}, {}, {})
  {
    var s5 := ReachReplying();
    s := s5.(threads := map[0 := CRemoveAll("a"), 1 := RWrite("a", "r")], aborted := {"a"});
    Reach(0, s5, CreateStep(0, WriteBlob(Failed(None))), s);
  }

  /** Then the reply is written. */
  lemma ReachReplyWritten() returns (s: State)
    ensures Reachable(0, s)
    ensures s == State(map["a" := SAMPLE_ROW], map["a" := map[REPLY_NAME := "r"]], 0,
                       map[0 := CRemoveAll("a"), 1 := RFlag("a")], Idle, map["a" := 10], map[], {"a"}, {}, {}, {}, {})
  {
    var s6 := ReachAborting();
    s := s6.(dirs := map["a" := map[REPLY_NAME := "r"]], threads := map[0 := CRemoveAll("a"), 1 := RFlag("a")]);
    Reach(0, s6, ReplyStep(1, WriteReplyFile(Wrote)), s);
  }

  lemma ReachReplied() returns (s: State)
    ensures Reachable(0, s)
    ensures s == State(map["a" := FLAGGED_ROW], map["a" := map[REPLY_NAME := "r"]], 0, map[0 := CRemoveAll("a")], Idle,
                       map["a" := 10], map[], {"a"}, {}, {}, {}, {})
  {
    var s7 := ReachReplyWritten();
    s := s7.(rows := map["a" := FLAGGED_ROW], threads := map[0 := CRemoveAll("a")]);
    assert s7.threads - {1} == map[0 := CRemoveAll("a")];
    Reach(0, s7, ReplyStep(1, SetFlag(true)), s);
  }

  /**
    That exception happens too: the rollback of a failed create takes a saved
    reply with it, then fails to delete the row.
   */
  lemma AbortCanLoseReply()
    ensures exists s :: Reachable(0, s) && Live(s, "a") && "a" in s.rows && s.rows["a"].hasReply && !HasReplyFile(s, "a")
  {
    var s8 := ReachReplied();
    var s9 := s8.(dirs := map["a" := map[]], robbed := {"a"});
    Reach(0, s8, CreateStep(0, RemoveAllUnlink(REPLY_NAME)), s9);
    var s10 := s9.(dirs := map[], threads := map[0 := CRollback("a")]);
    Reach(0, s9, CreateStep(0, RemoveAllRmdir(true)), s10);
    var s11 := s10.(threads := map[]);
    Reach(0, s10, CreateStep(0, RollbackDelete(false)), s11);
    assert s11.rows["a"] == FLAGGED_ROW;
  }
}
