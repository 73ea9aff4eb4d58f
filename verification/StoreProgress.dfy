/**
  What the store's steps get done: sweeps, creates and replies that nobody
  disturbs reach their goal, and a sweep that stops on the way was made to.
 */
module StoreProgress {
  import opened Common
  import opened StoreSteps
  import opened StoreOrphans

  // ---- runs put together ----

  lemma Cons(s: State, e: Event, rest: seq<Event>)
    requires Enabled(s, e) && IsRun(Apply(s, e), rest)
    ensures IsRun(s, [e] + rest) && After(s, [e] + rest) == After(Apply(s, e), rest)
  {
    assert ([e] + rest)[0] == e && ([e] + rest)[1..] == rest;
  }

  lemma {:induction false} RunConcat(s: State, a: seq<Event>, b: seq<Event>)
    requires IsRun(s, a) && IsRun(After(s, a), b)
    ensures IsRun(s, a + b) && After(s, a + b) == After(After(s, a), b)
    decreases |a|
  {
    if a == [] {
      assert a + b == b;
    } else {
      RunConcat(Apply(s, a[0]), a[1..], b);
      Cons(s, a[0], a[1..] + b);
      assert a + b == [a[0]] + (a[1..] + b);
    }
  }

  /** A step from one given state to another. */
  predicate Leads(s: State, e: Event, s': State) {
    Enabled(s, e) && Apply(s, e) == s'
  }

  /** Steps through given states make a run. */
  lemma {:induction false} Follow(states: seq<State>, events: seq<Event>)
    requires |states| == |events| + 1
    requires forall i :: 0 <= i < |events| ==> Leads(states[i], events[i], states[i + 1])
    ensures IsRun(states[0], events) && After(states[0], events) == states[|events|]
    decreases |events|
  {
    if events != [] {
      var rest := states[1..];
      assert forall i :: 0 <= i < |events| - 1 ==> rest[i] == states[i + 1] && events[1..][i] == events[i + 1];
      Follow(rest, events[1..]);
    }
  }

  // ---- a sweep that nobody disturbs ----

  /** A call of the sweeper that works. */
  predicate SweepWorks(e: Event) {
    e.SweepStep? &&
    match e.call
    case List(_, ok) => ok
    case Stat(ok) => ok
    case Overwrite(w) => w.Wrote?
    case Remove(ok) => ok
    case Rmdir(ok) => ok
    case Delete(ok) => ok
    case _ => true
  }

  predicate SweeperAlone(events: seq<Event>) {
    forall e :: e in events ==> SweepWorks(e)
  }

  /** Neither the clock nor any goroutine moved. */
  predicate Standstill(s: State, s': State) {
    s'.clock == s.clock && s'.threads == s.threads
  }

  /** Some order of a directory's names. */
  lemma {:induction false} ListingOf(files: Files) returns (names: seq<string>)
    ensures IsListing(files, names)
    decreases |files|
  {
    if files == map[] {
      names := [];
    } else {
      var n :| n in files;
      assert |files - {n}| < |files| by {
        assert (files - {n}).Keys == files.Keys - {n} && |files| == |files.Keys| && |files - {n}| == |(files - {n}).Keys|;
      }
      names := ListingOf(files - {n});
      names := [n] + names;
    }
  }

  /** Each unlinked file held zeros, as many as the file of that name in `before` had bytes. */
  predicate ZeroesFirst(s: State, events: seq<Event>, before: map<Id, Files>)
    requires IsRun(s, events)
    decreases |events|
  {
    events == [] || (UnlinksZeros(s, events[0], before) && ZeroesFirst(Apply(s, events[0]), events[1..], before))
  }

  predicate UnlinksZeros(s: State, e: Event, before: map<Id, Files>)
    requires Enabled(s, e)
  {
    e.SweepStep? && e.call.Remove? ==>
      var id, name := s.sweep.todo[0], s.sweep.names[0];
      && HasFile(s.dirs, id, name) && HasFile(before, id, name)
      && s.dirs[id][name] == Repeat('\0', |before[id][name]|)
  }

  predicate HasFile(dirs: map<Id, Files>, id: Id, name: string) {
    id in dirs && name in dirs[id]
  }

  /** The two trees agree on this case, as far as the first of them has it. */
  predicate AsBefore(dirs: map<Id, Files>, before: map<Id, Files>, id: Id) {
    id in dirs ==> id in before && forall n :: n in dirs[id] ==> n in before[id] && dirs[id][n] == before[id][n]
  }

  lemma {:induction false} ZeroesConcat(s: State, a: seq<Event>, b: seq<Event>, before: map<Id, Files>)
    requires IsRun(s, a) && IsRun(After(s, a), b) && ZeroesFirst(s, a, before) && ZeroesFirst(After(s, a), b, before)
    ensures IsRun(s, a + b) && After(s, a + b) == After(After(s, a), b) && ZeroesFirst(s, a + b, before)
    decreases |a|
  {
    RunConcat(s, a, b);
    if a == [] {
      assert a + b == b;
    } else {
      ZeroesConcat(Apply(s, a[0]), a[1..], b, before);
      assert (a + b)[0] == a[0] && (a + b)[1..] == a[1..] + b;
    }
  }

  lemma ZeroesCons(s: State, e: Event, rest: seq<Event>, before: map<Id, Files>)
    requires Enabled(s, e) && IsRun(Apply(s, e), rest)
    requires UnlinksZeros(s, e, before) && ZeroesFirst(Apply(s, e), rest, before)
    ensures IsRun(s, [e] + rest) && After(s, [e] + rest) == After(Apply(s, e), rest) && ZeroesFirst(s, [e] + rest, before)
  {
    Cons(s, e, rest);
    assert ([e] + rest)[0] == e && ([e] + rest)[1..] == rest;
  }

  /** At a listed name of a directory that is there. */
  predicate AtFile(s: State, todo: seq<Id>, names: seq<string>) {
    todo != [] && names != [] && HasFile(s.dirs, todo[0], names[0])
  }

  lemma StatGoes(s: State, todo: seq<Id>, names: seq<string>)
    requires AtFile(s, todo, names) && s.sweep == Entry(todo, names)
    ensures Apply(s, SweepStep(Stat(true))) == s.(sweep := Zero(todo, names, |s.dirs[todo[0]][names[0]]|))
  {
  }

  lemma OverwriteGoes(s: State, todo: seq<Id>, names: seq<string>, size: nat)
    requires AtFile(s, todo, names) && s.sweep == Zero(todo, names, size)
    ensures Apply(s, SweepStep(Overwrite(Wrote))) ==
      s.(dirs := s.dirs[todo[0] := s.dirs[todo[0]][names[0] := Repeat('\0', size)]], sweep := Unlink(todo, names))
  {
  }

  lemma RemoveGoes(s: State, todo: seq<Id>, names: seq<string>)
    requires AtFile(s, todo, names) && s.sweep == Unlink(todo, names)
    ensures Apply(s, SweepStep(Remove(true))) ==
      s.(dirs := s.dirs[todo[0] := s.dirs[todo[0]] - {names[0]}], sweep := Entry(todo, names[1..]))
  {
  }

  /** Stat, overwrite and unlink of the next name. */
  lemma OneFile(s: State, before: map<Id, Files>) returns (events: seq<Event>)
    requires s.sweep.Entry? && AtFile(s, s.sweep.todo, s.sweep.names) && AsBefore(s.dirs, before, s.sweep.todo[0])
    ensures IsRun(s, events) && SweeperAlone(events) && ZeroesFirst(s, events, before)
    ensures var id := s.sweep.todo[0];
      After(s, events) == s.(sweep := Entry(s.sweep.todo, s.sweep.names[1..]),
                             dirs := s.dirs[id := s.dirs[id] - {s.sweep.names[0]}])
  {
    var todo, names := s.sweep.todo, s.sweep.names;
    var id, name := todo[0], names[0];
    StatGoes(s, todo, names);
    var s1 := Apply(s, SweepStep(Stat(true)));
    OverwriteGoes(s1, todo, names, s1.sweep.size);
    var s2 := Apply(s1, SweepStep(Overwrite(Wrote)));
    RemoveGoes(s2, todo, names);
    var s3 := Apply(s2, SweepStep(Remove(true)));
    assert s2.dirs[id] - {name} == s.dirs[id] - {name};
    assert s3.dirs == s.dirs[id := s.dirs[id] - {name}];
    ZeroesCons(s2, SweepStep(Remove(true)), [], before);
    ZeroesCons(s1, SweepStep(Overwrite(Wrote)), [SweepStep(Remove(true))] + [], before);
    ZeroesCons(s, SweepStep(Stat(true)), [SweepStep(Overwrite(Wrote))] + ([SweepStep(Remove(true))] + []), before);
    events := [SweepStep(Stat(true))] + ([SweepStep(Overwrite(Wrote))] + ([SweepStep(Remove(true))] + []));
  }

  /** Without its first name a directory is still listed, and as before. */
  lemma FewerNames(s: State, s': State, before: map<Id, Files>)
    requires s.sweep.Entry? && AtFile(s, s.sweep.todo, s.sweep.names) && AsBefore(s.dirs, before, s.sweep.todo[0])
    requires IsListing(s.dirs[s.sweep.todo[0]], s.sweep.names)
    requires s'.dirs == s.dirs[s.sweep.todo[0] := s.dirs[s.sweep.todo[0]] - {s.sweep.names[0]}]
    ensures var id := s.sweep.todo[0];
      && id in s'.dirs && IsListing(s'.dirs[id], s.sweep.names[1..]) && AsBefore(s'.dirs, before, id)
      && s'.dirs - {id} == s.dirs - {id}
  {
  }

  lemma RemovesEmptyDir(s: State, before: map<Id, Files>) returns (events: seq<Event>)
    requires s.sweep.Entry? && s.sweep.todo != [] && s.sweep.names == []
    requires s.sweep.todo[0] in s.dirs && s.dirs[s.sweep.todo[0]] == map[]
    ensures IsRun(s, events) && SweeperAlone(events) && ZeroesFirst(s, events, before)
    ensures var s' := After(s, events);
      && s'.sweep == DeleteRow(s.sweep.todo) && s'.rows == s.rows && Standstill(s, s')
      && s'.dirs == s.dirs - {s.sweep.todo[0]}
  {
    ZeroesCons(s, SweepStep(Rmdir(true)), [], before);
    events := [SweepStep(Rmdir(true))] + [];
  }

  /** The rest of one directory: every name listed, then the directory. */
  lemma {:induction false} OneDirectory(s: State, before: map<Id, Files>) returns (events: seq<Event>)
    requires s.sweep.Entry? && s.sweep.todo != []
    requires s.sweep.todo[0] in s.dirs && IsListing(s.dirs[s.sweep.todo[0]], s.sweep.names)
    requires AsBefore(s.dirs, before, s.sweep.todo[0])
    ensures IsRun(s, events) && SweeperAlone(events) && ZeroesFirst(s, events, before)
    ensures var s' := After(s, events);
      && s'.sweep == DeleteRow(s.sweep.todo) && s'.rows == s.rows && Standstill(s, s')
      && s'.dirs == s.dirs - {s.sweep.todo[0]}
    decreases |s.sweep.names|
  {
    if s.sweep.names == [] {
      events := RemovesEmptyDir(s, before);
    } else {
      var first := OneFile(s, before);
      var s1 := After(s, first);
      FewerNames(s, s1, before);
      var rest := OneDirectory(s1, before);
      ZeroesConcat(s, first, rest, before);
      events := first + rest;
    }
  }

  /** The listing and the shredding of a case's directory, if it has one. */
  lemma ListAndShred(s: State, before: map<Id, Files>) returns (events: seq<Event>)
    requires s.sweep.Next? && s.sweep.todo != [] && AsBefore(s.dirs, before, s.sweep.todo[0])
    ensures IsRun(s, events) && SweeperAlone(events) && ZeroesFirst(s, events, before)
    ensures var s' := After(s, events);
      && s'.sweep == DeleteRow(s.sweep.todo) && s'.rows == s.rows && Standstill(s, s')
      && s'.dirs == s.dirs - {s.sweep.todo[0]}
  {
    var id := s.sweep.todo[0];
    var names: seq<string> := [];
    if id in s.dirs {
      names := ListingOf(s.dirs[id]);
    }
    var list := SweepStep(List(names, true));
    var shred: seq<Event> := [];
    if id in s.dirs {
      shred := OneDirectory(Apply(s, list), before);
    } else {
      assert s.dirs - {id} == s.dirs;
    }
    ZeroesCons(s, list, shred, before);
    events := [list] + shred;
  }

  /** One case: its directory if it has one, then its row. */
  lemma OneCase(s: State, before: map<Id, Files>) returns (events: seq<Event>)
    requires s.sweep.Next? && s.sweep.todo != [] && AsBefore(s.dirs, before, s.sweep.todo[0])
    ensures IsRun(s, events) && SweeperAlone(events) && ZeroesFirst(s, events, before)
    ensures var id, s' := s.sweep.todo[0], After(s, events);
      && s'.sweep == Next(s.sweep.todo[1..]) && Standstill(s, s')
      && s'.rows == s.rows - {id} && s'.dirs == s.dirs - {id}
  {
    var shred := ListAndShred(s, before);
    var delete := SweepStep(Delete(true));
    ZeroesCons(After(s, shred), delete, [], before);
    ZeroesConcat(s, shred, [delete] + [], before);
    events := shred + ([delete] + []);
  }

  function IdSet(order: seq<Id>): set<Id> {
    set id | id in order
  }

  lemma FirstAndRest(order: seq<Id>)
    requires order != []
    ensures IdSet(order) == {order[0]} + IdSet(order[1..])
  {
    assert order == [order[0]] + order[1..];
  }

  lemma {:induction false} AllCases(s: State, before: map<Id, Files>) returns (events: seq<Event>)
    requires s.sweep.Next? && forall id :: id in s.sweep.todo ==> AsBefore(s.dirs, before, id)
    ensures IsRun(s, events) && SweeperAlone(events) && ZeroesFirst(s, events, before)
    ensures var gone, s' := IdSet(s.sweep.todo), After(s, events);
      && s'.sweep == Next([]) && Standstill(s, s')
      && s'.rows == s.rows - gone && s'.dirs == s.dirs - gone
    decreases |s.sweep.todo|
  {
    if s.sweep.todo == [] {
      events := [];
      assert s.rows - {} == s.rows && s.dirs - {} == s.dirs;
    } else {
      var first := OneCase(s, before);
      var s1 := After(s, first);
      assert forall id :: id in s.sweep.todo[1..] ==> id in s.sweep.todo;
      var rest := AllCases(s1, before);
      ZeroesConcat(s, first, rest, before);
      FirstAndRest(s.sweep.todo);
      events := first + rest;
    }
  }

  /**
    From any state at all, a sweep whose calls all work and that nobody
    disturbs gets from its SELECT to its end: every expired case has lost row
    and directory, each of its files zeroed and then unlinked, and nothing else
    has changed.
   */
  lemma SweepGetsThere(s: State, order: seq<Id>) returns (events: seq<Event>)
    requires s.sweep.Idle? && IsExpiredList(s, order)
    ensures SweeperAlone(events) && events != [] && events[0] == SweepStep(Select(order))
    ensures IsRun(s, events) && ZeroesFirst(s, events, s.dirs)
    ensures var s' := After(s, events);
      && s'.sweep == Next([]) && s'.clock == s.clock && s'.threads == s.threads
      && (forall id :: id in order ==> id !in s'.rows && id !in s'.dirs)
      && (forall id :: id !in order ==> (id in s'.rows <==> id in s.rows) && (id in s'.dirs <==> id in s.dirs))
      && (forall id :: id in s'.rows ==> s'.rows[id] == s.rows[id])
      && (forall id :: id in s'.dirs ==> s'.dirs[id] == s.dirs[id])
  {
    var select := SweepStep(Select(order));
    var rest := AllCases(Apply(s, select), s.dirs);
    ZeroesCons(s, select, rest, s.dirs);
    events := [select] + rest;
  }

  /**
    The process may die at any moment, its goroutines with it, and leaves the
    disk as it is.  The sweep of the next one then gets there, whatever state
    of creates, replies and sweeps the first one left behind.
   */
  lemma SweepAfterDeath(s: State, order: seq<Id>) returns (events: seq<Event>)
    requires IsExpiredList(s, order)
    ensures events != [] && events[0] == Crash && SweeperAlone(events[1..]) && IsRun(s, events)
    ensures var s' := After(s, events);
      && s'.threads == map[] && s'.sweep == Next([])
      && s'.rows == s.rows - IdSet(order) && s'.dirs == s.dirs - IdSet(order)
  {
    var s1 := Apply(s, Crash);
    var select := SweepStep(Select(order));
    var rest := AllCases(Apply(s1, select), s1.dirs);
    Cons(s1, select, rest);
    Cons(s, Crash, [select] + rest);
    events := [Crash] + ([select] + rest);
    assert events[1..] == [select] + rest;
  }

  // ---- what stops a sweep ----

  /** The event writes a file into the directory of the case. */
  predicate WritesInto(s: State, e: Event, id: Id)
    requires Enabled(s, e)
  {
    match e
    case ReplyStep(t, call) => call.WriteReplyFile? && Leaves(call.w) && s.threads[t].id == id
    case CreateStep(t, call) => call.WriteBlob? && Leaves(call.w) && s.threads[t].id == id
    case _ => false
  }

  /** Death of the process, a call of the sweeper that fails, or a file written behind its listing. */
  predicate Disturbs(s: State, e: Event)
    requires Enabled(s, e)
  {
    || e.Crash?
    || (e.SweepStep? && !e.call.Overwrite? && !SweepWorks(e))
    || (s.sweep.Shredding() && WritesInto(s, e, s.sweep.todo[0]))
  }

  /** The directory being shredded holds nothing that the sweeper does not know of. */
  predicate AllListed(s: State) {
    s.sweep.Shredding() && s.sweep.todo[0] in s.dirs ==>
      forall n :: n in s.dirs[s.sweep.todo[0]] ==> n in s.sweep.names
  }

  lemma CreateLeavesSweep(s: State, t: nat, call: CreateCall)
    requires CreateEnabled(s, t, call) && AllListed(s) && !Disturbs(s, CreateStep(t, call))
    ensures ApplyCreate(s, t, call).sweep == s.sweep && AllListed(ApplyCreate(s, t, call))
  {
    match call
    case Insert(_, ok) =>
    case Mkdir(ok) =>
    case WriteBlob(w) =>
    case RemoveAllRmdir(ok) =>
    case RollbackDelete(ok) =>
    case _ =>
  }

  lemma ReplyLeavesSweep(s: State, t: nat, call: ReplyCall)
    requires ReplyEnabled(s, t, call) && AllListed(s) && !Disturbs(s, ReplyStep(t, call))
    ensures ApplyReply(s, t, call).sweep == s.sweep && AllListed(ApplyReply(s, t, call))
  {
    match call
    case WriteReplyFile(w) =>
    case _ =>
  }

  lemma NamesLeft(names: seq<string>, n: string)
    requires names != [] && n in names && n != names[0]
    ensures n in names[1..]
  {
    assert names == [names[0]] + names[1..];
  }

  lemma SweepKeepsGoing(s: State, call: SweepCall)
    requires SweepEnabled(s, call) && AllListed(s) && !Disturbs(s, SweepStep(call)) && !call.Done?
    ensures !ApplySweep(s, call).sweep.Idle? && AllListed(ApplySweep(s, call))
  {
    match call
    case Remove(ok) =>
      var s', names := ApplySweep(s, call), s.sweep.names;
      forall n | s'.sweep.todo[0] in s'.dirs && n in s'.dirs[s'.sweep.todo[0]] ensures n in s'.sweep.names {
        NamesLeft(names, n);
      }
    case Stat(ok) =>
    case Rmdir(ok) =>
    case _ =>
  }

  lemma StepKeepsGoing(s: State, e: Event)
    requires Enabled(s, e) && AllListed(s) && !s.sweep.Idle? && !Disturbs(s, e) && e != SweepStep(Done)
    ensures !Apply(s, e).sweep.Idle? && AllListed(Apply(s, e))
  {
    match e
    case CreateStep(t, call) => CreateLeavesSweep(s, t, call);
    case ReplyStep(t, call) => ReplyLeavesSweep(s, t, call);
    case SweepStep(call) => SweepKeepsGoing(s, call);
    case _ =>
  }

  /**
    A sweep that stops before its end was stopped by the death of the process,
    by a call of its own that failed, or by a file that was written into the
    directory it was shredding; other goroutines cannot stop it in any other
    way, whatever they do.
   */
  lemma {:induction false} SweepHasReasonToStop(s: State, events: seq<Event>) returns (k: nat)
    requires IsRun(s, events) && s.sweep.Next? && After(s, events).sweep.Idle?
    ensures k < |events| && IsRun(s, events[..k]) && Enabled(After(s, events[..k]), events[k])
    ensures events[k] == SweepStep(Done) || Disturbs(After(s, events[..k]), events[k])
  {
    k := ReasonToStop(s, events);
  }

  lemma {:induction false} ReasonToStop(s: State, events: seq<Event>) returns (k: nat)
    requires IsRun(s, events) && !s.sweep.Idle? && AllListed(s) && After(s, events).sweep.Idle?
    ensures k < |events| && IsRun(s, events[..k]) && Enabled(After(s, events[..k]), events[k])
    ensures events[k] == SweepStep(Done) || Disturbs(After(s, events[..k]), events[k])
    decreases |events|
  {
    var e := events[0];
    if e == SweepStep(Done) || Disturbs(s, e) {
      k := 0;
    } else {
      StepKeepsGoing(s, e);
      k := ReasonToStop(Apply(s, e), events[1..]);
      k := k + 1;
      assert events[..k][0] == e && events[..k][1..] == events[1..][..k - 1];
    }
  }

  // ---- a create, and a reply, that nobody disturbs ----

  function Tries(t: nat, ids: seq<Id>): seq<Event> {
    if ids == [] then [] else [CreateStep(t, Insert(ids[0], true))] + Tries(t, ids[1..])
  }

  /** A taken id leads to the next try, or to the end after five. */
  lemma TakenId(s: State, t: nat, x: Id)
    requires t in s.threads && s.threads[t].CInsert? && s.threads[t].tries < MAX_RETRIES && x in s.rows
    ensures Enabled(s, CreateStep(t, Insert(x, true)))
    ensures var th := s.threads[t];
      Apply(s, CreateStep(t, Insert(x, true))) ==
        if th.tries + 1 == MAX_RETRIES then s.(threads := s.threads - {t})
        else s.(threads := s.threads[t := th.(tries := th.tries + 1)])
  {
  }

  /** Ids that are taken are passed over, five of them at most. */
  lemma {:induction false} TakenIds(s: State, t: nat, taken: seq<Id>)
    requires t in s.threads && s.threads[t].CInsert? && s.threads[t].tries + |taken| <= MAX_RETRIES
    requires s.threads[t].tries < MAX_RETRIES && forall x :: x in taken ==> x in s.rows
    ensures IsRun(s, Tries(t, taken))
    ensures var th := s.threads[t];
      After(s, Tries(t, taken)) ==
        if th.tries + |taken| == MAX_RETRIES then s.(threads := s.threads - {t})
        else s.(threads := s.threads[t := th.(tries := th.tries + |taken|)])
    decreases |taken|
  {
    var th := s.threads[t];
    if taken == [] {
      assert s.threads[t := th] == s.threads;
    } else {
      var e := CreateStep(t, Insert(taken[0], true));
      assert taken[0] in taken;
      TakenId(s, t, taken[0]);
      var s1 := Apply(s, e);
      if th.tries + 1 < MAX_RETRIES {
        assert forall x :: x in taken[1..] ==> x in taken;
        TakenIds(s1, t, taken[1..]);
        assert s1.threads - {t} == s.threads - {t};
      } else {
        assert taken[1..] == [];
      }
      Cons(s, e, Tries(t, taken[1..]));
    }
  }

  lemma Started(s: State, t: nat, row: Row, blob: Bytes)
    requires t !in s.threads && !row.hasReply && !row.readFlag
    ensures Apply(s, StartCreate(t, row, blob)) == s.(threads := s.threads[t := CInsert(row, blob, 0)])
  {
  }

  /** Five ids drawn, all taken: the create gives up and leaves everything as it was. */
  lemma CreateGivesUp(s: State, t: nat, row: Row, blob: Bytes, taken: seq<Id>)
    requires t !in s.threads && !row.hasReply && !row.readFlag
    requires |taken| == 5 && forall x :: x in taken ==> x in s.rows
    ensures var events := [StartCreate(t, row, blob)] + Tries(t, taken); IsRun(s, events) && After(s, events) == s
  {
    var start := StartCreate(t, row, blob);
    Started(s, t, row, blob);
    var s1 := Apply(s, start);
    TakenIds(s1, t, taken);
    Cons(s, start, Tries(t, taken));
    assert s1.threads - {t} == s.threads;
  }

  /** After the INSERT of a free id: one goroutine, a row, and no directory yet. */
  function Inserted(s: State, t: nat, row: Row, blob: Bytes, id: Id): State {
    s.(threads := s.threads[t := CMkdir(id, blob)], rows := s.rows[id := row], expiry := s.expiry[id := row.expiresAt])
  }

  lemma Inserts(s: State, t: nat, row: Row, blob: Bytes, taken: seq<Id>, id: Id) returns (events: seq<Event>)
    requires t !in s.threads && !row.hasReply && !row.readFlag
    requires |taken| < MAX_RETRIES && (forall x :: x in taken ==> x in s.rows) && id !in s.rows && id !in s.expiry
    ensures events == [StartCreate(t, row, blob)] + Tries(t, taken) + [CreateStep(t, Insert(id, true))]
    ensures IsRun(s, events) && After(s, events) == Inserted(s, t, row, blob, id)
  {
    var start := StartCreate(t, row, blob);
    Started(s, t, row, blob);
    var s1 := Apply(s, start);
    TakenIds(s1, t, taken);
    Cons(s, start, Tries(t, taken));
    var front := [start] + Tries(t, taken);
    var insert := CreateStep(t, Insert(id, true));
    RunSnoc(s, front, insert);
    events := front + [insert];
    assert s1.threads[t := CMkdir(id, blob)] == s.threads[t := CMkdir(id, blob)];
  }

  /**
    A create that nobody disturbs, with up to four taken ids drawn before a
    free one: row, directory and blob are there under the free id, and nothing
    else has changed.
   */
  lemma CreateGetsThere(s: State, t: nat, row: Row, blob: Bytes, taken: seq<Id>, id: Id) returns (events: seq<Event>)
    requires Inv(s) && t !in s.threads && !row.hasReply && !row.readFlag
    requires |taken| < 5 && (forall x :: x in taken ==> x in s.rows) && id !in s.expiry
    ensures events == [StartCreate(t, row, blob)] + Tries(t, taken) +
      [CreateStep(t, Insert(id, true)), CreateStep(t, Mkdir(true)), CreateStep(t, WriteBlob(Wrote))]
    ensures IsRun(s, events)
    ensures After(s, events) == s.(rows := s.rows[id := row], dirs := s.dirs[id := map[BLOB_NAME := blob]],
                                   expiry := s.expiry[id := row.expiresAt], returned := s.returned[id := blob])
  {
    var mkdir, write := CreateStep(t, Mkdir(true)), CreateStep(t, WriteBlob(Wrote));
    var front := Inserts(s, t, row, blob, taken, id);
    MkdirGoes(s, t, row, blob, id);
    RunSnoc(s, front, mkdir);
    WriteGoes(s, t, row, blob, id);
    RunSnoc(s, front + [mkdir], write);
    events := front + [mkdir] + [write];
  }

  function WithDir(s: State, t: nat, row: Row, blob: Bytes, id: Id): State {
    Inserted(s, t, row, blob, id).(threads := s.threads[t := CWrite(id, blob)], dirs := s.dirs[id := map[]])
  }

  lemma MkdirGoes(s: State, t: nat, row: Row, blob: Bytes, id: Id)
    requires id !in s.dirs
    ensures Enabled(Inserted(s, t, row, blob, id), CreateStep(t, Mkdir(true)))
    ensures Apply(Inserted(s, t, row, blob, id), CreateStep(t, Mkdir(true))) == WithDir(s, t, row, blob, id)
  {
    assert Inserted(s, t, row, blob, id).threads[t := CWrite(id, blob)] == s.threads[t := CWrite(id, blob)];
  }

  lemma WriteGoes(s: State, t: nat, row: Row, blob: Bytes, id: Id)
    requires t !in s.threads
    ensures Enabled(WithDir(s, t, row, blob, id), CreateStep(t, WriteBlob(Wrote)))
    ensures Apply(WithDir(s, t, row, blob, id), CreateStep(t, WriteBlob(Wrote))) ==
      s.(rows := s.rows[id := row], dirs := s.dirs[id := map[BLOB_NAME := blob]],
         expiry := s.expiry[id := row.expiresAt], returned := s.returned[id := blob])
  {
    var w := WithDir(s, t, row, blob, id);
    assert w.threads - {t} == s.threads;
    assert w.dirs[id := w.dirs[id][BLOB_NAME := blob]] == s.dirs[id := map[BLOB_NAME := blob]];
  }

  /** Rows and directories, and who is under way. */
  predicate SameStore(s: State, s': State) {
    s'.rows == s.rows && s'.dirs == s.dirs && s'.threads == s.threads && s'.clock == s.clock && s'.sweep == s.sweep
  }

  lemma InsertLeads(s: State, t: nat, row: Row, blob: Bytes, id: Id)
    requires t !in s.threads && !row.hasReply && !row.readFlag && id !in s.rows && id !in s.expiry
    ensures Leads(s, StartCreate(t, row, blob), s.(threads := s.threads[t := CInsert(row, blob, 0)]))
    ensures Leads(s.(threads := s.threads[t := CInsert(row, blob, 0)]), CreateStep(t, Insert(id, true)),
                  Inserted(s, t, row, blob, id))
  {
  }

  /** Back where the create began, but for what is recorded of it. */
  function Undone(s: State, id: Id, row: Row, dirs: map<Id, Files>, th: Thread, t: nat): State {
    s.(rows := s.rows[id := row], expiry := s.expiry[id := row.expiresAt], dirs := dirs, threads := s.threads[t := th])
  }

  lemma DeleteLeads(s: State, t: nat, row: Row, id: Id) returns (s': State)
    requires t !in s.threads && id !in s.rows && id !in s.dirs
    ensures Leads(Undone(s, id, row, s.dirs, CRollback(id), t), CreateStep(t, RollbackDelete(true)), s')
    ensures SameStore(s, s')
  {
    var w := Undone(s, id, row, s.dirs, CRollback(id), t);
    s' := Apply(w, CreateStep(t, RollbackDelete(true)));
    assert w.threads - {t} == s.threads && w.rows - {id} == s.rows;
  }

  /** A directory that cannot be made: the rollback takes the row back. */
  lemma FailedMkdirLeavesNothing(s: State, t: nat, row: Row, blob: Bytes, id: Id)
    requires Inv(s) && t !in s.threads && !row.hasReply && !row.readFlag && id !in s.expiry
    ensures var events := [StartCreate(t, row, blob), CreateStep(t, Insert(id, true)), CreateStep(t, Mkdir(false)),
                           CreateStep(t, RollbackDelete(true))];
      IsRun(s, events) && SameStore(s, After(s, events))
  {
    var s1, s2 := s.(threads := s.threads[t := CInsert(row, blob, 0)]), Inserted(s, t, row, blob, id);
    InsertLeads(s, t, row, blob, id);
    var s3 := Undone(s, id, row, s.dirs, CRollback(id), t);
    assert s2.threads[t := CRollback(id)] == s3.threads;
    var s4 := DeleteLeads(s, t, row, id);
    Follow([s, s1, s2, s3, s4],
           [StartCreate(t, row, blob), CreateStep(t, Insert(id, true)), CreateStep(t, Mkdir(false)),
            CreateStep(t, RollbackDelete(true))]);
  }

  /** What a write that failed left in a new directory. */
  function Torn(partial: Option<Bytes>): Files {
    if partial.Some? then map[BLOB_NAME := partial.value] else map[]
  }

  lemma TornLeads(s: State, t: nat, row: Row, blob: Bytes, id: Id, partial: Option<Bytes>)
    requires t !in s.threads && id !in s.rows && id !in s.dirs
    ensures Leads(WithDir(s, t, row, blob, id), CreateStep(t, WriteBlob(Failed(partial))),
                  Undone(s, id, row, s.dirs[id := Torn(partial)], CRemoveAll(id), t).(aborted := s.aborted + {id}))
  {
    var w := WithDir(s, t, row, blob, id);
    assert w.threads[t := CRemoveAll(id)] == s.threads[t := CRemoveAll(id)];
    assert partial.Some? ==> w.dirs[id := w.dirs[id][BLOB_NAME := partial.value]] == s.dirs[id := Torn(partial)];
    assert partial.None? ==> w.dirs == s.dirs[id := Torn(partial)];
  }

  lemma UnlinkLeads(s: State, t: nat, row: Row, id: Id, partial: Option<Bytes>)
    requires t !in s.threads
    ensures Leads(Undone(s, id, row, s.dirs[id := Torn(partial)], CRemoveAll(id), t),
                  CreateStep(t, RemoveAllUnlink(BLOB_NAME)), Undone(s, id, row, s.dirs[id := map[]], CRemoveAll(id), t))
  {
    assert Torn(partial) - {BLOB_NAME} == map[];
    assert s.dirs[id := Torn(partial)][id := map[]] == s.dirs[id := map[]];
    assert BLOB_NAME[0] != REPLY_NAME[0];
  }

  lemma RmdirLeads(s: State, t: nat, row: Row, id: Id)
    requires t !in s.threads && id !in s.dirs
    ensures Leads(Undone(s, id, row, s.dirs[id := map[]], CRemoveAll(id), t), CreateStep(t, RemoveAllRmdir(true)),
                  Undone(s, id, row, s.dirs, CRollback(id), t).(leaked := s.leaked - {id}, outrun := s.outrun - {id}))
  {
    var w := Undone(s, id, row, s.dirs[id := map[]], CRemoveAll(id), t);
    assert w.dirs - {id} == s.dirs && w.threads[t := CRollback(id)] == s.threads[t := CRollback(id)];
  }

  /** From the write that fails on. */
  function RollBack(t: nat, partial: Option<Bytes>): seq<Event> {
    [CreateStep(t, WriteBlob(Failed(partial))), CreateStep(t, RemoveAllUnlink(BLOB_NAME)),
     CreateStep(t, RemoveAllRmdir(true)), CreateStep(t, RollbackDelete(true))]
  }

  lemma RollsBack(s: State, t: nat, row: Row, blob: Bytes, id: Id, partial: Option<Bytes>)
    requires t !in s.threads && id !in s.rows && id !in s.dirs
    ensures IsRun(WithDir(s, t, row, blob, id), RollBack(t, partial))
    ensures SameStore(s, After(WithDir(s, t, row, blob, id), RollBack(t, partial)))
  {
    var a := s.(aborted := s.aborted + {id});
    var b := a.(leaked := a.leaked - {id}, outrun := a.outrun - {id});
    TornLeads(s, t, row, blob, id, partial);
    UnlinkLeads(a, t, row, id, partial);
    RmdirLeads(a, t, row, id);
    var s4 := DeleteLeads(b, t, row, id);
    Follow([WithDir(s, t, row, blob, id), Undone(a, id, row, s.dirs[id := Torn(partial)], CRemoveAll(id), t),
            Undone(a, id, row, s.dirs[id := map[]], CRemoveAll(id), t), Undone(b, id, row, s.dirs, CRollback(id), t), s4],
           RollBack(t, partial));
  }

  /** A blob that cannot be written, whole or at all: the rollback takes file, directory and row back. */
  lemma FailedWriteLeavesNothing(s: State, t: nat, row: Row, blob: Bytes, id: Id, partial: Option<Bytes>)
    requires Inv(s) && t !in s.threads && !row.hasReply && !row.readFlag && id !in s.expiry
    ensures var events := [StartCreate(t, row, blob), CreateStep(t, Insert(id, true)), CreateStep(t, Mkdir(true))] +
                          RollBack(t, partial);
      IsRun(s, events) && SameStore(s, After(s, events))
  {
    var front := [StartCreate(t, row, blob), CreateStep(t, Insert(id, true)), CreateStep(t, Mkdir(true))];
    InsertLeads(s, t, row, blob, id);
    MkdirGoes(s, t, row, blob, id);
    Follow([s, s.(threads := s.threads[t := CInsert(row, blob, 0)]), Inserted(s, t, row, blob, id),
            WithDir(s, t, row, blob, id)], front);
    RollsBack(s, t, row, blob, id, partial);
    RunConcat(s, front, RollBack(t, partial));
  }

  /** The calls of a reply that works. */
  function ReplyCalls(t: nat, id: Id, blob: Bytes): seq<Event> {
    [StartReply(t, id, blob), ReplyStep(t, Check(true)), ReplyStep(t, WriteReplyFile(Wrote)), ReplyStep(t, SetFlag(true))]
  }

  lemma ReplyChecks(s: State, t: nat, id: Id, blob: Bytes)
    requires t !in s.threads && id in s.rows
    ensures Leads(s, StartReply(t, id, blob), s.(threads := s.threads[t := RCheck(id, blob)]))
    ensures Leads(s.(threads := s.threads[t := RCheck(id, blob)]), ReplyStep(t, Check(true)),
                  s.(threads := s.threads[t := RWrite(id, blob)]))
  {
    assert s.threads[t := RCheck(id, blob)][t := RWrite(id, blob)] == s.threads[t := RWrite(id, blob)];
  }

  /** Saved, but for the flag. */
  function Replied(s: State, id: Id, blob: Bytes): State
    requires id in s.dirs
  {
    s.(dirs := s.dirs[id := s.dirs[id][REPLY_NAME := blob]], robbed := s.robbed - {id})
  }

  lemma ReplyWrites(s: State, t: nat, id: Id, blob: Bytes)
    requires t !in s.threads && id in s.dirs
    ensures Leads(s.(threads := s.threads[t := RWrite(id, blob)]), ReplyStep(t, WriteReplyFile(Wrote)),
                  Replied(s, id, blob).(threads := s.threads[t := RFlag(id)]))
  {
    assert s.threads[t := RWrite(id, blob)][t := RFlag(id)] == s.threads[t := RFlag(id)];
  }

  lemma ReplyFlags(s: State, t: nat, id: Id)
    requires t !in s.threads && id in s.rows
    ensures Leads(s.(threads := s.threads[t := RFlag(id)]), ReplyStep(t, SetFlag(true)),
                  s.(rows := s.rows[id := s.rows[id].(hasReply := true)]))
  {
    assert s.threads[t := RFlag(id)] - {t} == s.threads;
  }

  /** A reply that nobody disturbs is saved and flagged, and changes nothing else. */
  lemma ReplyGetsThere(s: State, t: nat, id: Id, blob: Bytes)
    requires t !in s.threads && id in s.rows && id in s.dirs
    ensures IsRun(s, ReplyCalls(t, id, blob))
    ensures After(s, ReplyCalls(t, id, blob)) ==
      s.(rows := s.rows[id := s.rows[id].(hasReply := true)], dirs := s.dirs[id := s.dirs[id][REPLY_NAME := blob]],
         robbed := s.robbed - {id})
  {
    ReplyChecks(s, t, id, blob);
    ReplyWrites(s, t, id, blob);
    var r := Replied(s, id, blob);
    ReplyFlags(r, t, id);
    Follow([s, s.(threads := s.threads[t := RCheck(id, blob)]), s.(threads := s.threads[t := RWrite(id, blob)]),
            r.(threads := s.threads[t := RFlag(id)]), r.(rows := s.rows[id := s.rows[id].(hasReply := true)])],
           ReplyCalls(t, id, blob));
  }

  /** A reply to a case that is not there changes nothing. */
  lemma ReplyToNobody(s: State, t: nat, id: Id, blob: Bytes)
    requires t !in s.threads && id !in s.rows
    ensures var events := [StartReply(t, id, blob), ReplyStep(t, Check(true))]; IsRun(s, events) && After(s, events) == s
  {
    var s1 := s.(threads := s.threads[t := RCheck(id, blob)]);
    assert s1.threads - {t} == s.threads;
    Follow([s, s1, s], [StartReply(t, id, blob), ReplyStep(t, Check(true))]);
  }

  /** An INSERT that fails for another reason than a taken id ends the create at once. */
  lemma FailedInsertLeavesAll(s: State, t: nat, row: Row, blob: Bytes, id: Id)
    requires t !in s.threads && !row.hasReply && !row.readFlag && id !in s.rows
    ensures var events := [StartCreate(t, row, blob), CreateStep(t, Insert(id, false))];
      IsRun(s, events) && After(s, events) == s
  {
    var s1 := s.(threads := s.threads[t := CInsert(row, blob, 0)]);
    assert s1.threads - {t} == s.threads;
    Follow([s, s1, s], [StartCreate(t, row, blob), CreateStep(t, Insert(id, false))]);
  }

  /** A reply whose file cannot be written whole flags nothing; the file is as the write left it. */
  lemma FailedReplySetsNoFlag(s: State, t: nat, id: Id, blob: Bytes, partial: Option<Bytes>)
    requires t !in s.threads && id in s.rows && id in s.dirs
    ensures var events := [StartReply(t, id, blob), ReplyStep(t, Check(true)),
                           ReplyStep(t, WriteReplyFile(Failed(partial)))];
      && IsRun(s, events)
      && var s' := After(s, events);
      && s'.rows == s.rows && s'.threads == s.threads
      && s'.dirs == if partial.Some? then s.dirs[id := s.dirs[id][REPLY_NAME := partial.value]] else s.dirs
  {
    var events := [StartReply(t, id, blob), ReplyStep(t, Check(true)), ReplyStep(t, WriteReplyFile(Failed(partial)))];
    ReplyChecks(s, t, id, blob);
    var s2 := s.(threads := s.threads[t := RWrite(id, blob)]);
    assert s2.threads - {t} == s.threads;
    Follow([s, s.(threads := s.threads[t := RCheck(id, blob)]), s2, Apply(s2, events[2])], events);
  }
}
