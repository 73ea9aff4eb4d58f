/**
  The case store run by one caller at a time: rows of SQLite and directories
  under blob/, with every SQL statement and every file-system call free to
  fail.
 */
module CaseStore {
  import opened Common
  import opened FileSystem
  import opened Shred
  import Crypto

  const BLOB_DIR: Path := ["blob"]

  function CaseDir(id: Id): Path { ["blob", id] }
  function BlobPath(id: Id): Path { ["blob", id, BLOB_NAME] }
  function ReplyPath(id: Id): Path { ["blob", id, REPLY_NAME] }

  /** The case a path belongs to. */
  predicate BelongsTo(p: Path, id: Id) {
    |p| >= 2 && p[0] == "blob" && p[1] == id
  }

  lemma UnderIsBelonging(id: Id, p: Path)
    ensures Under(CaseDir(id), p) <==> BelongsTo(p, id)
  {
  }

  predicate Expired(row: Row, now: int) {
    row.expiresAt < now
  }

  ghost function ExpiredIds(rows: map<Id, Row>, now: int): set<Id> {
    set id | id in rows && Expired(rows[id], now)
  }

  /** The row CreateCase inserts; times are in seconds, `now` is when it was called. */
  function NewRow(lookup: Bytes, hash: Bytes, salt: Bytes, now: int, ttl: int): Row {
    var created := now - now % 3600;
    Row(lookup, hash, salt, created, created + ttl, false, false)
  }

  /** A new row carries these digests, is stamped with the hour and not the second, and has no mark. */
  ghost predicate IsNewRow(row: Row, lookup: Bytes, hash: Bytes, salt: Bytes, now: int, ttl: int) {
    && row.codeLookup == lookup && row.codeHash == hash && row.codeSalt == salt
    && IsHourOf(row.createdAt, now) && row.expiresAt == row.createdAt + ttl
    && !row.readFlag && !row.hasReply
  }

  lemma NewRowIs(row: Row, lookup: Bytes, hash: Bytes, salt: Bytes, now: int, ttl: int)
    ensures IsNewRow(row, lookup, hash, salt, now, ttl) <==> row == NewRow(lookup, hash, salt, now, ttl)
  {
    assert now - now % 3600 == 3600 * (now / 3600);
  }

  /** The linear scan that the index replaces: some row verifies the code. */
  ghost predicate ScanFinds(s: Crypto.Suite, rows: map<Id, Row>, code: string, id: Id) {
    id in rows && Crypto.VerifyCode(s, code, rows[id].codeSalt, rows[id].codeHash)
  }

  /** The digests of each row come from its own code, and no two rows share a code. */
  ghost predicate RowsFrom(s: Crypto.Suite, key: Bytes, rows: map<Id, Row>, codes: map<Id, string>) {
    && codes.Keys == rows.Keys
    && (forall id :: id in rows ==> rows[id].codeLookup == s.mac(key, codes[id]))
    && (forall id :: id in rows ==> rows[id].codeHash == s.hash(codes[id], rows[id].codeSalt))
    && (forall id, id' :: id in rows && id' in rows && codes[id] == codes[id'] ==> id == id')
  }

  lemma ScanIsLookup(s: Crypto.Suite, key: Bytes, rows: map<Id, Row>, codes: map<Id, string>, code: string, id: Id)
    requires Crypto.Lawful(s) && RowsFrom(s, key, rows, codes)
    ensures ScanFinds(s, rows, code, id) <==> id in rows && codes[id] == code
    ensures ScanFinds(s, rows, code, id) <==> id in rows && rows[id].codeLookup == s.mac(key, code)
  {
  }

  ghost predicate SameTree(files: map<Path, Bytes>, dirs: set<Path>, files': map<Path, Bytes>, dirs': set<Path>) {
    files' == files && dirs' == dirs
  }

  /** Every path outside the directories of `ids` is the same in both trees. */
  ghost predicate OthersSame(files: map<Path, Bytes>, dirs: set<Path>,
                             files': map<Path, Bytes>, dirs': set<Path>, ids: set<Id>) {
    forall p :: |p| < 2 || p[1] !in ids ==>
      (p in files' <==> p in files) && (p in files ==> files'[p] == files[p]) && (p in dirs' <==> p in dirs)
  }

  lemma StillOthersSame(f0: map<Path, Bytes>, d0: set<Path>, f1: map<Path, Bytes>, d1: set<Path>,
                        f2: map<Path, Bytes>, d2: set<Path>, ids: set<Id>, id: Id)
    requires OthersSame(f0, d0, f1, d1, ids) && id in ids
    requires SameOutside(f1, d1, f2, d2, CaseDir(id))
    ensures OthersSame(f0, d0, f2, d2, ids)
  {
    forall p | |p| < 2 || p[1] !in ids ensures !Under(CaseDir(id), p) {
      UnderIsBelonging(id, p);
    }
  }

  lemma OtherCaseSame(f0: map<Path, Bytes>, d0: set<Path>, f1: map<Path, Bytes>, d1: set<Path>, id: Id, other: Id)
    requires id != other && SameOutside(f0, d0, f1, d1, CaseDir(id))
    ensures SameUnder(f0, d0, f1, d1, CaseDir(other))
  {
    forall p | Under(CaseDir(other), p) ensures !Under(CaseDir(id), p) {
      UnderIsBelonging(id, p);
      UnderIsBelonging(other, p);
    }
  }

  lemma OtherCasesSame(f0: map<Path, Bytes>, d0: set<Path>, f1: map<Path, Bytes>, d1: set<Path>, id: Id, rows: map<Id, Row>)
    requires id !in rows && SameOutside(f0, d0, f1, d1, CaseDir(id))
    ensures forall other :: other in rows ==> SameUnder(f0, d0, f1, d1, CaseDir(other))
  {
    forall other | other in rows ensures SameUnder(f0, d0, f1, d1, CaseDir(other)) {
      OtherCaseSame(f0, d0, f1, d1, id, other);
    }
  }

  /** What is gone stays gone while trees only shrink. */
  lemma GoneStays(f1: map<Path, Bytes>, d1: set<Path>, f2: map<Path, Bytes>, d2: set<Path>, d: Path)
    requires Gone(f1, d1, d) && f2.Keys <= f1.Keys && d2 <= d1
    ensures Gone(f2, d2, d)
  {
  }

  /**
    Between two states, no row changed; the rows that went had expired and
    took their directories with them; no path outside expired cases changed.
   */
  ghost predicate OnlyExpiredGone(rows: map<Id, Row>, files: map<Path, Bytes>, dirs: set<Path>,
                                  rows': map<Id, Row>, files': map<Path, Bytes>, dirs': set<Path>, now: int) {
    && (forall id :: id in rows' ==> id in rows && rows'[id] == rows[id])
    && (forall id :: id in rows && !Expired(rows[id], now) ==> id in rows')
    && (forall id :: id in rows && id !in rows' ==> Gone(files', dirs', CaseDir(id)))
    && OthersSame(files, dirs, files', dirs', ExpiredIds(rows, now))
    && dirs' <= dirs && files'.Keys <= files.Keys
  }

  lemma SweepStep(rows0: map<Id, Row>, f0: map<Path, Bytes>, d0: set<Path>,
                  rows1: map<Id, Row>, f1: map<Path, Bytes>, d1: set<Path>,
                  rows2: map<Id, Row>, f2: map<Path, Bytes>, d2: set<Path>, now: int, id: Id)
    requires OnlyExpiredGone(rows0, f0, d0, rows1, f1, d1, now)
    requires id in rows0 && Expired(rows0[id], now)
    requires SameOutside(f1, d1, f2, d2, CaseDir(id)) && d2 <= d1 && f2.Keys <= f1.Keys
    requires rows2 == rows1 || (rows2 == rows1 - {id} && Gone(f2, d2, CaseDir(id)))
    ensures OnlyExpiredGone(rows0, f0, d0, rows2, f2, d2, now)
  {
    StillOthersSame(f0, d0, f1, d1, f2, d2, ExpiredIds(rows0, now), id);
    forall x | x in rows0 && x !in rows2 ensures Gone(f2, d2, CaseDir(x)) {
      if x !in rows1 {
        GoneStays(f1, d1, f2, d2, CaseDir(x));
      }
    }
  }

  /** Of the selected ids exactly the first `n` have lost their rows. */
  ghost predicate SweptUpTo(rows: map<Id, Row>, ids: seq<Id>, n: nat) {
    && (forall k :: 0 <= k < |ids| && k < n ==> ids[k] !in rows)
    && (forall k :: n <= k < |ids| ==> ids[k] in rows)
  }

  lemma OneMoreSwept(rows: map<Id, Row>, ids: seq<Id>, n: nat)
    requires SweptUpTo(rows, ids, n) && n < |ids|
    requires forall i, j :: 0 <= i < j < |ids| ==> ids[i] != ids[j]
    ensures SweptUpTo(rows - {ids[n]}, ids, n + 1)
  {
  }

  /** Only directories under blob/, and only files in each of them. */
  ghost predicate Layout(files: map<Path, Bytes>, dirs: set<Path>) {
    && (forall p :: p in dirs ==> |p| <= 2 && (p != [] ==> p[0] == "blob"))
    && (forall p :: p in files ==> |p| == 3 && p[0] == "blob")
  }

  lemma BlobDirPrefixes()
    ensures Prefixes(BLOB_DIR) == {[], BLOB_DIR}
  {
    assert BLOB_DIR[..0] == [] && BLOB_DIR[..1] == BLOB_DIR;
  }

  /**
    OpenStore on whatever an earlier process left, rows and directories alike,
    or on nothing: blob/ is there afterwards and nothing else has changed.  It
    fails only if the directory or the schema cannot be made.
   */
  method OpenStore(suite: Crypto.Suite, disk: Disk, sqlWorks: nat -> bool, rows: map<Id, Row>) returns (r: Option<Store>)
    requires disk.Valid() && Layout(disk.files, disk.dirs)
    modifies disk`calls, disk`dirs
    ensures r.None? <==> !disk.fate(old(disk.calls)).Works? || !sqlWorks(0)
    ensures disk.dirs == if disk.fate(old(disk.calls)).Works? then old(disk.dirs) + {[], BLOB_DIR} else old(disk.dirs)
    ensures r.Some? ==>
      && fresh(r.value) && r.value.Valid() && r.value.rows == rows
      && r.value.suite == suite && r.value.disk == disk && r.value.sqlWorks == sqlWorks
  {
    BlobDirPrefixes();
    var err := disk.MkdirAll(BLOB_DIR);
    if !err.Ok? {
      return None;
    }
    var store := new Store(suite, disk, sqlWorks, rows);
    var ok := store.Exec();
    r := if ok then Some(store) else None;
  }

  /** Nothing is left of the first `n` entries of blob/. */
  ghost predicate AllGone(files: map<Path, Bytes>, dirs: set<Path>, entries: seq<DirEntry>, n: nat)
    requires n <= |entries|
  {
    forall k :: 0 <= k < n ==> Gone(files, dirs, CaseDir(entries[k].name))
  }

  class Store {
    const disk: Disk
    const suite: Crypto.Suite
    const sqlWorks: nat -> bool
    var rows: map<Id, Row>
    var statements: nat

    ghost predicate Valid()
      reads this, disk
    {
      disk.Valid() && BLOB_DIR in disk.dirs && Layout(disk.files, disk.dirs)
    }

    ghost predicate FaultFree() {
      disk.FaultFree() && forall n :: sqlWorks(n)
    }

    ghost predicate LastStatementFailed()
      reads this
    {
      statements > 0 && !sqlWorks(statements - 1)
    }

    ghost predicate LastCallFailed()
      reads this, disk
    {
      disk.calls > 0 && !disk.fate(disk.calls - 1).Works?
    }

    /** A store on an existing blob/ and an existing table. */
    constructor (suite: Crypto.Suite, disk: Disk, sqlWorks: nat -> bool, rows: map<Id, Row>)
      requires disk.Valid() && BLOB_DIR in disk.dirs && Layout(disk.files, disk.dirs)
      ensures Valid() && this.rows == rows && statements == 0
      ensures this.suite == suite && this.disk == disk && this.sqlWorks == sqlWorks
    {
      this.suite, this.disk, this.sqlWorks := suite, disk, sqlWorks;
      this.rows, statements := rows, 0;
    }

    method Exec() returns (ok: bool)
      modifies this`statements
      ensures ok == sqlWorks(old(statements)) && statements == old(statements) + 1
      ensures FaultFree() ==> ok
    {
      ok := sqlWorks(statements);
      statements := statements + 1;
    }

    /** `DELETE FROM cases WHERE id = ?` */
    method DeleteRow(id: Id) returns (ok: bool)
      modifies this`statements, this`rows
      ensures rows == if ok then old(rows) - {id} else old(rows)
      ensures statements == old(statements) + 1 && ok == sqlWorks(old(statements))
      ensures FaultFree() ==> ok
    {
      ok := Exec();
      if ok {
        rows := rows - {id};
      }
    }

    /**
      Five random ids are tried; a taken one is a UNIQUE error.  Success means
      that row, directory and blob are there, under the first free id.  Failure
      leaves a row only if the DELETE that ends the rollback failed, and a
      directory or a file only if RemoveAll did.  Without faults the only way to
      fail is to draw five taken ids.  Whatever fails, no other case is touched.
     */
    method CreateCase(lookup: Bytes, hash: Bytes, salt: Bytes, now: int, ttl: int, blob: Bytes, draw: nat -> Id)
      returns (r: Option<Id>)
      requires Valid()
      modifies this`rows, this`statements, disk
      ensures Valid()
      ensures r.Some? ==>
        && r.value !in old(rows)
        && rows == old(rows)[r.value := NewRow(lookup, hash, salt, now, ttl)]
        && disk.files == old(disk.files)[BlobPath(r.value) := blob]
        && disk.dirs == old(disk.dirs) + {CaseDir(r.value)}
        && exists k :: 0 <= k < 5 && r.value == draw(k) && forall j :: 0 <= j < k ==> draw(j) in old(rows)
      ensures r.Some? ==> IsNewRow(rows[r.value], lookup, hash, salt, now, ttl)
      ensures r.None? ==> rows == old(rows) || LastStatementFailed()
      ensures r.None? ==>
        || SameTree(old(disk.files), old(disk.dirs), disk.files, disk.dirs)
        || (disk.calls == old(disk.calls) + 3 && (LastCallFailed() || exists k ::
              0 <= k < 5 && draw(k) !in old(rows) && Gone(disk.files, disk.dirs, CaseDir(draw(k)))))
      ensures FaultFree() && r.None? ==>
        && rows == old(rows) && disk.files == old(disk.files) && disk.dirs == old(disk.dirs)
        && forall k :: 0 <= k < 5 ==> draw(k) in old(rows)
      ensures forall id :: id in old(rows) ==> id in rows && rows[id] == old(rows)[id]
      ensures forall id :: id in old(rows) ==>
        SameUnder(old(disk.files), old(disk.dirs), disk.files, disk.dirs, CaseDir(id))
    {
      for i := 0 to MAX_RETRIES
        invariant Valid() && rows == old(rows) && disk.files == old(disk.files) && disk.dirs == old(disk.dirs)
        invariant disk.calls == old(disk.calls)
        invariant forall k :: 0 <= k < i ==> draw(k) in old(rows)
      {
        var id := draw(i);
        var ok := Exec();
        if !ok {
          return None;
        }
        if id !in rows {
          NewRowIs(NewRow(lookup, hash, salt, now, ttl), lookup, hash, salt, now, ttl);
          r := InsertCase(id, NewRow(lookup, hash, salt, now, ttl), blob);
          return;
        }
      }
      r := None;
    }

    /** The row under a free id, with its directory and blob, or the rollback. */
    method InsertCase(id: Id, row: Row, blob: Bytes) returns (r: Option<Id>)
      requires Valid() && id !in rows
      modifies this`rows, this`statements, disk
      ensures Valid()
      ensures r.Some? ==>
        && r.value == id && rows == old(rows)[id := row]
        && disk.files == old(disk.files)[BlobPath(id) := blob]
        && disk.dirs == old(disk.dirs) + {CaseDir(id)}
      ensures r.None? ==> rows == old(rows) || LastStatementFailed()
      ensures r.None? ==>
        || SameTree(old(disk.files), old(disk.dirs), disk.files, disk.dirs)
        || (disk.calls == old(disk.calls) + 3 && (LastCallFailed() || Gone(disk.files, disk.dirs, CaseDir(id))))
      ensures FaultFree() ==> r.Some?
      ensures forall x :: x in old(rows) ==> x in rows && rows[x] == old(rows)[x]
      ensures forall x :: x in old(rows) ==>
        SameUnder(old(disk.files), old(disk.dirs), disk.files, disk.dirs, CaseDir(x))
    {
      rows := rows[id := row];
      r := MakeCaseFiles(id, blob);
      OtherCasesSame(old(disk.files), old(disk.dirs), disk.files, disk.dirs, id, old(rows));
    }

    /** The directory and the blob of a row just inserted, or the rollback. */
    method MakeCaseFiles(id: Id, blob: Bytes) returns (r: Option<Id>)
      requires Valid() && id in rows
      modifies this`rows, this`statements, disk
      ensures Valid()
      ensures r.Some? ==>
        && r.value == id && rows == old(rows)
        && disk.files == old(disk.files)[BlobPath(id) := blob]
        && disk.dirs == old(disk.dirs) + {CaseDir(id)}
      ensures r.None? ==> rows == if LastStatementFailed() then old(rows) else old(rows) - {id}
      ensures r.None? ==>
        || SameTree(old(disk.files), old(disk.dirs), disk.files, disk.dirs)
        || (disk.calls == old(disk.calls) + 3 && (LastCallFailed() || Gone(disk.files, disk.dirs, CaseDir(id))))
      ensures SameOutside(old(disk.files), old(disk.dirs), disk.files, disk.dirs, CaseDir(id))
      ensures FaultFree() ==> r.Some?
    {
      CaseDirPrefixes(id);
      var err := disk.MkdirAll(CaseDir(id));
      if !err.Ok? {
        var _ := DeleteRow(id);
        return None;
      }
      assert disk.dirs == old(disk.dirs) + {CaseDir(id)};
      assert Parent(BlobPath(id)) == CaseDir(id);
      err := disk.WriteFile(BlobPath(id), blob);
      if !err.Ok? {
        RollBack(id);
        return None;
      }
      r := Some(id);
    }

    /** Both errors are dropped. */
    method RollBack(id: Id)
      requires Valid()
      modifies this`rows, this`statements, disk
      ensures Valid() && disk.calls == old(disk.calls) + 1
      ensures rows == if LastStatementFailed() then old(rows) else old(rows) - {id}
      ensures LastCallFailed() || Gone(disk.files, disk.dirs, CaseDir(id))
      ensures SameOutside(old(disk.files), old(disk.dirs), disk.files, disk.dirs, CaseDir(id))
    {
      assert !Under(CaseDir(id), BLOB_DIR);
      var _ := disk.RemoveAll(CaseDir(id));
      var _ := DeleteRow(id);
    }

    /**
      GetCase, os.WriteFile, UPDATE.  Without faults the reply is stored and
      flagged exactly when the case exists; an error never flags it.
     */
    method WriteReply(id: Id, blob: Bytes) returns (ok: bool)
      requires Valid()
      modifies this`rows, this`statements, disk
      ensures Valid() && disk.dirs == old(disk.dirs)
      ensures ok ==>
        && id in old(rows) && CaseDir(id) in disk.dirs
        && rows == old(rows)[id := old(rows)[id].(hasReply := true)]
        && disk.files == old(disk.files)[ReplyPath(id) := blob]
      ensures !ok ==> rows == old(rows)
      ensures forall p :: p != ReplyPath(id) ==>
        (p in disk.files <==> p in old(disk.files)) && (p in disk.files ==> disk.files[p] == old(disk.files)[p])
      ensures FaultFree() ==> (ok <==> id in old(rows) && CaseDir(id) in old(disk.dirs))
      ensures id !in old(rows) ==> disk.files == old(disk.files)
      ensures FaultFree() && !ok ==> disk.files == old(disk.files)
    {
      ok := Exec();
      if !ok || id !in rows {
        return false;
      }
      assert Parent(ReplyPath(id)) == CaseDir(id);
      var err := disk.WriteFile(ReplyPath(id), blob);
      if !err.Ok? {
        return false;
      }
      ok := Exec();
      if ok {
        rows := rows[id := rows[id].(hasReply := true)];
      }
    }

    /** ListCases, without the order and the sizes. */
    method ListCases() returns (r: Option<map<Id, Row>>)
      modifies this`statements
      ensures r.Some? ==> r.value == rows
      ensures FaultFree() ==> r.Some?
    {
      var ok := Exec();
      r := if ok then Some(rows) else None;
    }

    method GetCase(id: Id) returns (r: Option<Row>)
      modifies this`statements
      ensures r.Some? ==> id in rows && r.value == rows[id]
      ensures FaultFree() ==> (r.Some? <==> id in rows)
    {
      var ok := Exec();
      r := if ok && id in rows then Some(rows[id]) else None;
    }

    method ReadBlob(id: Id) returns (r: Option<Bytes>)
      requires Valid()
      modifies disk`calls
      ensures r.Some? ==> BlobPath(id) in disk.files && r.value == disk.files[BlobPath(id)]
      ensures FaultFree() ==> (r.Some? <==> BlobPath(id) in disk.files)
    {
      var err, data := disk.ReadFile(BlobPath(id));
      r := if err.Ok? then Some(data) else None;
    }

    method MarkRead(id: Id) returns (ok: bool)
      requires Valid()
      modifies this`rows, this`statements
      ensures Valid()
      ensures rows == if ok && id in old(rows) then old(rows)[id := old(rows)[id].(readFlag := true)] else old(rows)
      ensures FaultFree() ==> ok
    {
      ok := Exec();
      if ok && id in rows {
        rows := rows[id := rows[id].(readFlag := true)];
      }
    }

    method ReadReply(id: Id) returns (r: Option<Bytes>)
      requires Valid()
      modifies disk`calls
      ensures r.Some? ==> ReplyPath(id) in disk.files && r.value == disk.files[ReplyPath(id)]
      ensures FaultFree() ==> (r.Some? <==> ReplyPath(id) in disk.files)
    {
      var err, data := disk.ReadFile(ReplyPath(id));
      r := if err.Ok? then Some(data) else None;
    }

    /**
      One indexed SELECT (whichever matching row comes first) and one argon2id
      evaluation.  When the rows' digests come from distinct codes this finds
      exactly the id that verifying every row in turn would find.
     */
    method FindCaseByCode(code: string, lookup: Bytes, ghost key: Bytes, ghost codes: map<Id, string>)
      returns (r: Option<Id>)
      requires Valid() && lookup == suite.mac(key, code)
      modifies this`statements
      ensures r.Some? ==> ScanFinds(suite, rows, code, r.value)
      ensures FaultFree() && Crypto.Lawful(suite) && RowsFrom(suite, key, rows, codes) ==>
        forall id :: r == Some(id) <==> ScanFinds(suite, rows, code, id)
    {
      r := None;
      var hits := set id | id in rows && rows[id].codeLookup == lookup;
      var ok := Exec();
      if ok {
        if hits != {} {
          var id :| id in hits;
          if Crypto.VerifyCode(suite, code, rows[id].codeSalt, rows[id].codeHash) {
            r := Some(id);
          }
        }
      }
      if FaultFree() && Crypto.Lawful(suite) && RowsFrom(suite, key, rows, codes) {
        forall id ensures r == Some(id) <==> ScanFinds(suite, rows, code, id) {
          ScanIsLookup(suite, key, rows, codes, code, id);
          assert ScanFinds(suite, rows, code, id) ==> id in hits;
          assert forall h :: h in hits ==> codes[h] == code;
        }
      }
    }

    /** `SELECT id FROM cases WHERE expires_at < ?`, in any order. */
    method SelectExpired(now: int) returns (ok: bool, ids: seq<Id>)
      modifies this`statements
      ensures ok ==>
        && (forall id :: id in ids <==> id in ExpiredIds(rows, now))
        && (forall i, j :: 0 <= i < j < |ids| ==> ids[i] != ids[j])
      ensures FaultFree() ==> ok
    {
      ok := Exec();
      ids := [];
      var left := set id | id in rows && Expired(rows[id], now);
      while left != {}
        invariant forall id :: id in ExpiredIds(rows, now) <==> id in ids || id in left
        invariant forall id :: id in ids ==> id !in left
        invariant forall i, j :: 0 <= i < j < |ids| ==> ids[i] != ids[j]
        decreases left
      {
        var id :| id in left;
        ids, left := ids + [id], left - {id};
      }
    }

    /**
      A sweep.  However it ends, n is the number of rows that went, and only
      what had expired went; a nil error means that nothing expired is left.
     */
    method GC(now: int) returns (n: nat, ok: bool)
      requires Valid()
      modifies this`rows, this`statements, disk
      ensures Valid()
      ensures n == |old(rows)| - |rows|
      ensures OnlyExpiredGone(old(rows), old(disk.files), old(disk.dirs), rows, disk.files, disk.dirs, now)
      ensures ok ==> ExpiredIds(rows, now) == {}
      ensures FaultFree() ==> ok
    {
      n := 0;
      var ids;
      ok, ids := SelectExpired(now);
      if !ok {
        return;
      }
      assert forall k :: 0 <= k < |ids| ==> ids[k] in ids;
      for i := 0 to |ids|
        invariant Valid() && n == i && |rows| == |old(rows)| - i
        invariant OnlyExpiredGone(old(rows), old(disk.files), old(disk.dirs), rows, disk.files, disk.dirs, now)
        invariant SweptUpTo(rows, ids, i)
      {
        ghost var rows1, f1, d1 := rows, disk.files, disk.dirs;
        var id := ids[i];
        ok := SweepCase(id);
        assert forall x :: x in rows <==> x in rows1 && (ok ==> x != id);
        SweepStep(old(rows), old(disk.files), old(disk.dirs), rows1, f1, d1, rows, disk.files, disk.dirs, now, id);
        if !ok {
          return n, false;
        }
        OneMoreSwept(rows1, ids, i);
        n := n + 1;
      }
      assert forall id :: id in ids ==> id !in rows;
    }

    /** One case of a sweep: its directory first, tolerating that there is none, its row last. */
    method SweepCase(id: Id) returns (ok: bool)
      requires Valid() && id in rows
      modifies this`rows, this`statements, disk
      ensures Valid() && disk.dirs <= old(disk.dirs) && disk.files.Keys <= old(disk.files.Keys)
      ensures SameOutside(old(disk.files), old(disk.dirs), disk.files, disk.dirs, CaseDir(id))
      ensures rows == if ok then old(rows) - {id} else old(rows)
      ensures |rows| == if ok then |old(rows)| - 1 else |old(rows)|
      ensures ok ==> Gone(disk.files, disk.dirs, CaseDir(id))
      ensures FaultFree() ==> ok
    {
      assert !Under(CaseDir(id), BLOB_DIR);
      assert rows.Keys - {id} == (rows - {id}).Keys;
      var err := ShredDir(disk, CaseDir(id));
      if err.Fault? {
        return false;
      }
      ok := DeleteRow(id);
    }

    /**
      The emergency wipe.  Shredding errors are dropped and the rows go
      regardless; without faults blob/ is left empty.
     */
    method Wipe() returns (ok: bool)
      requires Valid()
      modifies this`rows, this`statements, disk
      ensures Valid()
      ensures ok <==> sqlWorks(old(statements))
      ensures rows == if ok then map[] else old(rows)
      ensures FaultFree() ==> ok && disk.files == map[] && disk.dirs == {[], BLOB_DIR}
    {
      var err, entries := disk.ReadDir(BLOB_DIR);
      if err.Ok? {
        for i := 0 to |entries|
          invariant Valid() && rows == old(rows) && statements == old(statements)
          invariant disk.dirs <= old(disk.dirs) && disk.files.Keys <= old(disk.files.Keys)
          invariant FaultFree() ==> AllGone(disk.files, disk.dirs, entries, i)
        {
          WipeEntry(entries, i);
        }
        if FaultFree() {
          NothingUnderBlob(entries, old(disk.files), old(disk.dirs));
        }
      }
      ok := Exec();
      if ok {
        rows := map[];
      }
    }

    /** One directory of a wipe; what went wrong is dropped. */
    method WipeEntry(entries: seq<DirEntry>, i: nat)
      requires Valid() && i < |entries|
      modifies disk
      ensures Valid() && disk.dirs <= old(disk.dirs) && disk.files.Keys <= old(disk.files.Keys)
      ensures FaultFree() && AllGone(old(disk.files), old(disk.dirs), entries, i) ==>
        AllGone(disk.files, disk.dirs, entries, i + 1)
    {
      var name := entries[i].name;
      ghost var f1, d1 := disk.files, disk.dirs;
      assert !Under(CaseDir(name), BLOB_DIR);
      var err := ShredDir(disk, BLOB_DIR + [name]);
      if FaultFree() && !err.Ok? {
        EmptyIsGone(disk.files, disk.dirs, CaseDir(name));
      }
      forall k | 0 <= k < i && Gone(f1, d1, CaseDir(entries[k].name))
        ensures Gone(disk.files, disk.dirs, CaseDir(entries[k].name))
      {
        GoneStays(f1, d1, disk.files, disk.dirs, CaseDir(entries[k].name));
      }
    }

    /** Every path below blob/ lies in one of its entries. */
    lemma NothingUnderBlob(entries: seq<DirEntry>, files: map<Path, Bytes>, dirs: set<Path>)
      requires Valid() && disk.dirs <= dirs && disk.files.Keys <= files.Keys
      requires Names(entries) == Children(files, dirs, BLOB_DIR)
      requires AllGone(disk.files, disk.dirs, entries, |entries|)
      ensures disk.files == map[] && disk.dirs == {[], BLOB_DIR}
    {
      forall p | |p| >= 2 && p[0] == "blob" ensures p !in disk.files && p !in disk.dirs {
        if p in disk.files || p in disk.dirs {
          FirstChild(disk.files, disk.dirs, BLOB_DIR, p);
          ChildrenAre(files, dirs, BLOB_DIR, p[1]);
        }
        if p[1] in Names(entries) {
          var k :| 0 <= k < |entries| && entries[k].name == p[1];
          assert Under(CaseDir(entries[k].name), p);
        }
      }
      assert forall p :: p in disk.dirs && p != [] ==> p == BLOB_DIR;
    }
  }

  /** Two sweeps in a row go no further than the later one alone may. */
  lemma SweepsCompose(rows0: map<Id, Row>, f0: map<Path, Bytes>, d0: set<Path>,
                      rows1: map<Id, Row>, f1: map<Path, Bytes>, d1: set<Path>,
                      rows2: map<Id, Row>, f2: map<Path, Bytes>, d2: set<Path>, now1: int, now2: int)
    requires now1 <= now2
    requires OnlyExpiredGone(rows0, f0, d0, rows1, f1, d1, now1)
    requires OnlyExpiredGone(rows1, f1, d1, rows2, f2, d2, now2)
    ensures OnlyExpiredGone(rows0, f0, d0, rows2, f2, d2, now2)
  {
    assert ExpiredIds(rows0, now1) <= ExpiredIds(rows0, now2);
    assert ExpiredIds(rows1, now2) <= ExpiredIds(rows0, now2);
    forall id | id in rows0 && id !in rows2 ensures Gone(f2, d2, CaseDir(id)) {
      if id !in rows1 {
        GoneStays(f1, d1, f2, d2, CaseDir(id));
      }
    }
  }

  /**
    A sweep cut short anywhere, by an error or by the death of the process, is
    made good by any later sweep that returns no error: nothing that has
    expired by then keeps a row or a directory, whichever of the two sweeps
    dealt with it, and the two counts add up.
   */
  method SweepResumes(store: Store, now1: int, now2: int) returns (n1: nat, n2: nat, ok: bool)
    requires store.Valid() && now1 <= now2
    modifies store`rows, store`statements, store.disk
    ensures store.Valid()
    ensures n1 + n2 == |old(store.rows)| - |store.rows|
    ensures OnlyExpiredGone(old(store.rows), old(store.disk.files), old(store.disk.dirs),
                            store.rows, store.disk.files, store.disk.dirs, now2)
    ensures ok ==> forall id :: id in ExpiredIds(old(store.rows), now2) ==>
      id !in store.rows && Gone(store.disk.files, store.disk.dirs, CaseDir(id))
  {
    var cutShort;
    n1, cutShort := store.GC(now1);
    ghost var rows1, f1, d1 := store.rows, store.disk.files, store.disk.dirs;
    n2, ok := store.GC(now2);
    ghost var rows2 := store.rows;
    SweepsCompose(old(store.rows), old(store.disk.files), old(store.disk.dirs), rows1, f1, d1,
                  store.rows, store.disk.files, store.disk.dirs, now1, now2);
    if ok {
      forall id | id in ExpiredIds(old(store.rows), now2) ensures id !in rows2 {
        assert id in rows2 ==> id in ExpiredIds(rows2, now2);
      }
    }
  }

  /**
    The same across a restart: a sweep cut short by the death of the process,
    a new process that opens the store on what is left, and its start-up sweep.
   */
  method SweepAfterRestart(store: Store, sqlWorks: nat -> bool, now1: int, now2: int)
    returns (n1: nat, n2: nat, reopened: Option<Store>, ok: bool)
    requires store.Valid() && now1 <= now2
    modifies store`rows, store`statements, store.disk
    ensures ok ==> reopened.Some?
    ensures reopened.Some? ==>
      && reopened.value.Valid() && reopened.value.disk == store.disk
      && n1 + n2 == |old(store.rows)| - |reopened.value.rows|
      && OnlyExpiredGone(old(store.rows), old(store.disk.files), old(store.disk.dirs),
                         reopened.value.rows, store.disk.files, store.disk.dirs, now2)
      && (ok ==> forall id :: id in ExpiredIds(old(store.rows), now2) ==>
            id !in reopened.value.rows && Gone(store.disk.files, store.disk.dirs, CaseDir(id)))
  {
    n2, ok := 0, false;
    var cutShort;
    n1, cutShort := store.GC(now1);
    assert store.disk.dirs + {[], BLOB_DIR} == store.disk.dirs;
    reopened := OpenStore(store.suite, store.disk, sqlWorks, store.rows);
    if reopened.None? {
      return;
    }
    ghost var rows1, f1, d1 := store.rows, store.disk.files, store.disk.dirs;
    n2, ok := reopened.value.GC(now2);
    ghost var rows2 := reopened.value.rows;
    SweepsCompose(old(store.rows), old(store.disk.files), old(store.disk.dirs), rows1, f1, d1,
                  rows2, store.disk.files, store.disk.dirs, now1, now2);
    if ok {
      forall id | id in ExpiredIds(old(store.rows), now2) ensures id !in rows2 {
        assert id in rows2 ==> id in ExpiredIds(rows2, now2);
      }
    }
  }

  lemma CaseDirPrefixes(id: Id)
    ensures Prefixes(CaseDir(id)) == {[], BLOB_DIR, CaseDir(id)}
  {
    var d := CaseDir(id);
    assert d[..0] == [] && d[..1] == BLOB_DIR && d[..2] == d;
  }
}
