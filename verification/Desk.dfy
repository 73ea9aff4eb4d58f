/** Rows and files of the case store as the book of the ledger. */
module Desk {
  import opened Common
  import opened FileSystem
  import opened CaseStore
  import opened Ledger
  import Crypto

  /** The reply file is missing, or opens under the case's own key to the entry's reply. */
  ghost predicate ReplyStands(s: Crypto.Suite, files: map<Path, Bytes>, id: Id, e: Entry) {
    match e.reply
    case None => ReplyPath(id) !in files
    case Some(text) =>
      && ReplyPath(id) in files
      && Crypto.DecryptSymmetric(s, s.kdf(e.code, id), files[ReplyPath(id)]) == Some(text)
  }

  /** One row with its directory stands for one entry. */
  ghost predicate Stands(s: Crypto.Suite, key: Bytes, files: map<Path, Bytes>, dirs: set<Path>, id: Id, row: Row, e: Entry) {
    && row.codeLookup == s.mac(key, e.code) && row.codeHash == s.hash(e.code, row.codeSalt)
    && row.expiresAt == e.expiresAt && (row.hasReply <==> e.reply.Some?)
    && CaseDir(id) in dirs && BlobPath(id) in files && files[BlobPath(id)] == e.blob && ReplyStands(s, files, id, e)
  }

  /** The store holds the book: rows and directories under blob/ match it one to one. */
  ghost predicate Represents(s: Crypto.Suite, key: Bytes, rows: map<Id, Row>, files: map<Path, Bytes>, dirs: set<Path>,
                             b: Book) {
    && b.Keys == rows.Keys && DistinctCodes(b)
    && (forall id :: id in b ==> Stands(s, key, files, dirs, id, rows[id], b[id]))
    && (forall id :: CaseDir(id) in dirs ==> id in b)
  }

  ghost function CodesOf(b: Book): map<Id, string> {
    map id | id in b :: b[id].code
  }

  /** In every represented store the indexed lookup is right. */
  lemma RepresentedRows(s: Crypto.Suite, key: Bytes, rows: map<Id, Row>, files: map<Path, Bytes>, dirs: set<Path>, b: Book)
    requires Represents(s, key, rows, files, dirs, b)
    ensures RowsFrom(s, key, rows, CodesOf(b))
  {
    forall id | id in rows
      ensures rows[id].codeLookup == s.mac(key, CodesOf(b)[id])
      ensures rows[id].codeHash == s.hash(CodesOf(b)[id], rows[id].codeSalt)
    {
      assert Stands(s, key, files, dirs, id, rows[id], b[id]);
    }
  }

  lemma StillStands(s: Crypto.Suite, key: Bytes, files: map<Path, Bytes>, dirs: set<Path>,
                    files': map<Path, Bytes>, dirs': set<Path>, id: Id, row: Row, e: Entry)
    requires Stands(s, key, files, dirs, id, row, e) && SameUnder(files, dirs, files', dirs', CaseDir(id))
    ensures Stands(s, key, files', dirs', id, row, e)
  {
    assert Under(CaseDir(id), CaseDir(id)) && Under(CaseDir(id), ReplyPath(id)) && Under(CaseDir(id), BlobPath(id));
  }

  // ---- a new case ----

  lemma NoFilesYet(files: map<Path, Bytes>, dirs: set<Path>, id: Id)
    requires IsTree(files, dirs) && CaseDir(id) !in dirs
    ensures ReplyPath(id) !in files
  {
    assert Parent(ReplyPath(id)) == CaseDir(id);
  }

  lemma NewCaseStands(s: Crypto.Suite, key: Bytes, files: map<Path, Bytes>, dirs: set<Path>, id: Id, code: string,
                      salt: Bytes, now: int, ttl: int, blob: Bytes)
    requires ReplyPath(id) !in files
    ensures Stands(s, key, files[BlobPath(id) := blob], dirs + {CaseDir(id)}, id,
                   NewRow(s.mac(key, code), s.hash(code, salt), salt, now, ttl), Entry(code, Expiry(now, ttl), blob, None))
  {
    PathsDiffer(id);
  }

  lemma PathsDiffer(id: Id)
    ensures BlobPath(id) != ReplyPath(id)
  {
    assert BlobPath(id)[2] == BLOB_NAME && ReplyPath(id)[2] == REPLY_NAME;
    assert BLOB_NAME[0] != REPLY_NAME[0];
  }

  lemma OtherBlobSame(files: map<Path, Bytes>, dirs: set<Path>, id: Id, other: Id, blob: Bytes)
    requires other != id
    ensures SameUnder(files, dirs, files[BlobPath(id) := blob], dirs + {CaseDir(id)}, CaseDir(other))
  {
    assert BlobPath(id)[1] == id && CaseDir(id)[1] == id && CaseDir(other)[1] == other;
  }

  lemma SubmittedRepresents(s: Crypto.Suite, key: Bytes, rows: map<Id, Row>, files: map<Path, Bytes>, dirs: set<Path>,
                            b: Book, id: Id, code: string, salt: Bytes, now: int, ttl: int, blob: Bytes)
    requires IsTree(files, dirs) && Represents(s, key, rows, files, dirs, b)
    requires id !in rows && forall x :: x in b ==> b[x].code != code
    ensures Represents(s, key, rows[id := NewRow(s.mac(key, code), s.hash(code, salt), salt, now, ttl)],
                       files[BlobPath(id) := blob], dirs + {CaseDir(id)}, Step(b, Submitted(id, code, now, ttl, blob)))
  {
    NoFilesYet(files, dirs, id);
    NewCaseStands(s, key, files, dirs, id, code, salt, now, ttl, blob);
    var files', dirs' := files[BlobPath(id) := blob], dirs + {CaseDir(id)};
    forall x | x in b ensures Stands(s, key, files', dirs', x, rows[x], b[x]) {
      OtherBlobSame(files, dirs, id, x, blob);
      StillStands(s, key, files, dirs, files', dirs', x, rows[x], b[x]);
    }
    forall x | CaseDir(x) in dirs' ensures x in b || x == id {
      assert CaseDir(x)[1] == x && CaseDir(id)[1] == id;
    }
  }

  // ---- a reply ----

  /** The reply file of a case in the book, read back. */
  lemma ReplyOf(s: Crypto.Suite, key: Bytes, rows: map<Id, Row>, files: map<Path, Bytes>, dirs: set<Path>, b: Book, id: Id)
    requires Represents(s, key, rows, files, dirs, b) && id in b
    ensures id in rows && (b[id].reply.Some? <==> ReplyPath(id) in files)
    ensures b[id].reply.Some? ==>
      Crypto.DecryptSymmetric(s, s.kdf(b[id].code, id), files[ReplyPath(id)]) == b[id].reply
  {
    assert Stands(s, key, files, dirs, id, rows[id], b[id]);
  }

  lemma ReplyPathsDiffer(files: map<Path, Bytes>, dirs: set<Path>, id: Id, other: Id, blob: Bytes)
    requires other != id
    ensures SameUnder(files, dirs, files[ReplyPath(id) := blob], dirs, CaseDir(other))
  {
    assert ReplyPath(id)[1] == id && CaseDir(other)[1] == other;
  }

  lemma RepliedRepresents(s: Crypto.Suite, key: Bytes, rows: map<Id, Row>, files: map<Path, Bytes>, dirs: set<Path>,
                          b: Book, id: Id, text: string, blob: Bytes)
    requires Represents(s, key, rows, files, dirs, b) && id in b
    requires Crypto.DecryptSymmetric(s, s.kdf(b[id].code, id), blob) == Some(text)
    ensures Represents(s, key, rows[id := rows[id].(hasReply := true)], files[ReplyPath(id) := blob], dirs,
                       b[id := b[id].(reply := Some(text))])
  {
    var files' := files[ReplyPath(id) := blob];
    PathsDiffer(id);
    assert Stands(s, key, files, dirs, id, rows[id], b[id]);
    forall x | x in b && x != id ensures Stands(s, key, files', dirs, x, rows[x], b[x]) {
      ReplyPathsDiffer(files, dirs, id, x, blob);
      StillStands(s, key, files, dirs, files', dirs, x, rows[x], b[x]);
    }
  }

  /** The read mark is no part of the book. */
  lemma MarkedRepresents(s: Crypto.Suite, key: Bytes, rows: map<Id, Row>, files: map<Path, Bytes>, dirs: set<Path>,
                         b: Book, id: Id)
    requires Represents(s, key, rows, files, dirs, b) && id in b
    ensures Represents(s, key, rows[id := rows[id].(readFlag := true)], files, dirs, b)
  {
    assert Stands(s, key, files, dirs, id, rows[id], b[id]);
  }

  /** Each open case and whether it has a reply, from the book and from the rows. */
  function Listed(b: Book): map<Id, bool> {
    map id | id in b :: b[id].reply.Some?
  }

  function ListedRows(rows: map<Id, Row>): map<Id, bool> {
    map id | id in rows :: rows[id].hasReply
  }

  lemma RowsListBook(s: Crypto.Suite, key: Bytes, rows: map<Id, Row>, files: map<Path, Bytes>, dirs: set<Path>, b: Book)
    requires Represents(s, key, rows, files, dirs, b)
    ensures ListedRows(rows) == Listed(b)
  {
    forall id | id in b ensures ListedRows(rows)[id] == Listed(b)[id] {
      FlagOf(s, key, rows, files, dirs, b, id);
    }
  }

  lemma FlagOf(s: Crypto.Suite, key: Bytes, rows: map<Id, Row>, files: map<Path, Bytes>, dirs: set<Path>, b: Book, id: Id)
    requires Represents(s, key, rows, files, dirs, b)
    ensures id in rows <==> id in b
    ensures id in b ==> (rows[id].hasReply <==> b[id].reply.Some?)
  {
    if id in b {
      assert Stands(s, key, files, dirs, id, rows[id], b[id]);
    }
  }

  /** A blob file exists exactly for the cases of the book. */
  lemma BlobIffBooked(s: Crypto.Suite, key: Bytes, rows: map<Id, Row>, files: map<Path, Bytes>, dirs: set<Path>,
                      b: Book, id: Id)
    requires IsTree(files, dirs) && Represents(s, key, rows, files, dirs, b)
    ensures BlobPath(id) in files <==> id in b
    ensures id in b ==> files[BlobPath(id)] == b[id].blob
  {
    if id in b {
      assert Stands(s, key, files, dirs, id, rows[id], b[id]);
    }
    assert Parent(BlobPath(id)) == CaseDir(id);
  }

  // ---- a sweep, and a wipe ----

  /** The rows left are those of the unexpired entries, unchanged. */
  lemma SweptRows(s: Crypto.Suite, key: Bytes, rows: map<Id, Row>, files: map<Path, Bytes>, dirs: set<Path>,
                  rows': map<Id, Row>, b: Book, now: int, id: Id)
    requires b.Keys == rows.Keys && (id in b ==> Stands(s, key, files, dirs, id, rows[id], b[id]))
    requires id in rows' ==> id in rows && rows'[id] == rows[id]
    requires id in rows && !Expired(rows[id], now) ==> id in rows'
    requires ExpiredIds(rows', now) == {}
    ensures id in AfterSweep(b, now) <==> id in rows'
  {
    assert id in rows' ==> id !in ExpiredIds(rows', now);
  }

  lemma SweptDirs(rows: map<Id, Row>, files: map<Path, Bytes>, dirs: set<Path>,
                  rows': map<Id, Row>, files': map<Path, Bytes>, dirs': set<Path>, now: int, id: Id)
    requires OnlyExpiredGone(rows, files, dirs, rows', files', dirs', now)
    requires CaseDir(id) in dirs' && (CaseDir(id) in dirs ==> id in rows)
    ensures id in rows'
  {
    assert Under(CaseDir(id), CaseDir(id));
  }

  lemma SweptRepresents(s: Crypto.Suite, key: Bytes, rows: map<Id, Row>, files: map<Path, Bytes>, dirs: set<Path>,
                        rows': map<Id, Row>, files': map<Path, Bytes>, dirs': set<Path>, b: Book, now: int)
    requires Represents(s, key, rows, files, dirs, b)
    requires OnlyExpiredGone(rows, files, dirs, rows', files', dirs', now) && ExpiredIds(rows', now) == {}
    ensures Represents(s, key, rows', files', dirs', AfterSweep(b, now))
  {
    var b' := AfterSweep(b, now);
    forall id ensures id in b' <==> id in rows' {
      SweptRows(s, key, rows, files, dirs, rows', b, now, id);
    }
    forall id | id in b' ensures Stands(s, key, files', dirs', id, rows'[id], b'[id]) {
      UnsweptStands(s, key, rows, files, dirs, files', dirs', b, now, id);
    }
    forall id | CaseDir(id) in dirs' ensures id in b' {
      SweptDirs(rows, files, dirs, rows', files', dirs', now, id);
    }
  }

  lemma UnsweptStands(s: Crypto.Suite, key: Bytes, rows: map<Id, Row>, files: map<Path, Bytes>, dirs: set<Path>,
                      files': map<Path, Bytes>, dirs': set<Path>, b: Book, now: int, id: Id)
    requires b.Keys == rows.Keys && id in AfterSweep(b, now)
    requires Stands(s, key, files, dirs, id, rows[id], b[id])
    requires OthersSame(files, dirs, files', dirs', ExpiredIds(rows, now))
    ensures Stands(s, key, files', dirs', id, rows[id], AfterSweep(b, now)[id])
  {
    UnexpiredSame(rows, files, dirs, files', dirs', now, id);
    StillStands(s, key, files, dirs, files', dirs', id, rows[id], b[id]);
  }

  lemma UnexpiredSame(rows: map<Id, Row>, files: map<Path, Bytes>, dirs: set<Path>,
                      files': map<Path, Bytes>, dirs': set<Path>, now: int, id: Id)
    requires OthersSame(files, dirs, files', dirs', ExpiredIds(rows, now)) && id !in ExpiredIds(rows, now)
    ensures SameUnder(files, dirs, files', dirs', CaseDir(id))
  {
    forall p | Under(CaseDir(id), p) ensures p[1] !in ExpiredIds(rows, now) {
      assert p[1] == CaseDir(id)[1];
    }
  }

  lemma WipedRepresents(s: Crypto.Suite, key: Bytes)
    ensures Represents(s, key, map[], map[], {[], BLOB_DIR}, map[])
  {
  }

  /** Different codes never answer for one case, so what is found is what the book says. */
  lemma FoundInBook(s: Crypto.Suite, key: Bytes, rows: map<Id, Row>, files: map<Path, Bytes>, dirs: set<Path>, b: Book,
                    code: string, id: Id)
    requires Crypto.Lawful(s) && Represents(s, key, rows, files, dirs, b)
    ensures ScanFinds(s, rows, code, id) <==> id in b && b[id].code == code
  {
    RepresentedRows(s, key, rows, files, dirs, b);
    ScanIsLookup(s, key, rows, CodesOf(b), code, id);
  }
}
