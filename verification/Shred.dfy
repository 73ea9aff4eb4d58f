/** shredDir: zero and unlink every file of a directory tree, then remove it. */
module Shred {
  import opened Common
  import opened FileSystem

  /** The unlinked file held zeros, as many as it had bytes before the shredding began. */
  ghost predicate Zeroed(u: Unlinked, before: map<Path, Bytes>) {
    u.path in before && u.content == Repeat('\0', |before[u.path]|)
  }

  /** Paths below different entries of `dir` are different. */
  lemma Apart(dir: Path, m: string, n: string, p: Path)
    requires Under(dir + [m], p)
    ensures Under(dir, p)
    ensures m != n ==> !Under(dir + [n], p)
  {
    assert p[|dir|] == (dir + [m])[|dir|] == m;
    assert (dir + [n])[|dir|] == n;
    assert dir == (dir + [m])[..|dir|] == p[..|dir|];
  }

  lemma EntriesApart(dir: Path, entries: seq<DirEntry>, i: nat)
    requires i < |entries|
    requires forall j, k :: 0 <= j < k < |entries| ==> entries[j].name != entries[k].name
    ensures forall j, p ::
      0 <= j < |entries| && j != i && Under(dir + [entries[j].name], p) ==> !Under(dir + [entries[i].name], p)
    ensures forall p :: Under(dir + [entries[i].name], p) ==> Under(dir, p)
  {
    forall j, p | 0 <= j < |entries| && j != i && Under(dir + [entries[j].name], p)
      ensures !Under(dir + [entries[i].name], p)
    {
      Apart(dir, entries[j].name, entries[i].name, p);
    }
    forall p | Under(dir + [entries[i].name], p) ensures Under(dir, p) {
      Apart(dir, entries[i].name, entries[i].name, p);
    }
  }

  /** In a fault-free run, everything unlinked between the two logs was zeroed first. */
  ghost predicate ZeroedFirst(log: seq<Unlinked>, log': seq<Unlinked>, before: map<Path, Bytes>, d: Path, disk: Disk) {
    && log <= log'
    && (disk.FaultFree() ==>
          forall i :: |log| <= i < |log'| ==> Under(d, log'[i].path) && Zeroed(log'[i], before))
  }

  lemma ZeroedChain(log0: seq<Unlinked>, log1: seq<Unlinked>, log2: seq<Unlinked>, f0: map<Path, Bytes>, d0: set<Path>,
                    f1: map<Path, Bytes>, d1: set<Path>, dir: Path, name: string, disk: Disk)
    requires ZeroedFirst(log0, log1, f0, dir, disk) && ZeroedFirst(log1, log2, f1, dir + [name], disk)
    requires SameUnder(f0, d0, f1, d1, dir + [name])
    ensures ZeroedFirst(log0, log2, f0, dir, disk)
  {
    if disk.FaultFree() {
      forall i | |log0| <= i < |log2| ensures Under(dir, log2[i].path) && Zeroed(log2[i], f0) {
        if i < |log1| {
          assert log2[i] == log1[i];
        } else {
          Apart(dir, name, name, log2[i].path);
        }
      }
    }
  }

  /** Overwrite with zeros, then unlink; both errors are dropped. */
  method ShredFile(disk: Disk, p: Path) returns (err: Err)
    requires disk.Valid() && p in disk.files
    modifies disk
    ensures disk.Valid() && disk.dirs == old(disk.dirs) && disk.files.Keys <= old(disk.files.Keys)
    ensures forall q :: q != p ==>
      (q in disk.files <==> q in old(disk.files)) && (q in disk.files ==> disk.files[q] == old(disk.files)[q])
    ensures !err.NotExist? && (err.Ok? <==> disk.fate(old(disk.calls)).Works?)
    ensures disk.FaultFree() ==> err.Ok? && p !in disk.files
    ensures ZeroedFirst(old(disk.log), disk.log, old(disk.files), p, disk)
  {
    var size;
    err, size := disk.Stat(p);
    if !err.Ok? {
      return;
    }
    var _ := disk.WriteFile(p, Repeat('\0', size));
    var _ := disk.Remove(p);
  }

  /** A directory that lost every entry it was listed with, and gained none, is empty. */
  lemma NothingLeft(disk: Disk, dir: Path, entries: seq<DirEntry>, files: map<Path, Bytes>, dirs: set<Path>)
    requires Names(entries) == Children(files, dirs, dir)
    requires disk.dirs <= dirs && disk.files.Keys <= files.Keys
    requires forall j :: 0 <= j < |entries| ==> Gone(disk.files, disk.dirs, dir + [entries[j].name])
    ensures Children(disk.files, disk.dirs, dir) == {}
  {
    forall n ensures n !in Children(disk.files, disk.dirs, dir) {
      ChildrenAre(disk.files, disk.dirs, dir, n);
      ChildrenAre(files, dirs, dir, n);
      if n in Children(files, dirs, dir) {
        var j :| 0 <= j < |entries| && entries[j].name == n;
        assert Under(dir + [n], dir + [n]);
        assert Gone(disk.files, disk.dirs, dir + [entries[j].name]);
      }
    }
  }

  lemma SameStaysOutside(f0: map<Path, Bytes>, d0: set<Path>, f1: map<Path, Bytes>, d1: set<Path>,
                         f2: map<Path, Bytes>, d2: set<Path>, dir: Path, name: string)
    requires SameOutside(f0, d0, f1, d1, dir) && SameOutside(f1, d1, f2, d2, dir + [name])
    ensures SameOutside(f0, d0, f2, d2, dir)
  {
    forall p | !Under(dir, p) ensures !Under(dir + [name], p) {
      if Under(dir + [name], p) {
        Apart(dir, name, name, p);
      }
    }
  }

  /** Shredding entry `i` keeps what the loop knows about the entries after it and about the world outside. */
  lemma EntryDone(f0: map<Path, Bytes>, d0: set<Path>, f1: map<Path, Bytes>, d1: set<Path>,
                  f2: map<Path, Bytes>, d2: set<Path>, dir: Path, entries: seq<DirEntry>, i: nat)
    requires i < |entries|
    requires forall j, k :: 0 <= j < k < |entries| ==> entries[j].name != entries[k].name
    requires SameOutside(f0, d0, f1, d1, dir) && SameOutside(f1, d1, f2, d2, dir + [entries[i].name])
    requires forall j :: i <= j < |entries| ==> SameUnder(f0, d0, f1, d1, dir + [entries[j].name])
    requires d2 <= d1 && f2.Keys <= f1.Keys
    ensures SameOutside(f0, d0, f2, d2, dir)
    ensures forall j :: i < j < |entries| ==> SameUnder(f0, d0, f2, d2, dir + [entries[j].name])
    ensures forall j :: 0 <= j < i && Gone(f1, d1, dir + [entries[j].name]) ==> Gone(f2, d2, dir + [entries[j].name])
    ensures dir in d1 ==> dir in d2
  {
    EntriesApart(dir, entries, i);
    assert Under(dir, dir) && !Under(dir + [entries[i].name], dir);
  }

  /** One turn of the loop: descend into a directory, shred a file. */
  method ShredEntry(disk: Disk, p: Path, isDir: bool) returns (err: Err)
    requires disk.Valid() && p != [] && if isDir then p in disk.dirs else p in disk.files
    modifies disk
    ensures disk.Valid() && disk.dirs <= old(disk.dirs) && disk.files.Keys <= old(disk.files.Keys)
    ensures SameOutside(old(disk.files), old(disk.dirs), disk.files, disk.dirs, p)
    ensures !err.NotExist?
    ensures disk.FaultFree() ==> err.Ok? && Gone(disk.files, disk.dirs, p)
    ensures ZeroedFirst(old(disk.log), disk.log, old(disk.files), p, disk)
    decreases DirsUnder(disk.dirs, p), 2
  {
    if isDir {
      err := ShredDir(disk, p);
    } else {
      err := ShredFile(disk, p);
      assert Under(p, p);
      if disk.FaultFree() {
        EmptyIsGone(disk.files, disk.dirs, p);
      }
    }
  }

  /**
    Errors of the overwrite and of the unlink are dropped, yet a nil result
    means that the whole tree is gone: the final rmdir would have failed
    otherwise.  Nothing outside `dir` is touched, whatever fails, and "not
    exist" is only ever said of a directory that was not there.
   */
  method ShredDir(disk: Disk, dir: Path) returns (err: Err)
    requires disk.Valid() && dir != []
    modifies disk
    ensures disk.Valid()
    ensures disk.dirs <= old(disk.dirs) && disk.files.Keys <= old(disk.files.Keys)
    ensures SameOutside(old(disk.files), old(disk.dirs), disk.files, disk.dirs, dir)
    ensures err.Ok? ==> Gone(disk.files, disk.dirs, dir)
    ensures err.NotExist? ==> dir !in old(disk.dirs) && Gone(disk.files, disk.dirs, dir)
    ensures disk.FaultFree() && dir in old(disk.dirs) ==> err.Ok?
    ensures disk.FaultFree() && dir !in old(disk.files) ==> !err.Fault?
    ensures ZeroedFirst(old(disk.log), disk.log, old(disk.files), dir, disk)
    decreases DirsUnder(disk.dirs, dir), 1
  {
    var entries;
    err, entries := disk.ReadDir(dir);
    if !err.Ok? {
      if err.NotExist? {
        EmptyIsGone(disk.files, disk.dirs, dir);
      }
      return;
    }
    var i := 0;
    while i < |entries|
      invariant 0 <= i <= |entries|
      invariant disk.Valid() && dir in disk.dirs
      invariant disk.dirs <= old(disk.dirs) && disk.files.Keys <= old(disk.files.Keys)
      invariant SameOutside(old(disk.files), old(disk.dirs), disk.files, disk.dirs, dir)
      invariant forall j :: i <= j < |entries| ==>
        SameUnder(old(disk.files), old(disk.dirs), disk.files, disk.dirs, dir + [entries[j].name])
      invariant disk.FaultFree() ==>
        forall j :: 0 <= j < i ==> Gone(disk.files, disk.dirs, dir + [entries[j].name])
      invariant ZeroedFirst(old(disk.log), disk.log, old(disk.files), dir, disk)
    {
      ghost var f1, d1, log1 := disk.files, disk.dirs, disk.log;
      var p := dir + [entries[i].name];
      assert entries[i] in entries && Under(p, p) && Under(dir, dir) && !Under(p, dir);
      assert dir in DirsUnder(old(disk.dirs), dir) && dir !in DirsUnder(d1, p);
      EntriesApart(dir, entries, i);
      err := ShredEntry(disk, p, entries[i].isDir);
      ZeroedChain(old(disk.log), log1, disk.log, old(disk.files), old(disk.dirs), f1, d1, dir, entries[i].name, disk);
      if !err.Ok? {
        SameStaysOutside(old(disk.files), old(disk.dirs), f1, d1, disk.files, disk.dirs, dir, entries[i].name);
        return;
      }
      EntryDone(old(disk.files), old(disk.dirs), f1, d1, disk.files, disk.dirs, dir, entries, i);
      i := i + 1;
    }
    if disk.FaultFree() {
      NothingLeft(disk, dir, entries, old(disk.files), old(disk.dirs));
    }
    err := disk.Remove(dir);
    if err.Ok? {
      EmptyIsGone(disk.files, disk.dirs, dir);
    }
  }
}
