/**
  A file tree under the data directory, with the os calls the store makes.
  Paths are lists of segments.  Every call consults `fate`.  A process that dies
  at call k is one whose calls fail from k on until the next process starts,
  since nothing else it would have done reaches the disk.
 */
module FileSystem {
  import opened Common

  type Path = seq<string>

  datatype Fate = Works | Fails | Tears(left: Bytes)

  datatype Err = Ok | NotExist | Fault

  datatype DirEntry = DirEntry(name: string, isDir: bool)

  /** A file that was removed, with the contents it had at that moment. */
  datatype Unlinked = Unlinked(path: Path, content: Bytes)

  function Parent(p: Path): Path
    requires p != []
  {
    p[..|p| - 1]
  }

  /** Every file and directory sits in a directory, up to the root. */
  ghost predicate IsTree(files: map<Path, Bytes>, dirs: set<Path>) {
    && [] in dirs
    && (forall p :: p in files ==> p != [] && p !in dirs)
    && (forall p {:trigger Parent(p)} :: p != [] && (p in files || p in dirs) ==> Parent(p) in dirs)
  }

  /** `p` is `d` itself or lies below it. */
  predicate Under(d: Path, p: Path) {
    d <= p
  }

  /** Nothing at or below `d`. */
  ghost predicate Gone(files: map<Path, Bytes>, dirs: set<Path>, d: Path) {
    forall p :: Under(d, p) ==> p !in files && p !in dirs
  }

  /** Both trees agree on every path at or below `d`. */
  ghost predicate SameUnder(files: map<Path, Bytes>, dirs: set<Path>,
                            files': map<Path, Bytes>, dirs': set<Path>, d: Path) {
    forall p :: Under(d, p) ==>
      (p in files' <==> p in files) && (p in files ==> files'[p] == files[p]) && (p in dirs' <==> p in dirs)
  }

  /** Both trees agree on every other path. */
  ghost predicate SameOutside(files: map<Path, Bytes>, dirs: set<Path>,
                              files': map<Path, Bytes>, dirs': set<Path>, d: Path) {
    forall p :: !Under(d, p) ==>
      (p in files' <==> p in files) && (p in files ==> files'[p] == files[p]) && (p in dirs' <==> p in dirs)
  }

  ghost function DirsUnder(dirs: set<Path>, d: Path): set<Path> {
    set p | p in dirs && Under(d, p)
  }

  function Children(files: map<Path, Bytes>, dirs: set<Path>, d: Path): set<string> {
    (set p | p in files && |p| == |d| + 1 && d <= p :: p[|d|]) + (set p | p in dirs && |p| == |d| + 1 && d <= p :: p[|d|])
  }

  lemma ChildrenAre(files: map<Path, Bytes>, dirs: set<Path>, d: Path, n: string)
    ensures n in Children(files, dirs, d) <==> d + [n] in files || d + [n] in dirs
  {
    var p := d + [n];
    assert |p| == |d| + 1 && d <= p && p[|d|] == n;
    if n in Children(files, dirs, d) {
      var q :| (q in files || q in dirs) && |q| == |d| + 1 && d <= q && q[|d|] == n;
      assert q == p;
    }
  }

  /** In a tree, the way down to a path below `d` starts with a child of `d`. */
  lemma {:induction false} FirstChild(files: map<Path, Bytes>, dirs: set<Path>, d: Path, p: Path)
    requires IsTree(files, dirs) && (p in files || p in dirs)
    requires d <= p && d != p
    ensures d + [p[|d|]] in files || d + [p[|d|]] in dirs
    decreases |p|
  {
    if |p| == |d| + 1 {
      assert p == d + [p[|d|]];
    } else {
      FirstChild(files, dirs, d, Parent(p));
    }
  }

  lemma EmptyIsGone(files: map<Path, Bytes>, dirs: set<Path>, d: Path)
    requires IsTree(files, dirs) && d !in files && d !in dirs
    ensures Gone(files, dirs, d)
  {
    forall p | Under(d, p) ensures p !in files && p !in dirs {
      if p != d && (p in files || p in dirs) {
        UpToDir(files, dirs, d, p);
      }
    }
  }

  lemma {:induction false} UpToDir(files: map<Path, Bytes>, dirs: set<Path>, d: Path, p: Path)
    requires IsTree(files, dirs) && (p in files || p in dirs)
    requires d <= p && d != p
    ensures d in dirs
    decreases |p|
  {
    if |p| == |d| + 1 {
      assert Parent(p) == d;
    } else {
      UpToDir(files, dirs, d, Parent(p));
    }
  }

  /** `d` and every directory above it. */
  function Prefixes(d: Path): set<Path> {
    set k | 0 <= k <= |d| :: d[..k]
  }

  lemma PrefixesClosed(d: Path)
    ensures [] in Prefixes(d) && d in Prefixes(d)
    ensures forall p :: p in Prefixes(d) && p != [] ==> Parent(p) in Prefixes(d)
  {
    assert d[..0] == [] && d[..|d|] == d;
    forall p | p in Prefixes(d) && p != [] ensures Parent(p) in Prefixes(d) {
      var k :| 0 <= k <= |d| && p == d[..k];
      assert Parent(p) == d[..k - 1];
    }
  }

  class Disk {
    var files: map<Path, Bytes>
    var dirs: set<Path>
    var calls: nat
    const fate: nat -> Fate
    ghost var log: seq<Unlinked>

    ghost predicate Valid()
      reads this
    {
      IsTree(files, dirs)
    }

    ghost predicate FaultFree() {
      forall n :: fate(n).Works?
    }

    constructor (fate: nat -> Fate)
      ensures Valid() && files == map[] && dirs == {[]} && this.fate == fate && log == []
    {
      files, dirs, calls := map[], {[]}, 0;
      this.fate := fate;
      log := [];
    }

    method Next() returns (f: Fate)
      modifies this`calls
      ensures f == fate(old(calls)) && calls == old(calls) + 1
    {
      f := fate(calls);
      calls := calls + 1;
    }

    method ReadFile(p: Path) returns (err: Err, data: Bytes)
      requires Valid()
      modifies this`calls
      ensures err.Ok? ==> p in files && data == files[p]
      ensures FaultFree() ==> (err.Ok? <==> p in files)
    {
      var f := Next();
      data := [];
      if !f.Works? || p in dirs {
        err := Fault;
      } else if p in files {
        err, data := Ok, files[p];
      } else {
        err := NotExist;
      }
    }

    method Stat(p: Path) returns (err: Err, size: nat)
      modifies this`calls
      ensures calls == old(calls) + 1 && (p in files ==> (err.Ok? <==> fate(old(calls)).Works?))
      ensures err.Ok? && p in files ==> size == |files[p]|
      ensures err.NotExist? ==> p !in files && p !in dirs
      ensures FaultFree() && p in files ==> err.Ok?
    {
      var f := Next();
      size := 0;
      if !f.Works? {
        err := Fault;
      } else if p in files {
        err, size := Ok, |files[p]|;
      } else {
        err := if p in dirs then Ok else NotExist;
      }
    }

    /** os.WriteFile: create or truncate; a torn write leaves whatever it got to. */
    method WriteFile(p: Path, data: Bytes) returns (err: Err)
      requires Valid()
      modifies this`calls, this`files
      ensures Valid() && calls == old(calls) + 1
      ensures p != [] && p !in dirs && Parent(p) in dirs ==> (err.Ok? <==> fate(old(calls)).Works?)
      ensures forall q :: q != p ==> (q in files <==> q in old(files)) && (q in files ==> files[q] == old(files)[q])
      ensures err.Ok? ==> files == old(files)[p := data]
      ensures files.Keys == old(files.Keys) || files.Keys == old(files.Keys) + {p}
      ensures p !in old(files) && (p == [] || Parent(p) !in dirs) ==> !err.Ok? && files == old(files)
      ensures FaultFree() && p != [] && Parent(p) in dirs && p !in dirs ==> err.Ok?
    {
      var f := Next();
      if p == [] || p in dirs {
        err := Fault;
      } else if Parent(p) !in dirs {
        err := NotExist;
      } else {
        match f
        case Works => files, err := files[p := data], Ok;
        case Fails => err := Fault;
        case Tears(left) => files, err := files[p := left], Fault;
      }
    }

    /** os.Remove: a file, or an empty directory. */
    method Remove(p: Path) returns (err: Err)
      requires Valid() && p != []
      modifies this`calls, this`files, this`dirs, this`log
      ensures Valid()
      ensures err.Ok? ==> p in old(files) || (p in old(dirs) && Children(old(files), old(dirs), p) == {})
      ensures err.Ok? ==> files == old(files) - {p} && dirs == old(dirs) - {p}
      ensures !err.Ok? ==> files == old(files) && dirs == old(dirs)
      ensures err.NotExist? ==> p !in files && p !in dirs
      ensures log == if err.Ok? && p in old(files) then old(log) + [Unlinked(p, old(files)[p])] else old(log)
      ensures FaultFree() && p in old(files) ==> err.Ok?
      ensures FaultFree() && p in old(dirs) && Children(old(files), old(dirs), p) == {} ==> err.Ok?
    {
      var f := Next();
      if !f.Works? {
        err := Fault;
      } else if p in files {
        log := log + [Unlinked(p, files[p])];
        files, err := files - {p}, Ok;
      } else if p !in dirs {
        err := NotExist;
      } else if Children(files, dirs, p) == {} {
        forall q | q in files || (q in dirs && q != []) ensures Parent(q) != p {
          if Parent(q) == p {
            assert q == p + [q[|p|]];
            ChildrenAre(files, dirs, p, q[|p|]);
          }
        }
        dirs, err := dirs - {p}, Ok;
      } else {
        err := Fault;
      }
    }

    /** os.MkdirAll: the directory and every missing one above it. */
    method MkdirAll(d: Path) returns (err: Err)
      requires Valid()
      modifies this`calls, this`dirs
      ensures Valid() && calls == old(calls) + 1
      ensures err.Ok? ==> d in dirs && dirs == old(dirs) + Prefixes(d)
      ensures !err.Ok? ==> dirs == old(dirs)
      ensures Prefixes(d) !! files.Keys ==> (err.Ok? <==> fate(old(calls)).Works?)
    {
      var f := Next();
      if !f.Works? || Prefixes(d) * files.Keys != {} {
        err := Fault;
      } else {
        PrefixesClosed(d);
        assert forall p :: p in Prefixes(d) ==> p !in Prefixes(d) * files.Keys;
        dirs, err := dirs + Prefixes(d), Ok;
      }
    }

    /** os.RemoveAll; a missing tree is not an error. */
    method RemoveAll(d: Path) returns (err: Err)
      requires Valid() && d != []
      modifies this`calls, this`files, this`dirs
      ensures Valid() && !err.NotExist? && calls == old(calls) + 1
      ensures err.Ok? <==> fate(old(calls)).Works?
      ensures err.Ok? ==> Gone(files, dirs, d)
      ensures SameOutside(old(files), old(dirs), files, dirs, d)
      ensures dirs <= old(dirs) && files.Keys <= old(files.Keys)
      ensures FaultFree() ==> err.Ok?
    {
      var f := Next();
      if !f.Works? {
        err := Fault;
      } else {
        files := map p | p in files && !Under(d, p) :: files[p];
        dirs := set p | p in dirs && !Under(d, p);
        err := Ok;
      }
    }

    /** os.ReadDir, in any order. */
    method ReadDir(d: Path) returns (err: Err, entries: seq<DirEntry>)
      requires Valid()
      modifies this`calls
      ensures err.NotExist? ==> d !in files && d !in dirs
      ensures err.Ok? ==> d in dirs && Lists(entries, d)
      ensures FaultFree() && d in dirs ==> err.Ok?
      ensures FaultFree() && d !in files ==> !err.Fault?
    {
      var f := Next();
      entries := [];
      if !f.Works? || d in files {
        err := Fault;
      } else if d !in dirs {
        err := NotExist;
      } else {
        err := Ok;
        var left := Children(files, dirs, d);
        while left != {}
          invariant Names(entries) + left == Children(files, dirs, d)
          invariant Names(entries) !! left
          invariant forall e :: e in entries ==> if e.isDir then d + [e.name] in dirs else d + [e.name] in files
          invariant forall i, j :: 0 <= i < j < |entries| ==> entries[i].name != entries[j].name
          decreases left
        {
          var n :| n in left;
          ChildrenAre(files, dirs, d, n);
          NamesSnoc(entries, DirEntry(n, d + [n] in dirs));
          assert forall i :: 0 <= i < |entries| ==> entries[i] in entries && entries[i].name in Names(entries);
          entries := entries + [DirEntry(n, d + [n] in dirs)];
          left := left - {n};
        }
      }
    }

    /** The entries are exactly what `d` holds, each once and of its kind. */
    ghost predicate Lists(entries: seq<DirEntry>, d: Path)
      reads this
    {
      && Names(entries) == Children(files, dirs, d)
      && (forall e :: e in entries ==> if e.isDir then d + [e.name] in dirs else d + [e.name] in files)
      && (forall i, j :: 0 <= i < j < |entries| ==> entries[i].name != entries[j].name)
    }
  }

  ghost function Names(entries: seq<DirEntry>): set<string> {
    set e | e in entries :: e.name
  }

  lemma NamesSnoc(entries: seq<DirEntry>, e: DirEntry)
    ensures Names(entries + [e]) == Names(entries) + {e.name}
  {
    assert forall x :: x in entries + [e] <==> x in entries || x == e;
  }
}
