/** The air-gapped viewer: names it accepts, where they land, and the extraction loop. */
module Viewer {
  import opened Common
  import opened FileSystem
  import opened PathNames
  import opened Ustar

  // ---- names ----

  function ForwardSlashes(s: string): (r: string)
    ensures |r| == |s| && forall i :: 0 <= i < |s| ==> r[i] == if s[i] == '\\' then '/' else s[i]
  {
    seq(|s|, i requires 0 <= i < |s| => if s[i] == '\\' then '/' else s[i])
  }

  predicate IsControl(c: char) {
    c == '\0' || c == '\r' || c == '\n'
  }

  predicate SafeTarName(name: string) {
    && name != ""
    && (forall i :: 0 <= i < |name| ==> !IsControl(name[i]))
    && !(|name| >= 2 && name[1] == ':')
    && !("\\\\" <= name) && !("//" <= name)
    && !("/" <= name)
    && ".." !in Split(ForwardSlashes(name))
  }

  predicate IsSeparator(c: char) {
    c == '/' || c == '\\'
  }

  /** Two dots between separators of either kind, or at an end of the name. */
  predicate DotDotAt(name: string, i: int) {
    && 0 <= i && i + 2 <= |name| && name[i] == '.' && name[i + 1] == '.'
    && (i == 0 || IsSeparator(name[i - 1])) && (i + 2 == |name| || IsSeparator(name[i + 2]))
  }

  lemma DotDotIsSegment(name: string, i: int)
    requires 0 <= i <= |name|
    ensures DotDotAt(name, i) <==> SegmentAt(ForwardSlashes(name), i, "..") && (i == 0 || ForwardSlashes(name)[i - 1] == '/')
  {
    var t := ForwardSlashes(name);
    if i + 2 <= |name| {
      assert t[i..i + 2] == [t[i], t[i + 1]];
      assert ".." == ['.', '.'];
    }
  }

  lemma DotDotSegments(name: string)
    ensures ".." in Split(ForwardSlashes(name)) <==> exists i :: DotDotAt(name, i)
  {
    var t := ForwardSlashes(name);
    SplitIsSegments(t, "..");
    assert Split(t) == [Split(t)[0]] + Split(t)[1..];
    DotDotIsSegment(name, 0);
    if i :| DotDotAt(name, i) {
      DotDotIsSegment(name, i);
    }
    if i :| 0 < i <= |t| && t[i - 1] == '/' && SegmentAt(t, i, "..") {
      DotDotIsSegment(name, i);
    }
  }

  lemma Beginnings(name: string)
    ensures "/" <= name <==> name != "" && name[0] == '/'
    ensures "//" <= name ==> "/" <= name
    ensures "\\\\" <= name <==> |name| >= 2 && name[..2] == "\\\\"
  {
    assert "//"[0] == '/';
  }

  /**
    The names that are accepted are exactly those that are not empty, have no
    NUL and no line break, do not begin with a drive letter, a slash or two
    backslashes, and nowhere have two dots between separators.
   */
  lemma AcceptedNames(name: string)
    ensures SafeTarName(name) <==>
      && name != "" && name[0] != '/' && (|name| >= 2 ==> name[1] != ':' && name[..2] != "\\\\")
      && (forall c :: c in name ==> c != '\0' && c != '\r' && c != '\n')
      && (forall i :: !DotDotAt(name, i))
  {
    DotDotSegments(name);
    Beginnings(name);
    assert forall i :: 0 <= i < |name| ==> name[i] in name;
  }

  /** Reading backslashes as slashes only cuts segments further; a segment without one survives. */
  lemma {:induction false} FinerSplit(s: string)
    ensures var p, q := Split(s), Split(ForwardSlashes(s));
      && ('\\' !in p[0] ==> q[0] == p[0])
      && (forall x :: x in p[1..] && '\\' !in x ==> x in q[1..])
  {
    var t := ForwardSlashes(s);
    if s != "" {
      FinerSplit(s[1..]);
      assert t[1..] == ForwardSlashes(s[1..]);
      FinerPrepend(s[0], t[0], Split(s[1..]), Split(t[1..]));
    }
  }

  lemma FinerPrepend(c: char, d: char, p: seq<Name>, q: seq<Name>)
    requires p != [] && q != [] && d == if c == '\\' then '/' else c
    requires '\\' !in p[0] ==> q[0] == p[0]
    requires forall x :: x in p[1..] && '\\' !in x ==> x in q[1..]
    ensures '\\' !in Prepend(c, p)[0] ==> Prepend(d, q)[0] == Prepend(c, p)[0]
    ensures forall x :: x in Prepend(c, p)[1..] && '\\' !in x ==> x in Prepend(d, q)[1..]
  {
    if c == '/' {
      assert p == [p[0]] + p[1..] && q == [q[0]] + q[1..];
    } else if c == '\\' {
      assert c in Prepend(c, p)[0];
      assert q == [q[0]] + q[1..];
    } else if '\\' in p[0] {
      assert '\\' in [c] + p[0];
    }
  }

  lemma NoDotDot(name: string)
    requires SafeTarName(name)
    ensures ".." !in Split(name)
  {
    FinerSplit(name);
    var p, q := Split(name), Split(ForwardSlashes(name));
    assert p == [p[0]] + p[1..] && q == [q[0]] + q[1..];
    assert '\\' !in "..";
  }

  predicate HasPrefix(s: string, prefix: string) {
    prefix <= s
  }

  /** The check after Clean and Join. */
  predicate StaysInside(target: string, absDir: string) {
    HasPrefix(target + "/", absDir + "/") || target == absDir
  }

  /** The file system path of a clean absolute path. */
  function PathOf(absolute: string): Path {
    Elements(Split(absolute))
  }

  /** A name's own elements. */
  function Own(name: string): seq<Name> {
    Elements(Split(name))
  }

  lemma PathOfAbsolute(parts: seq<Name>)
    requires AllPlain(parts)
    ensures PathOf(Absolute(parts)) == parts
  {
    SplitAbsolute(parts);
    FrontElements(parts);
  }

  lemma SecondCheck(base: seq<Name>, own: seq<Name>)
    requires AllPlain(base) && AllPlain(own)
    ensures StaysInside(Absolute(base + own), Absolute(base)) <==> base != [] || own == []
  {
    if own == [] {
      assert base + own == base;
    } else if base == [] {
      JoinNonEmpty(own);
      assert base + own == own;
      SlashSlash(Join(own));
    } else {
      JoinConcat(base, own);
      assert Absolute(base + own) == Absolute(base) + "/" + Join(own);
      BelowIsInside(Absolute(base), Join(own));
    }
  }

  lemma BelowIsInside(dir: string, rest: string)
    ensures StaysInside(dir + "/" + rest, dir)
  {
    assert dir + "/" + rest + "/" == (dir + "/") + (rest + "/");
  }

  lemma SlashSlash(s: string)
    requires s != "" && s[0] != '/'
    ensures !HasPrefix("/" + s + "/", "/" + "/") && "/" + s != "/"
  {
    assert ("/" + s + "/")[1] == s[0] && ("/" + "/")[1] == '/';
    assert |"/" + s| > 1;
  }

  /**
    Lexical containment.  An accepted name lands on the output directory or
    below it, element by element; and the second check rejects an accepted
    name exactly when the output directory is "/" and the name has an element.
   */
  lemma LandsInside(base: seq<Name>, name: string)
    requires AllPlain(base) && SafeTarName(name)
    ensures var target := JoinPath(Absolute(base), Clean(name));
      && PathOf(target) == base + Own(name) && AllPlain(Own(name))
      && (StaysInside(target, Absolute(base)) <==> base != [] || Own(name) == [])
  {
    NoDotDot(name);
    JoinStaysBelow(base, name);
    PathOfAbsolute(base + Own(name));
    SecondCheck(base, Own(name));
  }

  // ---- extraction ----

  datatype Failure = BadArchive | UnsafePath | Escapes | IOError | Refused

  lemma {:induction false} AncestorsAreDirs(files: map<Path, Bytes>, dirs: set<Path>, p: Path)
    requires IsTree(files, dirs) && p in dirs
    ensures Prefixes(p) <= dirs
  {
    if p != [] {
      AncestorsAreDirs(files, dirs, Parent(p));
      forall q | q in Prefixes(p) ensures q in dirs {
        var k :| 0 <= k <= |p| && q == p[..k];
        assert k < |p| ==> q == Parent(p)[..k] && q in Prefixes(Parent(p));
        assert k == |p| ==> q == p;
      }
    }
  }

  lemma PrefixesOutside(base: Path, d: Path)
    requires Under(base, d)
    ensures forall q :: q in Prefixes(d) && !Under(base, q) ==> q in Prefixes(base)
  {
    forall q | q in Prefixes(d) && !Under(base, q) ensures q in Prefixes(base) {
      var k :| 0 <= k <= |d| && q == d[..k];
      assert base == d[..|base|];
      assert k < |base|;
      assert q == base[..k];
    }
  }

  /**
    One archive member.  Whatever it says, nothing outside the output
    directory changes; a regular file with a good name is created with exactly
    the contents that are there, with an error if they are cut short; a
    directory is made; names that are not accepted and anything but files and
    directories are refused and leave the disk alone.
   */
  method ExtractEntry(disk: Disk, base: seq<Name>, h: Header, contents: Bytes) returns (err: Option<Failure>)
    requires disk.Valid() && AllPlain(base) && base in disk.dirs
    modifies disk
    ensures disk.Valid() && base in disk.dirs
    ensures SameOutside(old(disk.files), old(disk.dirs), disk.files, disk.dirs, base)
    ensures !SafeTarName(h.name) ==> err == Some(UnsafePath)
    ensures SafeTarName(h.name) && base == [] && Own(h.name) != [] ==> err == Some(Escapes)
    ensures SafeTarName(h.name) && base != [] && h.typeflag !in "05" ==> err == Some(Refused)
    ensures err in {Some(UnsafePath), Some(Escapes), Some(Refused)} ==>
      disk.files == old(disk.files) && disk.dirs == old(disk.dirs)
    ensures disk.FaultFree() && CanMake(old(disk.files), base, h) ==>
      && err == None && disk.files == old(disk.files)
      && disk.dirs == old(disk.dirs) + Prefixes(base + Own(h.name))
    ensures disk.FaultFree() && CanPlace(old(disk.files), old(disk.dirs), base, h) ==>
      && err == (if |contents| < h.size then Some(BadArchive) else None)
      && disk.files == old(disk.files)[base + Own(h.name) := contents]
      && disk.dirs == old(disk.dirs) + Prefixes(Parent(base + Own(h.name)))
  {
    if !SafeTarName(h.name) {
      return Some(UnsafePath);
    }
    LandsInside(base, h.name);
    var target := JoinPath(Absolute(base), Clean(h.name));
    if !StaysInside(target, Absolute(base)) {
      return Some(Escapes);
    }
    var path := PathOf(target);
    AncestorsAreDirs(disk.files, disk.dirs, base);
    match h.typeflag {
      case '5' =>
        PrefixesOutside(base, path);
        var e := disk.MkdirAll(path);
        err := if e.Ok? then None else Some(IOError);
      case '0' =>
        var dir := if path == [] then [] else Parent(path);
        if Own(h.name) != [] {
          assert Under(base, dir);
          PrefixesOutside(base, dir);
        } else {
          assert dir in Prefixes(base) by { assert dir == base[..|dir|]; }
          assert Prefixes(dir) <= Prefixes(base) by {
            forall q | q in Prefixes(dir) ensures q in Prefixes(base) {
              var k :| 0 <= k <= |dir| && q == dir[..k];
              assert q == base[..k];
            }
          }
        }
        var e := disk.MkdirAll(dir);
        if !e.Ok? {
          return Some(IOError);
        }
        e := disk.WriteFile(path, contents);
        if !e.Ok? {
          return Some(IOError);
        }
        err := if |contents| < h.size then Some(BadArchive) else None;
      case _ =>
        err := Some(Refused);
    }
  }

  /** A directory with a good name and no file in its way. */
  ghost predicate CanMake(files: map<Path, Bytes>, base: seq<Name>, h: Header) {
    SafeTarName(h.name) && base != [] && h.typeflag == '5' && Prefixes(base + Own(h.name)) !! files.Keys
  }

  /** A regular file whose name is good and whose place is free. */
  ghost predicate CanPlace(files: map<Path, Bytes>, dirs: set<Path>, base: seq<Name>, h: Header) {
    && SafeTarName(h.name) && base != [] && Own(h.name) != [] && h.typeflag == '0'
    && base + Own(h.name) !in dirs && Prefixes(Parent(base + Own(h.name))) !! files.Keys
  }

  // ---- what a well-named archive becomes ----

  const META: Name := "meta.json"
  const ATTACHMENTS: Name := "attachments"

  /** Where a file lands below `base`. */
  ghost function Target(base: seq<Name>, f: TarFile): Path {
    base + Own(f.name)
  }

  /** meta.json itself, or a file directly in attachments/. */
  ghost predicate AtItsPlace(f: TarFile, first: bool) {
    && SafeTarName(f.name)
    && if first then Own(f.name) == [META] else |Own(f.name)| == 2 && Own(f.name)[0] == ATTACHMENTS
  }

  /** meta.json first, then files directly in attachments/, no two alike. */
  ghost predicate WellNamed(files: seq<TarFile>) {
    && AllFit(files)
    && (forall i :: 0 <= i < |files| ==> AtItsPlace(files[i], i == 0))
    && (forall i, j :: 0 <= i < j < |files| ==> Own(files[i].name) != Own(files[j].name))
  }

  /** The first `n` files, each at its place below `base`. */
  ghost function Placed(base: seq<Name>, files: seq<TarFile>, n: nat): map<Path, Bytes>
    requires n <= |files|
  {
    if n == 0 then map[] else Placed(base, files, n - 1)[Target(base, files[n - 1]) := files[n - 1].data]
  }

  /** The place of one of the first `n` files. */
  ghost predicate IsPlace(base: seq<Name>, files: seq<TarFile>, n: nat, p: Path)
    requires n <= |files|
  {
    exists i :: 0 <= i < n && p == Target(base, files[i])
  }

  lemma OneMorePlace(base: seq<Name>, files: seq<TarFile>, n: nat, p: Path)
    requires n < |files|
    ensures IsPlace(base, files, n + 1, p) <==> IsPlace(base, files, n, p) || p == Target(base, files[n])
  {
    if i :| 0 <= i < n + 1 && p == Target(base, files[i]) {
      assert i == n || IsPlace(base, files, n, p);
    }
  }

  lemma {:induction false} PlacedOnly(base: seq<Name>, files: seq<TarFile>, n: nat, p: Path)
    requires n <= |files|
    ensures p in Placed(base, files, n) <==> IsPlace(base, files, n, p)
  {
    if n > 0 {
      PlacedOnly(base, files, n - 1, p);
      OneMorePlace(base, files, n - 1, p);
    }
  }

  lemma OtherTarget(base: seq<Name>, f: TarFile, g: TarFile)
    requires Own(f.name) != Own(g.name)
    ensures Target(base, f) != Target(base, g)
  {
    assert Target(base, f)[|base|..] == Own(f.name) && Target(base, g)[|base|..] == Own(g.name);
  }

  /** A map update elsewhere changes nothing here. */
  lemma UpdateElsewhere(m: map<Path, Bytes>, p: Path, q: Path, data: Bytes)
    requires p != q && p in m
    ensures p in m[q := data] && m[q := data][p] == m[p]
  {
  }

  /** Each file's place holds that file's contents. */
  lemma {:induction false} PlacedAt(base: seq<Name>, files: seq<TarFile>, n: nat, i: nat)
    requires i < n <= |files|
    requires forall j :: i < j < n ==> Own(files[i].name) != Own(files[j].name)
    ensures Target(base, files[i]) in Placed(base, files, n)
    ensures Placed(base, files, n)[Target(base, files[i])] == files[i].data
  {
    var last := files[n - 1];
    if i < n - 1 {
      PlacedAt(base, files, n - 1, i);
      OtherTarget(base, files[i], last);
      UpdateElsewhere(Placed(base, files, n - 1), Target(base, files[i]), Target(base, last), last.data);
    }
  }

  ghost function DirsAfter(base: seq<Name>, dirs: set<Path>, n: nat): set<Path> {
    if n > 1 then dirs + {base + [ATTACHMENTS]} else dirs
  }

  /** The output directory exists, is not "/", and is empty. */
  ghost predicate EmptyDir(files: map<Path, Bytes>, dirs: set<Path>, base: seq<Name>) {
    && base != [] && AllPlain(base) && base in dirs
    && forall p :: Under(base, p) && p != base ==> p !in files && p !in dirs
  }

  /** A file at its place needs `base`, and attachments/ if it is not meta.json. */
  lemma ParentOfTarget(base: seq<Name>, f: TarFile, first: bool)
    requires AtItsPlace(f, first)
    ensures var p := Target(base, f);
      && p != [] && |p| > |base| && Under(base, p) && p != base + [ATTACHMENTS]
      && Parent(p) == if first then base else base + [ATTACHMENTS]
  {
    var p := Target(base, f);
    if !first {
      assert Own(f.name) == [ATTACHMENTS, Own(f.name)[1]];
    } else {
      assert p[|base|] == META;
      assert (base + [ATTACHMENTS])[|base|] == ATTACHMENTS;
    }
  }

  lemma NextDirs(files: map<Path, Bytes>, dirs: set<Path>, base: seq<Name>, tar: seq<TarFile>, n: nat)
    requires IsTree(files, dirs) && base in dirs && n < |tar| && AtItsPlace(tar[n], n == 0)
    ensures Target(base, tar[n]) != []
      && DirsAfter(base, dirs, n) + Prefixes(Parent(Target(base, tar[n]))) == DirsAfter(base, dirs, n + 1)
  {
    ParentOfTarget(base, tar[n], n == 0);
    AncestorsAreDirs(files, dirs, base);
    PrefixesSnoc(base, ATTACHMENTS);
    PrefixesClosed(base);
  }

  /** None of the files placed so far is in the way of the next one. */
  lemma NothingInTheWay(files: map<Path, Bytes>, base: seq<Name>, tar: seq<TarFile>, n: nat, q: Path)
    requires n <= |tar| && forall i :: 0 <= i < n ==> AtItsPlace(tar[i], i == 0)
    requires q !in files && |q| <= |base| + 1 && (|q| == |base| + 1 ==> q == base + [ATTACHMENTS])
    ensures q !in files + Placed(base, tar, n)
  {
    PlacedOnly(base, tar, n, q);
    if i :| 0 <= i < n && q == Target(base, tar[i]) {
      ParentOfTarget(base, tar[i], i == 0);
    }
  }

  lemma WayToPlace(files: map<Path, Bytes>, dirs: set<Path>, base: seq<Name>, q: Path)
    requires IsTree(files, dirs) && EmptyDir(files, dirs, base) && q in Prefixes(base) + {base + [ATTACHMENTS]}
    ensures q !in files && |q| <= |base| + 1 && (|q| == |base| + 1 ==> q == base + [ATTACHMENTS])
  {
    AncestorsAreDirs(files, dirs, base);
    assert Under(base, base + [ATTACHMENTS]);
    if q in Prefixes(base) {
      var k :| 0 <= k <= |base| && q == base[..k];
    }
  }

  /** The next file's place is free. */
  lemma NextPlaceFree(files: map<Path, Bytes>, dirs: set<Path>, base: seq<Name>, tar: seq<TarFile>, n: nat)
    requires IsTree(files, dirs) && EmptyDir(files, dirs, base) && n < |tar|
    requires forall i :: 0 <= i <= n ==> AtItsPlace(tar[i], i == 0)
    ensures CanPlace(files + Placed(base, tar, n), DirsAfter(base, dirs, n), base,
                     Header(tar[n].name, '0', |tar[n].data|))
  {
    ParentOfTarget(base, tar[n], n == 0);
    PrefixesSnoc(base, ATTACHMENTS);
    forall q | q in Prefixes(Parent(Target(base, tar[n]))) ensures q !in files + Placed(base, tar, n) {
      WayToPlace(files, dirs, base, q);
      NothingInTheWay(files, base, tar, n, q);
    }
  }

  lemma PrefixesSnoc(base: Path, n: string)
    ensures Prefixes(base + [n]) == Prefixes(base) + {base + [n]}
  {
    var d := base + [n];
    forall q ensures q in Prefixes(d) <==> q in Prefixes(base) + {d} {
      if q in Prefixes(d) {
        var k :| 0 <= k <= |d| && q == d[..k];
        assert k <= |base| ==> q == base[..k];
        assert k == |d| ==> q == d;
      }
      if q in Prefixes(base) {
        var k :| 0 <= k <= |base| && q == base[..k];
        assert q == d[..k];
      }
      assert d == d[..|d|];
    }
  }

  // ---- reading an archive ----

  lemma RecordsStep(files: seq<TarFile>, i: nat)
    requires AllFit(files) && i < |files|
    ensures Records(files[..i + 1]) == Records(files[..i]) + Record(files[i])
  {
    assert files[..i + 1][..i] == files[..i];
  }

  /** What grows by appending begins with what it was. */
  lemma {:induction false} BeginsWithEarlier(p: seq<Bytes>, k: nat, n: nat)
    requires k <= n < |p| && forall i :: 0 <= i < |p| - 1 ==> p[i] <= p[i + 1]
    ensures p[k] <= p[n]
    decreases n - k
  {
    if k < n {
      BeginsWithEarlier(p, k + 1, n);
      assert p[k] <= p[k + 1] <= p[n];
    }
  }

  /** The records of the first file, of the first two, and so on. */
  ghost function Growing(files: seq<TarFile>): (p: seq<Bytes>)
    requires AllFit(files)
    ensures |p| == |files| + 1 && forall i :: 0 <= i <= |files| ==> p[i] == Records(files[..i])
  {
    seq(|files| + 1, i requires 0 <= i <= |files| => Records(files[..i]))
  }

  lemma GrowsAt(files: seq<TarFile>, i: nat)
    requires AllFit(files) && i < |files|
    ensures Growing(files)[i] <= Growing(files)[i + 1]
  {
    RecordsStep(files, i);
  }

  lemma Grows(p: seq<Bytes>, files: seq<TarFile>)
    requires AllFit(files) && p == Growing(files)
    ensures forall i :: 0 <= i < |p| - 1 ==> p[i] <= p[i + 1]
  {
    forall i | 0 <= i < |p| - 1 ensures p[i] <= p[i + 1] {
      GrowsAt(files, i);
    }
  }

  lemma StartsWith(files: seq<TarFile>, k: nat)
    requires AllFit(files) && k <= |files|
    ensures Records(files[..k]) <= Records(files)
  {
    Grows(Growing(files), files);
    BeginsWithEarlier(Growing(files), k, |files|);
    assert files[..|files|] == files;
  }

  lemma TheRest(front: Bytes, whole: Bytes) returns (post: Bytes)
    requires front <= whole
    ensures whole == front + post
  {
    post := whole[|front|..];
  }

  lemma RecordsFrom(files: seq<TarFile>, k: nat) returns (post: Bytes)
    requires AllFit(files) && k <= |files|
    ensures Records(files) == Records(files[..k]) + post
  {
    StartsWith(files, k);
    post := TheRest(Records(files[..k]), Records(files));
  }

  /** An archive seen from one of its records. */
  lemma AroundRecord(files: seq<TarFile>, i: nat, tail: Bytes) returns (post: Bytes)
    requires AllFit(files) && i < |files|
    ensures Archive(files) + tail == Records(files[..i]) + Record(files[i]) + post
  {
    var rest := RecordsFrom(files, i + 1);
    var zeros := Zeros(2 * BLOCK);
    RecordsStep(files, i);
    post := rest + zeros + tail;
    Regroup(Records(files[..i]) + Record(files[i]), rest, zeros, tail);
  }

  lemma Regroup(a: Bytes, b: Bytes, c: Bytes, d: Bytes)
    ensures a + b + c + d == a + (b + c + d)
  {
  }

  /** What the reader finds in an archive, record after record. */
  lemma ReadsFile(files: seq<TarFile>, i: nat, tail: Bytes)
    requires AllFit(files) && i < |files|
    ensures ReadsAt(Archive(files) + tail, |Records(files[..i])|, files[i], |Records(files[..i + 1])|)
  {
    var post := AroundRecord(files, i, tail);
    RecordsStep(files, i);
    ReadsRecord(Records(files[..i]), files[i], post);
    assert |Records(files[..i]) + Record(files[i])| == |Records(files[..i + 1])|;
  }

  lemma ReadsAllFiles(files: seq<TarFile>, tail: Bytes)
    requires AllFit(files)
    ensures NextEntry(Archive(files) + tail, |Records(files[..|files|])|) == End
  {
    assert files[..|files|] == files;
    ReadsEnd(Records(files), tail);
  }

  /** `i` files of the archive have been read up to `pos` and stand at their places. */
  ghost predicate Extracted(files: map<Path, Bytes>, dirs: set<Path>, files0: map<Path, Bytes>, dirs0: set<Path>,
                            base: seq<Name>, tar: seq<TarFile>, i: nat, pos: nat)
    requires AllFit(tar)
  {
    && i <= |tar| && pos == |Records(tar[..i])|
    && files == files0 + Placed(base, tar, i)
    && dirs == DirsAfter(base, dirs0, i)
  }

  lemma OneMoreExtracted(files0: map<Path, Bytes>, dirs0: set<Path>, base: seq<Name>, tar: seq<TarFile>, i: nat)
    requires IsTree(files0, dirs0) && base in dirs0 && AllFit(tar) && i < |tar| && AtItsPlace(tar[i], i == 0)
    ensures Target(base, tar[i]) != []
      && Extracted((files0 + Placed(base, tar, i))[Target(base, tar[i]) := tar[i].data],
                   DirsAfter(base, dirs0, i) + Prefixes(Parent(Target(base, tar[i]))),
                   files0, dirs0, base, tar, i + 1, |Records(tar[..i + 1])|)
  {
    NextDirs(files0, dirs0, base, tar, i);
    var m, p := Placed(base, tar, i), Target(base, tar[i]);
    assert (files0 + m)[p := tar[i].data] == files0 + m[p := tar[i].data];
  }

  /** One turn of the loop: read the next entry, extract it, move behind it. */
  method ExtractNext(disk: Disk, data: Bytes, base: seq<Name>, pos: nat)
    returns (err: Option<Failure>, done: bool, next: nat)
    requires disk.Valid() && AllPlain(base) && base in disk.dirs
    modifies disk
    ensures disk.Valid() && base in disk.dirs
    ensures SameOutside(old(disk.files), old(disk.dirs), disk.files, disk.dirs, base)
    ensures !done ==> err == None && pos < next && pos < |data|
    ensures NextEntry(data, pos) == End ==>
      done && err == None && disk.files == old(disk.files) && disk.dirs == old(disk.dirs)
    ensures NextEntry(data, pos) == Malformed ==>
      done && err == Some(BadArchive) && disk.files == old(disk.files) && disk.dirs == old(disk.dirs)
    ensures disk.FaultFree() ==> forall f: TarFile, n: nat ::
      ReadsAt(data, pos, f, n) && CanPlace(old(disk.files), old(disk.dirs), base, HeaderOf(f)) ==>
        && !done && next == n
        && disk.files == old(disk.files)[Target(base, f) := f.data]
        && disk.dirs == old(disk.dirs) + Prefixes(Parent(Target(base, f)))
  {
    err, done, next := None, true, pos;
    var entry := NextEntry(data, pos);
    match entry {
      case End =>
      case Malformed =>
        err := Some(BadArchive);
      case Item(h, start) =>
        var end := if start + h.size <= |data| then start + h.size else |data|;
        forall f: TarFile, n: nat | ReadsAt(data, pos, f, n)
          ensures h == HeaderOf(f) && data[start..end] == f.data && Skip(entry) == n
        {
        }
        err := ExtractEntry(disk, base, h, data[start..end]);
        done, next := err.Some?, Skip(entry);
    }
  }

  /** Of an archive with `i` files extracted, a turn extracts the next one, or finds the end. */
  method ExtractTurn(disk: Disk, data: Bytes, base: seq<Name>, pos: nat, ghost f0: map<Path, Bytes>, ghost d0: set<Path>,
                     ghost tar: seq<TarFile>, ghost tail: Bytes, ghost i: nat, ghost ours: bool)
    returns (err: Option<Failure>, done: bool, next: nat)
    requires disk.Valid() && AllPlain(base) && base in disk.dirs
    requires ours ==> disk.FaultFree() && IsArchive(data, tar, tail) && IsTree(f0, d0) && EmptyDir(f0, d0, base)
    requires ours ==> Extracted(disk.files, disk.dirs, f0, d0, base, tar, i, pos)
    modifies disk
    ensures disk.Valid() && base in disk.dirs
    ensures SameOutside(old(disk.files), old(disk.dirs), disk.files, disk.dirs, base)
    ensures !done ==> err == None && pos < next && pos < |data|
    ensures ours && done ==>
      err == None && i == |tar| && disk.files == old(disk.files) && disk.dirs == old(disk.dirs)
    ensures ours && !done ==> Extracted(disk.files, disk.dirs, f0, d0, base, tar, i + 1, next)
  {
    if ours {
      if i < |tar| {
        assert AtItsPlace(tar[i], i == 0);
        ReadsFile(tar, i, tail);
        NextPlaceFree(f0, d0, base, tar, i);
        OneMoreExtracted(f0, d0, base, tar, i);
      } else {
        ReadsAllFiles(tar, tail);
      }
    }
    err, done, next := ExtractNext(disk, data, base, pos);
  }

  /**
    extractTar.  For every byte string whatsoever nothing outside the output
    directory changes.  For an archive of well-named files, whatever follows
    its end, extraction into an empty directory succeeds and places exactly
    those files.
   */
  method ExtractTar(disk: Disk, data: Bytes, base: seq<Name>, ghost tar: seq<TarFile>, ghost tail: Bytes)
    returns (err: Option<Failure>)
    requires disk.Valid() && AllPlain(base) && base in disk.dirs
    modifies disk
    ensures disk.Valid() && base in disk.dirs
    ensures SameOutside(old(disk.files), old(disk.dirs), disk.files, disk.dirs, base)
    ensures disk.FaultFree() && IsArchive(data, tar, tail) && EmptyDir(old(disk.files), old(disk.dirs), base) ==>
      && err == None
      && disk.files == old(disk.files) + Placed(base, tar, |tar|)
      && disk.dirs == DirsAfter(base, old(disk.dirs), |tar|)
  {
    ghost var f0, d0 := disk.files, disk.dirs;
    ghost var ours := disk.FaultFree() && IsArchive(data, tar, tail) && EmptyDir(f0, d0, base);
    ghost var i := 0;
    var pos := 0;
    while true
      invariant disk.Valid() && base in disk.dirs
      invariant SameOutside(f0, d0, disk.files, disk.dirs, base)
      invariant ours ==> Extracted(disk.files, disk.dirs, f0, d0, base, tar, i, pos)
      decreases |data| - pos
    {
      var done;
      err, done, pos := ExtractTurn(disk, data, base, pos, f0, d0, tar, tail, i, ours);
      if done {
        return;
      }
      i := i + 1;
    }
  }

  ghost predicate IsArchive(data: Bytes, tar: seq<TarFile>, tail: Bytes) {
    WellNamed(tar) && data == Archive(tar) + tail
  }
}
