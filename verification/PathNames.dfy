/** path/filepath on Unix: the lexical rules the viewer relies on. */
module PathNames {

  type Name = string

  /** One more character in front of a split text. */
  function Prepend(c: char, r: seq<Name>): seq<Name>
    requires r != []
  {
    if c == '/' then [""] + r else [[c] + r[0]] + r[1..]
  }

  /** strings.Split(s, "/") */
  function Split(s: string): (r: seq<Name>)
    ensures r != []
  {
    if s == "" then [""] else Prepend(s[0], Split(s[1..]))
  }

  /** strings.Join(parts, "/") */
  function Join(parts: seq<Name>): string {
    if parts == [] then ""
    else if |parts| == 1 then parts[0]
    else parts[0] + "/" + Join(parts[1..])
  }

  predicate IsPlain(n: Name) {
    n != "" && n != "." && n != ".." && '/' !in n
  }

  predicate AllPlain(parts: seq<Name>) {
    forall i :: 0 <= i < |parts| ==> IsPlain(parts[i])
  }

  /** What Clean keeps of the elements, left to right: "" and "." go, ".." takes back one element. */
  function Resolve(parts: seq<Name>, rooted: bool): seq<Name> {
    if parts == [] then []
    else
      var out, p := Resolve(parts[..|parts| - 1], rooted), parts[|parts| - 1];
      if p == "" || p == "." then out
      else if p != ".." then out + [p]
      else if out != [] && out[|out| - 1] != ".." then out[..|out| - 1]
      else if rooted then out
      else out + [p]
  }

  /** filepath.Clean */
  function Clean(s: string): string {
    var rooted := s != "" && s[0] == '/';
    var out := (if rooted then "/" else "") + Join(Resolve(Split(s), rooted));
    if out == "" then "." else out
  }

  /** filepath.Join of two non-empty paths. */
  function JoinPath(a: string, b: string): string {
    Clean(a + "/" + b)
  }

  /** A clean absolute path, given by its elements. */
  function Absolute(parts: seq<Name>): string {
    "/" + Join(parts)
  }

  /** The elements that make up a relative name without "..". */
  function Elements(parts: seq<Name>): (r: seq<Name>) {
    if parts == [] then []
    else
      var p := parts[|parts| - 1];
      Elements(parts[..|parts| - 1]) + (if p == "" || p == "." then [] else [p])
  }

  // ---- Split and Join are inverse ----

  lemma {:induction false} NoSlashInside(s: string)
    ensures forall i :: 0 <= i < |Split(s)| ==> '/' !in Split(s)[i]
  {
    if s != "" {
      NoSlashInside(s[1..]);
    }
  }

  /** From `i` on the text reads `x` up to a slash or the end. */
  predicate SegmentAt(s: string, i: int, x: Name) {
    0 <= i && i + |x| <= |s| && s[i..i + |x|] == x && (i + |x| == |s| || s[i + |x|] == '/')
  }

  /** A later segment begins behind a slash. */
  ghost predicate LaterSegment(s: string, x: Name) {
    exists i :: 0 < i <= |s| && s[i - 1] == '/' && SegmentAt(s, i, x)
  }

  lemma SegmentShift(c: char, s: string, i: int, x: Name)
    requires i >= 0
    ensures SegmentAt([c] + s, i + 1, x) <==> SegmentAt(s, i, x)
  {
    if i + |x| <= |s| {
      assert ([c] + s)[i + 1..i + 1 + |x|] == s[i..i + |x|];
    }
  }

  lemma LaterShift(c: char, s: string, x: Name)
    ensures LaterSegment([c] + s, x) <==> LaterSegment(s, x) || (c == '/' && SegmentAt(s, 0, x))
  {
    var t := [c] + s;
    if i :| 0 < i <= |t| && t[i - 1] == '/' && SegmentAt(t, i, x) {
      SegmentShift(c, s, i - 1, x);
      assert i > 1 ==> s[i - 2] == '/';
    }
    if i :| 0 < i <= |s| && s[i - 1] == '/' && SegmentAt(s, i, x) {
      SegmentShift(c, s, i, x);
      assert t[i] == '/';
    }
    if c == '/' && SegmentAt(s, 0, x) {
      SegmentShift(c, s, 0, x);
      assert t[0] == '/';
    }
  }

  lemma FirstShift(c: char, s: string, x: Name)
    requires c != '/'
    ensures SegmentAt([c] + s, 0, x) <==> x != "" && x[0] == c && SegmentAt(s, 0, x[1..])
  {
    if x != "" && |x| <= |s| + 1 {
      assert ([c] + s)[0..|x|] == [c] + s[0..|x| - 1];
      assert x == [x[0]] + x[1..];
    }
  }

  /** The segments of a text are what stands between its slashes. */
  lemma {:induction false} SplitIsSegments(s: string, x: Name)
    requires '/' !in x
    ensures Split(s)[0] == x <==> SegmentAt(s, 0, x)
    ensures x in Split(s)[1..] <==> LaterSegment(s, x)
  {
    if s != "" {
      var c, r := s[0], s[1..];
      assert s == [c] + r;
      LaterShift(c, r, x);
      SplitIsSegments(r, x);
      assert Split(r) == [Split(r)[0]] + Split(r)[1..];
      if c == '/' {
        assert SegmentAt(s, 0, x) <==> x == "" by {
          assert x != "" ==> x[0] in x;
        }
      } else {
        FirstShift(c, r, x);
        if x != "" {
          assert forall d :: d in x[1..] ==> d in x;
          SplitIsSegments(r, x[1..]);
          assert x == [x[0]] + x[1..];
        }
      }
    }
  }

  lemma {:induction false} SplitConcat(a: string, b: string)
    ensures Split(a + "/" + b) == Split(a) + Split(b)
  {
    if a == "" {
      assert a + "/" + b == ['/'] + b;
      SplitCons('/', b);
    } else {
      SplitConcat(a[1..], b);
      SplitCons(a[0], a[1..] + "/" + b);
      assert a + "/" + b == [a[0]] + (a[1..] + "/" + b);
      PrependConcat(a[0], Split(a[1..]), Split(b));
    }
  }

  lemma PrependConcat(c: char, r: seq<Name>, q: seq<Name>)
    requires r != []
    ensures Prepend(c, r + q) == Prepend(c, r) + q
  {
    assert (r + q)[1..] == r[1..] + q;
  }

  lemma SplitCons(c: char, s: string)
    ensures Split([c] + s) == Prepend(c, Split(s))
  {
    assert ([c] + s)[1..] == s;
  }

  lemma {:induction false} SplitOne(n: Name)
    requires '/' !in n
    ensures Split(n) == [n]
  {
    if n != "" {
      assert forall c :: c in n[1..] ==> c in n;
      SplitOne(n[1..]);
      SplitCons(n[0], n[1..]);
      assert n == [n[0]] + n[1..];
    }
  }

  lemma {:induction false} SplitJoin(parts: seq<Name>)
    requires parts != [] && forall i :: 0 <= i < |parts| ==> '/' !in parts[i]
    ensures Split(Join(parts)) == parts
  {
    SplitOne(parts[0]);
    if |parts| > 1 {
      SplitJoin(parts[1..]);
      SplitConcat(parts[0], Join(parts[1..]));
    }
  }

  lemma {:induction false} JoinConcat(a: seq<Name>, b: seq<Name>)
    requires a != [] && b != []
    ensures Join(a + b) == Join(a) + "/" + Join(b)
  {
    if |a| == 1 {
      assert (a + b)[1..] == b;
    } else {
      JoinConcat(a[1..], b);
      assert (a + b)[1..] == a[1..] + b;
    }
  }

  lemma {:induction false} ResolveElements(parts: seq<Name>, rooted: bool)
    requires ".." !in parts
    ensures Resolve(parts, rooted) == Elements(parts)
  {
    if parts != [] {
      ResolveElements(parts[..|parts| - 1], rooted);
    }
  }

  /** ".." takes back the element before it, stays out at the root, and is kept where there is nothing to take back. */
  lemma DotDotTakesBack(parts: seq<Name>, n: Name, rooted: bool)
    requires IsPlain(n)
    ensures Resolve(parts + [n, ".."], rooted) == Resolve(parts, rooted)
    ensures Resolve(parts, rooted) == [] ==> Resolve(parts + [".."], rooted) == if rooted then [] else [".."]
  {
    assert (parts + [n, ".."])[..|parts| + 1] == parts + [n];
    assert (parts + [n])[..|parts|] == parts && (parts + [".."])[..|parts|] == parts;
  }

  lemma {:induction false} ElementsPlain(parts: seq<Name>)
    requires ".." !in parts && forall i :: 0 <= i < |parts| ==> '/' !in parts[i]
    ensures AllPlain(Elements(parts))
    ensures Elements(Elements(parts)) == Elements(parts)
  {
    if parts != [] {
      ElementsPlain(parts[..|parts| - 1]);
      var e := Elements(parts);
      if e != Elements(parts[..|parts| - 1]) {
        assert e[..|e| - 1] == Elements(parts[..|parts| - 1]);
      }
    }
  }

  lemma {:induction false} ElementsConcat(a: seq<Name>, b: seq<Name>)
    ensures Elements(a + b) == Elements(a) + Elements(b)
  {
    if b == [] {
      assert a + b == a;
    } else {
      assert (a + b)[..|a + b| - 1] == a + b[..|b| - 1];
      ElementsConcat(a, b[..|b| - 1]);
    }
  }

  lemma SplitAbsolute(parts: seq<Name>)
    requires AllPlain(parts)
    ensures Split(Absolute(parts)) == Front(parts)
  {
    SplitConcat("", Join(parts));
    assert "" + "/" + Join(parts) == Absolute(parts);
    if parts != [] {
      SplitJoin(parts);
    }
  }

  lemma CleanRooted(s: string)
    requires s != "" && s[0] == '/'
    ensures Clean(s) == Absolute(Resolve(Split(s), true))
  {
  }

  lemma JoinElements(base: seq<Name>, name: string)
    requires AllPlain(base) && ".." !in Split(name)
    ensures JoinPath(Absolute(base), name) == Absolute(base + Elements(Split(name)))
  {
    var whole := Absolute(base) + "/" + name;
    assert whole[0] == '/';
    CleanRooted(whole);
    SplitConcat(Absolute(base), name);
    SplitAbsolute(base);
    RootedFront(base, Split(name));
  }

  /**
    Clean, then Join: a relative name without ".." lands on the directory's
    elements followed by its own, nothing more.
   */
  lemma JoinStaysBelow(base: seq<Name>, name: string)
    requires AllPlain(base) && name != "" && name[0] != '/' && ".." !in Split(name)
    ensures var own := Elements(Split(name));
      AllPlain(own) && JoinPath(Absolute(base), Clean(name)) == Absolute(base + own)
  {
    NoSlashInside(name);
    ElementsPlain(Split(name));
    CleanRelative(name);
    JoinElements(base, Clean(name));
  }

  /** Clean of such a name keeps its elements. */
  lemma CleanRelative(name: string)
    requires name != "" && name[0] != '/' && ".." !in Split(name)
    ensures Elements(Split(Clean(name))) == Elements(Split(name)) && ".." !in Split(Clean(name))
  {
    var own := Elements(Split(name));
    NoSlashInside(name);
    ElementsPlain(Split(name));
    ResolveElements(Split(name), false);
    if own == [] {
      SplitOne(".");
      assert Clean(name) == ".";
      assert Elements(["."]) == [];
    } else {
      JoinNonEmpty(own);
      SplitJoin(own);
      assert "" + Join(own) == Join(own);
      assert Clean(name) == Join(own);
    }
  }

  /** The elements of a clean absolute path, once more split off its text. */
  function Front(base: seq<Name>): seq<Name> {
    [""] + (if base == [] then [""] else base)
  }

  lemma RootedFront(base: seq<Name>, parts: seq<Name>)
    requires AllPlain(base) && ".." !in parts
    ensures Resolve(Front(base) + parts, true) == base + Elements(parts)
  {
    ResolveElements(Front(base) + parts, true);
    ElementsConcat(Front(base), parts);
    FrontElements(base);
  }

  lemma FrontElements(base: seq<Name>)
    requires AllPlain(base)
    ensures Elements(Front(base)) == base
  {
    ElementsConcat([""], if base == [] then [""] else base);
    ElementsOfPlain(base);
    assert Elements([""]) == [];
  }

  lemma {:induction false} ElementsOfPlain(parts: seq<Name>)
    requires AllPlain(parts)
    ensures Elements(parts) == parts
  {
    if parts != [] {
      ElementsOfPlain(parts[..|parts| - 1]);
    }
  }

  lemma JoinNonEmpty(parts: seq<Name>)
    requires AllPlain(parts) && parts != []
    ensures Join(parts) != "" && Join(parts)[0] != '/'
  {
    assert parts[0][0] in parts[0];
  }
}
