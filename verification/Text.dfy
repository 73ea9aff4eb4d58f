/** Go's string helpers on texts of code points. */
module Text {

  /** unicode.IsSpace. */
  predicate IsSpace(c: char) {
    || c in "\t\n\r " || c as int in {0x0B, 0x0C, 0x85, 0xA0, 0x1680, 0x2028, 0x2029, 0x202F, 0x205F, 0x3000}
    || 0x2000 <= c as int <= 0x200A
  }

  /** The code points that Unicode calls White_Space. */
  lemma WhiteSpace(c: char)
    ensures IsSpace(c) <==>
      || '\U{9}' <= c <= '\U{D}' || '\U{2000}' <= c <= '\U{200A}'
      || c in {' ', '\U{85}', '\U{A0}', '\U{1680}', '\U{2028}', '\U{2029}', '\U{202F}', '\U{205F}', '\U{3000}'}
  {
  }

  function TrimLeft(s: string): string {
    if s != "" && IsSpace(s[0]) then TrimLeft(s[1..]) else s
  }

  function TrimRight(s: string): string {
    if s != "" && IsSpace(s[|s| - 1]) then TrimRight(s[..|s| - 1]) else s
  }

  /** strings.TrimSpace. */
  function TrimSpace(s: string): string {
    TrimRight(TrimLeft(s))
  }

  /** A text that neither starts nor ends with white space. */
  predicate Trimmed(s: string) {
    s == "" || (!IsSpace(s[0]) && !IsSpace(s[|s| - 1]))
  }

  lemma TrimmedIsFixed(s: string)
    requires Trimmed(s)
    ensures TrimSpace(s) == s
  {
  }

  /** Nothing but white space. */
  predicate Blank(s: string) {
    forall i :: 0 <= i < |s| ==> IsSpace(s[i])
  }

  /** `s` is `core` with white space around it, and `core` has none at its ends. */
  ghost predicate Surrounds(s: string, core: string) {
    Trimmed(core) && exists a, b :: Blank(a) && Blank(b) && s == a + core + b
  }

  lemma {:induction false} TrimLeftBlank(a: string, s: string)
    requires Blank(a) && (s == "" || !IsSpace(s[0]))
    ensures TrimLeft(a + s) == s
  {
    if a == "" {
      assert a + s == s;
    } else {
      assert (a + s)[1..] == a[1..] + s;
      TrimLeftBlank(a[1..], s);
    }
  }

  lemma {:induction false} TrimRightBlank(s: string, b: string)
    requires Blank(b) && (s == "" || !IsSpace(s[|s| - 1]))
    ensures TrimRight(s + b) == s
  {
    if b == "" {
      assert s + b == s;
    } else {
      var n := |b| - 1;
      assert (s + b)[..|s| + n] == s + b[..n];
      TrimRightBlank(s, b[..n]);
    }
  }

  lemma {:induction false} AllBlank(a: string)
    requires Blank(a)
    ensures TrimLeft(a) == ""
  {
    if a != "" {
      AllBlank(a[1..]);
    }
  }

  /** Trimming takes away the white space at both ends and nothing else. */
  lemma TrimsSurroundings(a: string, core: string, b: string)
    requires Blank(a) && Blank(b) && Trimmed(core)
    ensures TrimSpace(a + core + b) == core
  {
    if core == "" {
      AllBlank(a + core + b);
    } else {
      assert a + core + b == a + (core + b);
      TrimLeftBlank(a, core + b);
      TrimRightBlank(core, b);
    }
  }

  lemma {:induction false} SplitLeft(s: string) returns (a: string)
    ensures Blank(a) && s == a + TrimLeft(s) && (TrimLeft(s) == "" || !IsSpace(TrimLeft(s)[0]))
  {
    a := "";
    if s != "" && IsSpace(s[0]) {
      a := SplitLeft(s[1..]);
      a := [s[0]] + a;
    }
  }

  lemma {:induction false} SplitRight(s: string) returns (b: string)
    ensures Blank(b) && s == TrimRight(s) + b && (TrimRight(s) == "" || !IsSpace(TrimRight(s)[|TrimRight(s)| - 1]))
  {
    b := "";
    if s != "" && IsSpace(s[|s| - 1]) {
      var n := |s| - 1;
      b := SplitRight(s[..n]);
      b := b + [s[n]];
    }
  }

  lemma TrimIsSurrounded(s: string)
    ensures Surrounds(s, TrimSpace(s))
  {
    var a := SplitLeft(s);
    var l := TrimLeft(s);
    var b := SplitRight(l);
    var t := TrimRight(l);
    assert t != "" ==> l[0] == t[0];
    assert s == a + t + b;
  }

  lemma BlankIffNothing(s: string)
    ensures TrimSpace(s) == "" <==> Blank(s)
  {
    TrimIsSurrounded(s);
    if Blank(s) {
      AllBlank(s);
    }
  }

  /** Every text is what trimming leaves of it with white space around, and only that. */
  lemma TrimIffSurrounds(s: string, core: string)
    ensures TrimSpace(s) == core <==> Surrounds(s, core)
  {
    TrimIsSurrounded(s);
    if Surrounds(s, core) {
      var a, b :| Blank(a) && Blank(b) && s == a + core + b;
      TrimsSurroundings(a, core, b);
    }
  }
}
