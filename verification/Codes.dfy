/** Case codes: seven words of a 2048-word list, drawn uniformly. */
module Codes {
  import opened Common
  import opened Text

  const WORDS := 7
  const LIST_SIZE := 2048

  /** A BIP-39 list: its words are distinct, not empty and free of white space. */
  ghost predicate IsWordlist(words: seq<string>) {
    && |words| == LIST_SIZE
    && (forall i :: 0 <= i < |words| ==> IsWord(words[i]))
    && (forall i, j :: 0 <= i < j < |words| ==> words[i] != words[j])
  }

  predicate IsWord(w: string) {
    w != "" && forall k :: 0 <= k < |w| ==> !IsSpace(w[k])
  }

  /** A byte as a number. */
  type Octet = b: int | 0 <= b < 256

  /** The eleven low bits of two random bytes. */
  function Index(b0: Octet, b1: Octet): (i: nat)
    ensures i < LIST_SIZE
  {
    (b0 * 256 + b1) % LIST_SIZE
  }

  /** The word indices that a string of random bytes stands for, two bytes each. */
  function Indices(random: seq<Octet>): (v: seq<nat>)
    requires |random| % 2 == 0
    ensures |v| == |random| / 2 && forall i :: 0 <= i < |v| ==> v[i] < LIST_SIZE
  {
    if random == [] then [] else [Index(random[0], random[1])] + Indices(random[2..])
  }

  /** strings.Join with a space, of the words at the given indices. */
  function Phrase(words: seq<string>, v: seq<nat>): string
    requires forall i :: 0 <= i < |v| ==> v[i] < |words|
  {
    if v == [] then ""
    else if |v| == 1 then words[v[0]]
    else words[v[0]] + " " + Phrase(words, v[1..])
  }

  function JoinWords(ws: seq<string>): string {
    if ws == [] then "" else if |ws| == 1 then ws[0] else ws[0] + " " + JoinWords(ws[1..])
  }

  lemma {:induction false} JoinIsPhrase(words: seq<string>, v: seq<nat>, ws: seq<string>)
    requires forall i :: 0 <= i < |v| ==> v[i] < |words|
    requires |ws| == |v| && forall i :: 0 <= i < |v| ==> ws[i] == words[v[i]]
    ensures JoinWords(ws) == Phrase(words, v)
  {
    if |v| > 1 {
      JoinIsPhrase(words, v[1..], ws[1..]);
    }
  }

  lemma {:induction false} IndexAt(random: seq<Octet>, i: nat)
    requires |random| % 2 == 0 && i < |random| / 2
    ensures Indices(random)[i] == Index(random[2 * i], random[2 * i + 1])
  {
    if i > 0 {
      IndexAt(random[2..], i - 1);
    }
  }

  /** The bytes of a run of draws from the random source, two at a time. */
  function Flatten(draws: seq<(Octet, Octet)>): (r: seq<Octet>)
    ensures |r| == 2 * |draws|
    ensures forall i :: 0 <= i < |draws| ==> r[2 * i] == draws[i].0 && r[2 * i + 1] == draws[i].1
  {
    if draws == [] then [] else Flatten(draws[..|draws| - 1]) + [draws[|draws| - 1].0, draws[|draws| - 1].1]
  }

  lemma IndicesOfDraws(draws: seq<(Octet, Octet)>)
    ensures |Flatten(draws)| % 2 == 0 && |Indices(Flatten(draws))| == |draws|
    ensures forall i :: 0 <= i < |draws| ==> Indices(Flatten(draws))[i] == Index(draws[i].0, draws[i].1)
  {
    forall i | 0 <= i < |draws| ensures Indices(Flatten(draws))[i] == Index(draws[i].0, draws[i].1) {
      IndexAt(Flatten(draws), i);
    }
  }

  lemma WordsAtIndices(words: seq<string>, draws: seq<(Octet, Octet)>, out: seq<string>)
    requires |words| == LIST_SIZE && |out| == |draws|
    requires forall i :: 0 <= i < |out| ==> out[i] == words[Index(draws[i].0, draws[i].1)]
    ensures |Flatten(draws)| % 2 == 0 && JoinWords(out) == Phrase(words, Indices(Flatten(draws)))
  {
    IndicesOfDraws(draws);
    JoinIsPhrase(words, Indices(Flatten(draws)), out);
  }

  /** Fails on a list of the wrong size or a read of the random source that fails. */
  method GenerateCode(words: seq<string>, random: nat -> Option<(Octet, Octet)>)
    returns (r: Option<string>, ghost drawn: seq<Octet>)
    ensures r.None? <==> |words| != LIST_SIZE || exists i :: 0 <= i < WORDS && random(i).None?
    ensures r.Some? ==>
      && |drawn| == 2 * WORDS
      && (forall i :: 0 <= i < WORDS ==> random(i) == Some((drawn[2 * i], drawn[2 * i + 1])))
      && r.value == Phrase(words, Indices(drawn))
    ensures r.Some? && IsWordlist(words) ==> r.value != "" && Trimmed(r.value)
  {
    drawn := [];
    if |words| != LIST_SIZE {
      return None, [];
    }
    var out := new string[WORDS](_ => "");
    ghost var draws := [];
    for i := 0 to WORDS
      invariant |draws| == i
      invariant forall k :: 0 <= k < i ==> random(k) == Some(draws[k]) && out[k] == words[Index(draws[k].0, draws[k].1)]
    {
      var buf := random(i);
      if buf.None? {
        return None, [];
      }
      out[i] := words[Index(buf.value.0, buf.value.1)];
      draws := draws + [buf.value];
    }
    drawn := Flatten(draws);
    WordsAtIndices(words, draws, out[..]);
    r := Some(JoinWords(out[..]));
    if IsWordlist(words) {
      PhraseIsTrimmed(words, Indices(drawn));
    }
  }

  // ---- every phrase is as likely as any other ----

  function Power(b: nat, n: nat): nat {
    if n == 0 then 1 else b * Power(b, n - 1)
  }

  /** One of the thirty-two byte pairs with index `i`. */
  function Pair(i: nat, k: nat): seq<Octet>
    requires i < LIST_SIZE && k < 32
  {
    [i / 256 + 8 * k, i % 256]
  }

  function Pairs(i: nat, n: nat): (r: set<seq<Octet>>)
    requires i < LIST_SIZE && n <= 32
  {
    if n == 0 then {} else Pairs(i, n - 1) + {Pair(i, n - 1)}
  }

  lemma {:induction false} PairsHold(i: nat, n: nat, p: seq<Octet>)
    requires i < LIST_SIZE && n <= 32
    ensures p in Pairs(i, n) <==> exists k :: 0 <= k < n && p == Pair(i, k)
  {
    if n > 0 {
      PairsHold(i, n - 1, p);
    }
  }

  lemma {:induction false} PairsCount(i: nat, n: nat)
    requires i < LIST_SIZE && n <= 32
    ensures |Pairs(i, n)| == n
  {
    if n > 0 {
      PairsCount(i, n - 1);
      PairsHold(i, n - 1, Pair(i, n - 1));
      assert forall k :: 0 <= k < n - 1 ==> Pair(i, k)[0] != Pair(i, n - 1)[0];
    }
  }

  /** The index keeps the low three bits of the first byte and all of the second. */
  lemma IndexBits(b0: Octet, b1: Octet)
    ensures Index(b0, b1) == b0 % 8 * 256 + b1
  {
    var q, low := b0 / 8, b0 % 8;
    assert b0 == 8 * q + low;
    assert b0 * 256 + b1 == 2048 * q + (low * 256 + b1);
  }

  lemma PairForm(i: nat, b0: Octet, b1: Octet)
    requires i < LIST_SIZE
    ensures [b0, b1] in Pairs(i, 32) <==> b0 % 8 == i / 256 && b1 == i % 256
  {
    var p: seq<Octet> := [b0, b1];
    PairsHold(i, 32, p);
    if b0 % 8 == i / 256 && b1 == i % 256 {
      assert p == Pair(i, b0 / 8);
    }
    if k :| 0 <= k < 32 && p == Pair(i, k) {
      assert p[0] == b0 && p[1] == b1;
    }
  }

  /** Those are all of them. */
  lemma PairsAreIndex(i: nat, b0: Octet, b1: Octet)
    requires i < LIST_SIZE
    ensures Index(b0, b1) == i <==> [b0, b1] in Pairs(i, 32)
  {
    IndexBits(b0, b1);
    PairForm(i, b0, b1);
  }

  ghost function Prefixed(p: seq<Octet>, rest: set<seq<Octet>>): set<seq<Octet>> {
    set q | q in rest :: p + q
  }

  lemma {:induction false} PrefixedCount(p: seq<Octet>, rest: set<seq<Octet>>)
    ensures |Prefixed(p, rest)| == |rest|
    decreases |rest|
  {
    if rest == {} {
      assert Prefixed(p, rest) == {};
    } else {
      var q :| q in rest;
      PrefixedCount(p, rest - {q});
      assert forall x: seq<Octet>, y: seq<Octet> :: p + x == p + y ==> x == y by {
        forall x: seq<Octet>, y: seq<Octet> | p + x == p + y ensures x == y {
          assert x == (p + x)[|p|..] && y == (p + y)[|p|..];
        }
      }
      assert Prefixed(p, rest) == Prefixed(p, rest - {q}) + {p + q};
      assert p + q !in Prefixed(p, rest - {q});
    }
  }

  lemma OtherPrefix(p: seq<Octet>, p': seq<Octet>, q': seq<Octet>, rest: set<seq<Octet>>)
    requires |p| == |p'| && p != p'
    ensures p' + q' !in Prefixed(p, rest)
  {
    forall q | q in rest ensures p + q != p' + q' {
      assert (p + q)[..|p|] == p && (p' + q')[..|p|] == p';
    }
  }

  /** Every way to put a member of `ps` before a member of `rest`. */
  ghost function Product(ps: set<seq<Octet>>, rest: set<seq<Octet>>): set<seq<Octet>> {
    set p, q | p in ps && q in rest :: p + q
  }

  lemma {:induction false} ProductCount(ps: set<seq<Octet>>, rest: set<seq<Octet>>)
    requires forall p :: p in ps ==> |p| == 2
    ensures |Product(ps, rest)| == |ps| * |rest|
    decreases |ps|
  {
    if ps == {} {
      assert Product(ps, rest) == {};
    } else {
      var p :| p in ps;
      var others := ps - {p};
      ProductCount(others, rest);
      PrefixedCount(p, rest);
      assert Product(ps, rest) == Product(others, rest) + Prefixed(p, rest);
      assert Product(others, rest) !! Prefixed(p, rest) by {
        forall x | x in Product(others, rest) ensures x !in Prefixed(p, rest) {
          var p', q' :| p' in others && q' in rest && x == p' + q';
          OtherPrefix(p, p', q', rest);
        }
      }
      assert |Product(ps, rest)| == |others| * |rest| + |rest|;
      assert |ps| == |others| + 1;
      Distribute(|others|, |rest|);
    }
  }

  lemma Distribute(a: nat, b: nat)
    ensures a * b + b == (a + 1) * b
  {
  }

  /** The random bytes that draw the indices `v`. */
  ghost function Preimages(v: seq<nat>): set<seq<Octet>>
    requires forall i :: 0 <= i < |v| ==> v[i] < LIST_SIZE
  {
    if v == [] then {[]} else Product(Pairs(v[0], 32), Preimages(v[1..]))
  }

  /** The first two bytes give the first index. */
  lemma IndicesOf(p: seq<Octet>, q: seq<Octet>, i: nat, w: seq<nat>)
    requires |p| == 2 && |q| % 2 == 0 && |p + q| % 2 == 0 && i < LIST_SIZE
    ensures Indices(p + q) == [i] + w <==> p in Pairs(i, 32) && Indices(q) == w
  {
    var first, rest := Index(p[0], p[1]), Indices(q);
    PairsAreIndex(i, p[0], p[1]);
    assert p == [p[0], p[1]] && (p + q)[2..] == q;
    assert Indices(p + q) == [first] + rest;
    assert ([i] + w)[1..] == w && ([first] + rest)[1..] == rest;
  }

  lemma InProduct(ps: set<seq<Octet>>, rest: set<seq<Octet>>, p: seq<Octet>, q: seq<Octet>)
    requires |p| == 2 && forall x :: x in ps ==> |x| == 2
    ensures p + q in Product(ps, rest) <==> p in ps && q in rest
  {
    if p + q in Product(ps, rest) {
      var p', q' :| p' in ps && q' in rest && p + q == p' + q';
      assert p == (p + q)[..2] && p' == (p' + q')[..2];
      assert q == (p + q)[2..] && q' == (p' + q')[2..];
    }
  }

  lemma {:induction false} PreimagesLength(v: seq<nat>, random: seq<Octet>)
    requires forall i :: 0 <= i < |v| ==> v[i] < LIST_SIZE
    requires random in Preimages(v)
    ensures |random| == 2 * |v|
  {
    if v != [] {
      var p, q :| p in Pairs(v[0], 32) && q in Preimages(v[1..]) && random == p + q;
      PairsHold(v[0], 32, p);
      PreimagesLength(v[1..], q);
    }
  }

  lemma {:induction false} PreimagesAre(v: seq<nat>, random: seq<Octet>)
    requires forall i :: 0 <= i < |v| ==> v[i] < LIST_SIZE
    requires |random| == 2 * |v|
    ensures random in Preimages(v) <==> Indices(random) == v
  {
    if v != [] {
      var p, q := random[..2], random[2..];
      assert random == p + q && v == [v[0]] + v[1..];
      PreimagesAre(v[1..], q);
      IndicesOf(p, q, v[0], v[1..]);
      forall x | x in Pairs(v[0], 32) ensures |x| == 2 {
        PairsHold(v[0], 32, x);
      }
      InProduct(Pairs(v[0], 32), Preimages(v[1..]), p, q);
    }
  }

  lemma {:induction false} PreimagesCount(v: seq<nat>)
    requires forall i :: 0 <= i < |v| ==> v[i] < LIST_SIZE
    ensures |Preimages(v)| == Power(32, |v|)
  {
    if v != [] {
      forall p | p in Pairs(v[0], 32) ensures |p| == 2 {
        PairsHold(v[0], 32, p);
      }
      ProductCount(Pairs(v[0], 32), Preimages(v[1..]));
      PairsCount(v[0], 32);
      PreimagesCount(v[1..]);
    }
  }

  lemma UpToSpace(a: string, x: string, b: string, y: string)
    requires IsWord(a) && IsWord(b) && a + " " + x == b + " " + y
    ensures a == b && x == y
  {
    var s := a + " " + x;
    assert s[|a|] == ' ' && s[|b|] == ' ';
    assert forall k :: 0 <= k < |a| ==> s[k] == a[k];
    assert forall k :: 0 <= k < |b| ==> s[k] == b[k];
    assert a == s[..|a|] && b == s[..|b|];
    assert x == s[|a| + 1..] && y == s[|b| + 1..];
  }

  /** Words of a list can be told apart again. */
  lemma {:induction false} PhraseInjective(words: seq<string>, v: seq<nat>, w: seq<nat>)
    requires IsWordlist(words) && |v| == |w|
    requires forall i :: 0 <= i < |v| ==> v[i] < LIST_SIZE && w[i] < LIST_SIZE
    requires Phrase(words, v) == Phrase(words, w)
    ensures v == w
  {
    if |v| == 1 {
      assert words[v[0]] == words[w[0]];
    } else if |v| > 1 {
      UpToSpace(words[v[0]], Phrase(words, v[1..]), words[w[0]], Phrase(words, w[1..]));
      PhraseInjective(words, v[1..], w[1..]);
      assert v == [v[0]] + v[1..] && w == [w[0]] + w[1..];
    }
  }

  /**
    Uniformity.  Exactly 32^7 of the 256^14 random byte strings give any one
    phrase of seven words of the list.
   */
  lemma EachPhraseEquallyLikely(words: seq<string>, v: seq<nat>)
    requires IsWordlist(words) && |v| == 7 && forall i :: 0 <= i < |v| ==> v[i] < 2048
    ensures |Preimages(v)| == Power(32, 7)
    ensures forall random: seq<Octet> ::
      random in Preimages(v) <==> |random| == 14 && Phrase(words, Indices(random)) == Phrase(words, v)
  {
    PreimagesCount(v);
    forall random: seq<Octet>
      ensures random in Preimages(v) <==> |random| == 14 && Phrase(words, Indices(random)) == Phrase(words, v)
    {
      if random in Preimages(v) {
        PreimagesLength(v, random);
      }
      if |random| == 14 {
        PreimagesAre(v, random);
      }
      if |random| == 14 && Phrase(words, Indices(random)) == Phrase(words, v) {
        PhraseInjective(words, Indices(random), v);
      }
    }
  }

  /** A code is what trimming leaves of it, and never empty. */
  lemma {:induction false} PhraseIsTrimmed(words: seq<string>, v: seq<nat>)
    requires IsWordlist(words) && v != [] && forall i :: 0 <= i < |v| ==> v[i] < LIST_SIZE
    ensures Phrase(words, v) != "" && Trimmed(Phrase(words, v))
  {
    var w := words[v[0]];
    assert IsWord(w);
    if |v| > 1 {
      PhraseIsTrimmed(words, v[1..]);
      assert Phrase(words, v)[0] == w[0];
    }
  }
}
