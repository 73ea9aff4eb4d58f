/** UTF-8 as Go reads and writes it (RFC 3629). */
module Utf8 {
  import opened Common

  const RUNE_ERROR := 0xFFFD

  // ---- reading ----

  predicate Continues(c: Byte) {
    0x80 <= c as int < 0xC0
  }

  predicate Starts2(s: Bytes) {
    |s| >= 2 && 0xC2 <= s[0] as int < 0xE0 && Continues(s[1])
  }

  /** No overlong form, and no surrogate. */
  predicate Starts3(s: Bytes) {
    && |s| >= 3 && 0xE0 <= s[0] as int < 0xF0 && Continues(s[1]) && Continues(s[2])
    && (s[0] as int == 0xE0 ==> s[1] as int >= 0xA0) && (s[0] as int == 0xED ==> s[1] as int < 0xA0)
  }

  /** No overlong form, and nothing beyond the last code point. */
  predicate Starts4(s: Bytes) {
    && |s| >= 4 && 0xF0 <= s[0] as int < 0xF5 && Continues(s[1]) && Continues(s[2]) && Continues(s[3])
    && (s[0] as int == 0xF0 ==> s[1] as int >= 0x90) && (s[0] as int == 0xF4 ==> s[1] as int < 0x90)
  }

  /** The length of the valid sequence at the start of `s`, if there is one. */
  function Width(s: Bytes): (n: nat)
    requires s != []
    ensures n <= |s| && n <= 4
  {
    if s[0] as int < 0x80 then 1
    else if Starts2(s) then 2
    else if Starts3(s) then 3
    else if Starts4(s) then 4
    else 0
  }

  /** The low six bits of a continuation byte. */
  function Low6(c: Byte): nat {
    c as int % 0x40
  }

  /** What `range` over a Go string yields: code points, with a replacement for each stray byte. */
  function Runes(s: Bytes): seq<int> {
    if s == [] then []
    else
      match Width(s)
      case 0 => [RUNE_ERROR] + Runes(s[1..])
      case 1 => [s[0] as int] + Runes(s[1..])
      case 2 => [s[0] as int % 0x20 * 0x40 + Low6(s[1])] + Runes(s[2..])
      case 3 => [s[0] as int % 0x10 * 0x1000 + Low6(s[1]) * 0x40 + Low6(s[2])] + Runes(s[3..])
      case _ => [s[0] as int % 0x8 * 0x4_0000 + Low6(s[1]) * 0x1000 + Low6(s[2]) * 0x40 + Low6(s[3])] + Runes(s[4..])
  }

  // ---- writing ----

  function Tail(n: nat): Byte {
    (0x80 + n % 0x40) as char
  }

  function EncodeChar(c: char): (r: Bytes)
    ensures r != []
  {
    var u := c as int;
    if u < 0x80 then [c]
    else if u < 0x800 then [(0xC0 + u / 0x40) as char, Tail(u)]
    else if u < 0x1_0000 then [(0xE0 + u / 0x1000) as char, Tail(u / 0x40), Tail(u)]
    else [(0xF0 + u / 0x4_0000) as char, Tail(u / 0x1000), Tail(u / 0x40), Tail(u)]
  }

  /** The bytes of a text, as len() of a Go string counts them. */
  function Encode(s: string): Bytes {
    if s == "" then [] else EncodeChar(s[0]) + Encode(s[1..])
  }

  function CodePoints(s: string): seq<int> {
    seq(|s|, i requires 0 <= i < |s| => s[i] as int)
  }

  // ---- what is written is read back ----

  lemma SixBits(u: nat)
    ensures Low6(Tail(u)) == u % 0x40 && Continues(Tail(u))
  {
  }

  lemma Reads2(c: char, rest: Bytes)
    requires 0x80 <= c as int < 0x800
    ensures Runes(EncodeChar(c) + rest) == [c as int] + Runes(rest)
  {
    var u, s := c as int, EncodeChar(c) + rest;
    SixBits(u);
    assert s[2..] == rest && Starts2(s);
    assert s[0] as int % 0x20 == u / 0x40;
  }

  lemma Digits3(u: nat)
    ensures u / 0x1000 * 0x1000 + u / 0x40 % 0x40 * 0x40 + u % 0x40 == u
  {
    assert u / 0x1000 == u / 0x40 / 0x40;
  }

  lemma Reads3(c: char, rest: Bytes)
    requires 0x800 <= c as int < 0x1_0000
    ensures Runes(EncodeChar(c) + rest) == [c as int] + Runes(rest)
  {
    var u, s := c as int, EncodeChar(c) + rest;
    SixBits(u);
    SixBits(u / 0x40);
    Digits3(u);
    assert s[3..] == rest && Starts3(s);
    assert s[0] as int % 0x10 == u / 0x1000;
  }

  lemma Digits4(u: nat)
    ensures u / 0x4_0000 * 0x4_0000 + u / 0x1000 % 0x40 * 0x1000 + u / 0x40 % 0x40 * 0x40 + u % 0x40 == u
  {
    Digits3(u);
    assert u / 0x4_0000 == u / 0x1000 / 0x40;
  }

  lemma Reads4(c: char, rest: Bytes)
    requires 0x1_0000 <= c as int
    ensures Runes(EncodeChar(c) + rest) == [c as int] + Runes(rest)
  {
    var u, s := c as int, EncodeChar(c) + rest;
    SixBits(u);
    SixBits(u / 0x40);
    SixBits(u / 0x1000);
    Digits4(u);
    assert s[4..] == rest && Starts4(s);
    assert s[0] as int % 0x8 == u / 0x4_0000;
  }

  lemma ReadsChar(c: char, rest: Bytes)
    ensures Runes(EncodeChar(c) + rest) == [c as int] + Runes(rest)
  {
    var u := c as int;
    if u < 0x80 {
      assert (EncodeChar(c) + rest)[1..] == rest;
    } else if u < 0x800 {
      Reads2(c, rest);
    } else if u < 0x1_0000 {
      Reads3(c, rest);
    } else {
      Reads4(c, rest);
    }
  }

  lemma ReadsOneMore(c: char, more: Bytes, points: seq<int>, tail: seq<int>)
    requires Runes(more) == points + tail
    ensures Runes(EncodeChar(c) + more) == [c as int] + points + tail
  {
    ReadsChar(c, more);
    assert [c as int] + (points + tail) == [c as int] + points + tail;
  }

  lemma Layers(s: string, rest: Bytes)
    requires s != ""
    ensures Encode(s) + rest == EncodeChar(s[0]) + (Encode(s[1..]) + rest)
    ensures CodePoints(s) == [s[0] as int] + CodePoints(s[1..])
  {
    Assoc(EncodeChar(s[0]), Encode(s[1..]), rest);
    FirstPoint(s);
  }

  lemma Assoc(a: Bytes, b: Bytes, c: Bytes)
    ensures a + b + c == a + (b + c)
  {
  }

  lemma FirstPoint(s: string)
    requires s != ""
    ensures CodePoints(s) == [s[0] as int] + CodePoints(s[1..])
  {
  }

  lemma NothingRead(rest: Bytes)
    ensures Encode("") + rest == rest && CodePoints("") + Runes(rest) == Runes(rest)
  {
  }

  /** Reading the bytes of a text, whatever follows, gives its code points. */
  lemma {:induction false} ReadsEncoded(s: string, rest: Bytes)
    ensures Runes(Encode(s) + rest) == CodePoints(s) + Runes(rest)
  {
    if s == "" {
      NothingRead(rest);
    } else {
      var tail := Runes(rest);
      ReadsEncoded(s[1..], rest);
      ReadsOneMore(s[0], Encode(s[1..]) + rest, CodePoints(s[1..]), tail);
      Layers(s, rest);
    }
  }

  // ---- and nothing else is read as a character ----

  lemma OnlyTail(c: Byte)
    requires Continues(c)
    ensures forall u: nat :: u % 0x40 == Low6(c) ==> Tail(u) == c
  {
  }

  lemma Only2(s: Bytes) returns (c: char)
    requires Starts2(s)
    ensures s[..2] == EncodeChar(c) && Runes(s) == [c as int] + Runes(s[2..])
  {
    var u := s[0] as int % 0x20 * 0x40 + Low6(s[1]);
    assert s[0] as int == 0xC0 + s[0] as int % 0x20;
    OnlyTail(s[1]);
    c := u as char;
    assert u / 0x40 == s[0] as int % 0x20 && u % 0x40 == Low6(s[1]);
  }

  lemma Only3(s: Bytes) returns (c: char)
    requires Starts3(s)
    ensures s[..3] == EncodeChar(c) && Runes(s) == [c as int] + Runes(s[3..])
  {
    var h, u1 := s[0] as int % 0x10, Low6(s[1]);
    var u := h * 0x1000 + u1 * 0x40 + Low6(s[2]);
    assert s[0] as int == 0xE0 + h;
    OnlyTail(s[1]);
    OnlyTail(s[2]);
    c := u as char;
    assert u / 0x1000 == h && u / 0x40 == h * 0x40 + u1 && u % 0x40 == Low6(s[2]);
    assert (h * 0x40 + u1) % 0x40 == u1;
  }

  lemma SixMore(hi: nat, lo: nat)
    requires lo < 0x40
    ensures (hi * 0x40 + lo) / 0x40 == hi && (hi * 0x40 + lo) % 0x40 == lo
  {
  }

  /** Four groups of bits, the lower three of six each. */
  lemma Groups4(h: nat, u1: nat, u2: nat, u3: nat)
    requires u1 < 0x40 && u2 < 0x40 && u3 < 0x40
    ensures var u := h * 0x4_0000 + u1 * 0x1000 + u2 * 0x40 + u3;
      u / 0x4_0000 == h && u / 0x1000 % 0x40 == u1 && u / 0x40 % 0x40 == u2 && u % 0x40 == u3
  {
    var top, mid := h * 0x40 + u1, (h * 0x40 + u1) * 0x40 + u2;
    var u := mid * 0x40 + u3;
    SixMore(h, u1);
    SixMore(top, u2);
    SixMore(mid, u3);
    assert u / 0x40 == mid && u / 0x1000 == mid / 0x40 && u / 0x4_0000 == top / 0x40;
  }

  /** The number that four bytes spell. */
  function Spelled4(s: Bytes): nat
    requires |s| >= 4
  {
    s[0] as int % 0x8 * 0x4_0000 + Low6(s[1]) * 0x1000 + Low6(s[2]) * 0x40 + Low6(s[3])
  }

  lemma InRange4(s: Bytes)
    requires Starts4(s)
    ensures 0x1_0000 <= Spelled4(s) < 0x11_0000 && s[0] as int == 0xF0 + s[0] as int % 0x8
  {
  }

  lemma Only4(s: Bytes) returns (c: char)
    requires Starts4(s)
    ensures s[..4] == EncodeChar(c) && Runes(s) == [c as int] + Runes(s[4..])
  {
    InRange4(s);
    c := Spelled4(s) as char;
    Groups4(s[0] as int % 0x8, Low6(s[1]), Low6(s[2]), Low6(s[3]));
    OnlyTail(s[1]);
    OnlyTail(s[2]);
    OnlyTail(s[3]);
    var e := EncodeChar(c);
    assert e == [s[0], s[1], s[2], s[3]];
  }

  /** A byte that is not read as a stray one begins the encoding of the character that is read. */
  lemma ReadsOnlyEncodings(s: Bytes) returns (c: char)
    requires s != [] && Width(s) > 0
    ensures EncodeChar(c) <= s && Runes(s) == [c as int] + Runes(s[|EncodeChar(c)|..])
  {
    if s[0] as int < 0x80 {
      c := s[0];
    } else if Starts2(s) {
      c := Only2(s);
    } else if Starts3(s) {
      c := Only3(s);
    } else {
      c := Only4(s);
    }
  }

  /** A stray byte is the start of no character's encoding, and reads as the replacement character. */
  lemma StrayBytes(s: Bytes, c: char)
    requires s != [] && Width(s) == 0
    ensures !(EncodeChar(c) <= s) && Runes(s) == [RUNE_ERROR] + Runes(s[1..])
  {
    var e := EncodeChar(c);
    if e <= s {
      assert forall i :: 0 <= i < |e| ==> s[i] == e[i];
      SixBits(c as int);
      SixBits(c as int / 0x40);
      SixBits(c as int / 0x1000);
    }
  }

  // ---- counting ----

  /** The length in bytes of a text in UTF-8. */
  function Length(s: string): nat {
    if s == "" then 0 else CharLength(s[0]) + Length(s[1..])
  }

  function CharLength(c: char): nat {
    var u := c as int;
    if u < 0x80 then 1 else if u < 0x800 then 2 else if u < 0x1_0000 then 3 else 4
  }

  /** The length that the form's limits are compared with is the number of bytes. */
  lemma {:induction false} LengthCounts(s: string)
    ensures Length(s) == |Encode(s)|
  {
    if s != "" {
      LengthCounts(s[1..]);
    }
  }
}
