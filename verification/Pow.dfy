/** The proof-of-work token of the submission form: layout, hexadecimal, lifetime. */
module Pow {
  import opened Common
  import opened Text

  const LIFETIME := 5 * 60 * SECOND

  // ---- big-endian numbers ----

  function Power256(n: nat): nat {
    if n == 0 then 1 else 256 * Power256(n - 1)
  }

  function BigEndian(v: nat, n: nat): (r: Bytes)
    ensures |r| == n
  {
    if n == 0 then [] else BigEndian(v / 256, n - 1) + [(v % 256) as char]
  }

  function Value(b: Bytes): nat {
    if b == [] then 0 else 256 * Value(b[..|b| - 1]) + b[|b| - 1] as int
  }

  lemma {:induction false} ValueOfBigEndian(v: nat, n: nat)
    requires v < Power256(n)
    ensures Value(BigEndian(v, n)) == v
  {
    if n > 0 {
      ValueOfBigEndian(v / 256, n - 1);
      var b := BigEndian(v, n);
      assert b[..|b| - 1] == BigEndian(v / 256, n - 1);
    }
  }

  lemma {:induction false} BigEndianOfValue(b: Bytes)
    ensures Value(b) < Power256(|b|) && BigEndian(Value(b), |b|) == b
  {
    if b != [] {
      var front, last := b[..|b| - 1], b[|b| - 1] as int;
      BigEndianOfValue(front);
      assert Value(b) / 256 == Value(front) && Value(b) % 256 == last;
      assert b == front + [b[|b| - 1]];
    }
  }

  lemma EightBytes()
    ensures Power256(8) == TWO_64
  {
    assert Power256(2) == 0x1_0000;
    assert Power256(4) == 0x1_0000_0000;
    assert Power256(6) == 0x1_0000_0000_0000;
  }

  // ---- hexadecimal ----

  function HexDigit(n: nat): char
    requires n < 16
  {
    if n < 10 then '0' + n as char else 'a' + (n - 10) as char
  }

  function HexValue(c: char): (r: Option<nat>)
    ensures r.Some? ==> r.value < 16
  {
    if '0' <= c <= '9' then Some(c as int - '0' as int)
    else if 'a' <= c <= 'f' then Some(c as int - 'a' as int + 10)
    else if 'A' <= c <= 'F' then Some(c as int - 'A' as int + 10)
    else None
  }

  /** hex.EncodeToString. */
  function EncodeHex(b: Bytes): (r: string)
    ensures |r| == 2 * |b|
  {
    if b == [] then ""
    else [HexDigit(b[0] as int / 16), HexDigit(b[0] as int % 16)] + EncodeHex(b[1..])
  }

  /** hex.DecodeString. */
  function DecodeHex(s: string): Option<Bytes> {
    if s == "" then Some([])
    else if |s| == 1 then None
    else
      var hi, lo, rest := HexValue(s[0]), HexValue(s[1]), DecodeHex(s[2..]);
      if hi.None? || lo.None? || rest.None? then None
      else Some([(hi.value * 16 + lo.value) as char] + rest.value)
  }

  function LowerChar(c: char): char {
    if 'A' <= c <= 'F' then c - 'A' + 'a' else c
  }

  /** The same text with small hexadecimal letters. */
  function Lower(s: string): (r: string)
    ensures |r| == |s| && forall i :: 0 <= i < |s| ==> r[i] == LowerChar(s[i])
  {
    seq(|s|, i requires 0 <= i < |s| => LowerChar(s[i]))
  }

  lemma DigitValue(c: char, n: nat)
    requires n < 16
    ensures HexValue(c) == Some(n) <==> LowerChar(c) == HexDigit(n)
  {
  }

  lemma TwoDigits(c: char, d: char, b: Byte)
    ensures LowerChar(c) == HexDigit(b as int / 16) && LowerChar(d) == HexDigit(b as int % 16) <==>
      HexValue(c).Some? && HexValue(d).Some? && (HexValue(c).value * 16 + HexValue(d).value) as char == b
  {
    DigitValue(c, b as int / 16);
    DigitValue(d, b as int % 16);
  }

  lemma EncodingStep(s: string, b: Bytes)
    requires |s| >= 2 && b != []
    ensures Lower(s) == EncodeHex(b) <==>
      && LowerChar(s[0]) == HexDigit(b[0] as int / 16) && LowerChar(s[1]) == HexDigit(b[0] as int % 16)
      && Lower(s[2..]) == EncodeHex(b[1..])
  {
    var l, e := Lower(s), EncodeHex(b);
    assert l == [l[0], l[1]] + l[2..] && l[2..] == Lower(s[2..]);
    assert e[0] == HexDigit(b[0] as int / 16) && e[1] == HexDigit(b[0] as int % 16) && e[2..] == EncodeHex(b[1..]);
    assert e == [e[0], e[1]] + e[2..];
  }

  lemma DecodingStep(s: string, b: Bytes)
    requires |s| >= 2 && b != []
    ensures DecodeHex(s) == Some(b) <==>
      && HexValue(s[0]).Some? && HexValue(s[1]).Some?
      && (HexValue(s[0]).value * 16 + HexValue(s[1]).value) as char == b[0]
      && DecodeHex(s[2..]) == Some(b[1..])
  {
    assert b == [b[0]] + b[1..];
  }

  /** A text decodes to these bytes exactly when it is their encoding in either letter case. */
  lemma {:induction false} DecodeIffEncoding(s: string, b: Bytes)
    ensures DecodeHex(s) == Some(b) <==> Lower(s) == EncodeHex(b)
  {
    if |s| >= 2 && b != [] {
      EncodingStep(s, b);
      DecodingStep(s, b);
      TwoDigits(s[0], s[1], b[0]);
      DecodeIffEncoding(s[2..], b[1..]);
    }
  }

  /** The same character, or the same of the letters A to F in the other case. */
  predicate SameButCase(c: char, d: char) {
    || c == d
    || ('A' <= c <= 'F' && d as int == c as int + 32) || ('A' <= d <= 'F' && c as int == d as int + 32)
  }

  lemma SameDigit(c: char, d: char)
    requires SameButCase(c, d)
    ensures HexValue(c) == HexValue(d) && LowerChar(c) == LowerChar(d)
  {
  }

  lemma LowerIsCaseless(s: string, t: string)
    requires |s| == |t| && forall i :: 0 <= i < |s| ==> SameButCase(s[i], t[i])
    ensures Lower(s) == Lower(t)
  {
    forall i | 0 <= i < |s| ensures Lower(s)[i] == Lower(t)[i] {
      SameDigit(s[i], t[i]);
    }
  }

  /** Hexadecimal may be written in either case, mixed as one likes. */
  lemma {:induction false} CaseDoesNotMatter(s: string, t: string)
    requires |s| == |t| && forall i :: 0 <= i < |s| ==> SameButCase(s[i], t[i])
    ensures DecodeHex(s) == DecodeHex(t) && Lower(s) == Lower(t)
  {
    LowerIsCaseless(s, t);
    if |s| >= 2 {
      SameDigit(s[0], t[0]);
      SameDigit(s[1], t[1]);
      forall i | 0 <= i < |s| - 2 ensures SameButCase(s[2..][i], t[2..][i]) {
        assert SameButCase(s[i + 2], t[i + 2]);
      }
      CaseDoesNotMatter(s[2..], t[2..]);
    }
  }

  // ---- tokens ----

  datatype Verdict = Good | BadToken | ExpiredToken

  /** HMAC-SHA256 under the server's key gives 32 bytes. */
  ghost predicate IsMac(mac: Bytes -> Bytes) {
    forall m :: |mac(m)| == 32
  }

  /** Timestamp, nonce, truncated MAC of both, in hexadecimal. */
  function Token(mac: Bytes -> Bytes, ts: nat, nonce: Bytes): string
    requires IsMac(mac)
  {
    EncodeHex(Raw(mac, ts, nonce))
  }

  function Raw(mac: Bytes -> Bytes, ts: nat, nonce: Bytes): Bytes
    requires IsMac(mac)
  {
    BigEndian(ts, 8) + nonce + mac(BigEndian(ts, 8) + nonce)[..16]
  }

  /** `random` is None when the random source fails; then the token is empty. */
  method IssuePoWToken(mac: Bytes -> Bytes, now: nat, random: Option<Bytes>) returns (token: string)
    requires IsMac(mac) && (random.Some? ==> |random.value| == 16)
    ensures token == if random.None? then "" else Token(mac, now / SECOND, random.value)
  {
    var ts := BigEndian(now / SECOND, 8);
    if random.None? {
      return "";
    }
    var nonce := random.value;
    var sum := mac(ts + nonce)[..16];
    var out: Bytes := [];
    out := out + ts;
    out := out + nonce;
    out := out + sum;
    assert out == Raw(mac, now / SECOND, nonce);
    token := EncodeHex(out);
  }

  /** int64 of a uint64. */
  function Signed(u: nat): (r: int)
    ensures u < TWO_64 ==> -TWO_63 <= r < TWO_63 && (r - u) % TWO_64 == 0
  {
    if u < TWO_63 then u else u - TWO_64
  }

  function VerifyPoWToken(mac: Bytes -> Bytes, token: string, now: int): Verdict
    requires IsMac(mac)
  {
    var raw := DecodeHex(TrimSpace(token));
    if raw.None? || |raw.value| != 40 then BadToken
    else
      var ts, nonce, got := raw.value[0..8], raw.value[8..24], raw.value[24..40];
      if got != mac(ts + nonce)[..16] then BadToken
      else
        var age := now - Signed(Value(ts)) * SECOND;
        if age < 0 || age > LIFETIME then ExpiredToken else Good
  }

  predicate InWindow(ts: nat, now: int) {
    Signed(ts) * SECOND <= now <= Signed(ts) * SECOND + LIFETIME
  }

  /** The string is the token of this timestamp and nonce, up to white space around it and letter case. */
  predicate Spells(mac: Bytes -> Bytes, s: string, ts: nat, nonce: Bytes)
    requires IsMac(mac)
  {
    ts < TWO_64 && |nonce| == 16 && Lower(TrimSpace(s)) == Token(mac, ts, nonce)
  }

  lemma RawParts(mac: Bytes -> Bytes, ts: nat, nonce: Bytes)
    requires IsMac(mac) && ts < TWO_64 && |nonce| == 16
    ensures var raw := Raw(mac, ts, nonce);
      |raw| == 40 && Value(raw[0..8]) == ts && raw[8..24] == nonce && raw[24..40] == mac(raw[0..8] + nonce)[..16]
  {
    EightBytes();
    ValueOfBigEndian(ts, 8);
    var raw := Raw(mac, ts, nonce);
    assert raw[0..8] == BigEndian(ts, 8) && raw[8..24] == nonce;
    assert raw[24..40] == mac(BigEndian(ts, 8) + nonce)[..16];
  }

  /** A token in any spelling verifies exactly from its second to five minutes later, to the nanosecond. */
  lemma SpelledVerifies(mac: Bytes -> Bytes, s: string, ts: nat, nonce: Bytes, now: int)
    requires IsMac(mac) && Spells(mac, s, ts, nonce)
    ensures VerifyPoWToken(mac, s, now) == if InWindow(ts, now) then Good else ExpiredToken
  {
    DecodeIffEncoding(TrimSpace(s), Raw(mac, ts, nonce));
    RawParts(mac, ts, nonce);
  }

  /** Nothing but spellings of tokens ever gets past the MAC. */
  lemma VerifiedIsSpelled(mac: Bytes -> Bytes, s: string, now: int) returns (ts: nat, nonce: Bytes)
    requires IsMac(mac) && VerifyPoWToken(mac, s, now) != BadToken
    ensures Spells(mac, s, ts, nonce)
  {
    var raw := DecodeHex(TrimSpace(s)).value;
    ts, nonce := Value(raw[0..8]), raw[8..24];
    EightBytes();
    BigEndianOfValue(raw[0..8]);
    assert raw == raw[0..8] + raw[8..24] + raw[24..40];
    DecodeIffEncoding(TrimSpace(s), raw);
  }

  /**
    A string verifies if and only if it spells, up to surrounding white space
    and letter case, the token of some timestamp and nonce, and the clock is
    within that timestamp's five minutes.
   */
  lemma GoodIffFreshToken(mac: Bytes -> Bytes, s: string, now: int)
    requires IsMac(mac)
    ensures VerifyPoWToken(mac, s, now) == Good <==>
      exists ts, nonce :: Spells(mac, s, ts, nonce) && InWindow(ts, now)
  {
    if VerifyPoWToken(mac, s, now) == Good {
      var ts, nonce := VerifiedIsSpelled(mac, s, now);
      SpelledVerifies(mac, s, ts, nonce, now);
    }
    if ts, nonce :| Spells(mac, s, ts, nonce) && InWindow(ts, now) {
      SpelledVerifies(mac, s, ts, nonce, now);
    }
  }

  lemma {:induction false} EncodingIsLower(b: Bytes)
    ensures Lower(EncodeHex(b)) == EncodeHex(b)
    ensures Trimmed(EncodeHex(b))
  {
    if b != [] {
      EncodingIsLower(b[1..]);
      assert Lower(EncodeHex(b)) == EncodeHex(b);
      var r := EncodeHex(b);
      assert b[1..] != [] ==> r[|r| - 1] == EncodeHex(b[1..])[|r| - 3];
    }
  }

  lemma TokenSpellsItself(mac: Bytes -> Bytes, ts: nat, nonce: Bytes)
    requires IsMac(mac) && ts < TWO_64 && |nonce| == 16
    ensures Spells(mac, Token(mac, ts, nonce), ts, nonce)
  {
    EncodingIsLower(Raw(mac, ts, nonce));
    TrimmedIsFixed(Token(mac, ts, nonce));
  }

  /** The round trip: issued at `t`, verified at `t'`. */
  method IssueThenVerify(mac: Bytes -> Bytes, t: nat, random: Bytes, t': int) returns (v: Verdict)
    requires IsMac(mac) && |random| == 16 && t < TWO_63
    ensures v == Good <==> t / SECOND * SECOND <= t' <= t / SECOND * SECOND + LIFETIME
    ensures v != BadToken
  {
    var token := IssuePoWToken(mac, t, Some(random));
    ghost var ts := t / SECOND;
    TokenSpellsItself(mac, ts, random);
    SpelledVerifies(mac, token, ts, random, t');
    v := VerifyPoWToken(mac, token, t');
  }
}
