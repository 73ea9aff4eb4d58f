/**
  The cryptographic primitives as parameters, and the envelope around them.
  HMAC-SHA256, argon2id, HKDF and XChaCha20-Poly1305 are functions about which
  only the laws of `Lawful` are assumed.
 */
module Crypto {
  import opened Common

  datatype Suite = Suite(
    mac: (Bytes, string) -> Bytes,                  // CaseCodeLookup: HMAC under the lookup key
    hash: (string, Bytes) -> Bytes,                 // HashCode: argon2id of a code and a salt
    kdf: (string, string) -> Bytes,                 // HKDF of a code, salted with the case id
    seal: (Bytes, Bytes, string) -> Bytes,          // key, nonce, plaintext
    open: (Bytes, Bytes, Bytes) -> Option<string>)  // key, nonce, ciphertext

  ghost predicate Lawful(s: Suite) {
    && (forall k, a, b :: s.mac(k, a) == s.mac(k, b) ==> a == b)
    && (forall a, b, salt :: s.hash(a, salt) == s.hash(b, salt) ==> a == b)
    && (forall k, n, p :: s.open(k, n, s.seal(k, n, p)) == Some(p))
  }

  /** VerifyCode: a constant-time comparison of equal-length digests is equality. */
  predicate VerifyCode(s: Suite, code: string, salt: Bytes, expected: Bytes) {
    s.hash(code, salt) == expected
  }

  const MAGIC: Bytes := "KKK1"
  const VERSION := 1
  const NONCE_SIZE := 24

  datatype Unwrapped = Bad | Envelope(version: nat, payload: Bytes)

  /** binary.BigEndian.PutUint16. */
  function BigEndian16(v: nat): (r: Bytes)
    requires v < 0x1_0000
    ensures |r| == 2
  {
    [(v / 256) as char, (v % 256) as char]
  }

  method WrapEnvelope(version: nat, payload: Bytes) returns (out: Bytes)
    requires version < 0x1_0000
    ensures out == Wrapped(version, payload)
  {
    var a := new Byte[8 + |payload|](_ => '\0');
    a[0], a[1], a[2], a[3] := 'K', 'K', 'K', '1';
    a[4], a[5] := (version / 256) as char, (version % 256) as char;
    assert a[..8] == MAGIC + BigEndian16(version) + ['\0', '\0'];
    for i := 0 to |payload|
      invariant a[..8] == MAGIC + BigEndian16(version) + ['\0', '\0']
      invariant a[8..8 + i] == payload[..i]
    {
      a[8 + i] := payload[i];
    }
    out := a[..];
    assert out == a[..8] + a[8..8 + |payload|];
  }

  /** Magic, version, two reserved zero bytes, payload. */
  function Wrapped(version: nat, payload: Bytes): Bytes
    requires version < 0x1_0000
  {
    MAGIC + BigEndian16(version) + ['\0', '\0'] + payload
  }

  function UnwrapEnvelope(blob: Bytes): Unwrapped {
    if |blob| < 8 then Bad
    else if blob[0..4] != MAGIC then Bad
    else Envelope(blob[4] as int * 256 + blob[5] as int, blob[8..])
  }

  /**
    The two are inverse, and a blob opens exactly when it is a wrapped payload
    up to its two reserved bytes, which the reader ignores.
   */
  lemma EnvelopeRoundTrip(version: nat, payload: Bytes, blob: Bytes)
    requires version < 0x1_0000
    ensures UnwrapEnvelope(Wrapped(version, payload)) == Envelope(version, payload)
    ensures UnwrapEnvelope(blob) == Envelope(version, payload) <==>
      |blob| >= 8 && blob[..6] + ['\0', '\0'] + blob[8..] == Wrapped(version, payload)
  {
    var w := Wrapped(version, payload);
    assert w[0..4] == MAGIC && w[8..] == payload;
    if UnwrapEnvelope(blob) == Envelope(version, payload) {
      assert blob[..6] == blob[0..4] + [blob[4], blob[5]];
      assert blob[4] as int * 256 + blob[5] as int == version;
      assert [blob[4], blob[5]] == BigEndian16(version);
    }
    if |blob| >= 8 && blob[..6] + ['\0', '\0'] + blob[8..] == w {
      var b := blob[..6] + ['\0', '\0'] + blob[8..];
      assert b[0..4] == blob[0..4] && b[4] == blob[4] && b[5] == blob[5] && b[8..] == blob[8..];
      assert w[4] as int * 256 + w[5] as int == version;
    }
  }

  /** EncryptSymmetric with the nonce it drew. */
  function EncryptSymmetric(s: Suite, key: Bytes, nonce: Bytes, plaintext: string): Bytes {
    Wrapped(VERSION, nonce + s.seal(key, nonce, plaintext))
  }

  function DecryptSymmetric(s: Suite, key: Bytes, blob: Bytes): Option<string> {
    match UnwrapEnvelope(blob)
    case Bad => None
    case Envelope(version, payload) =>
      if version != VERSION || |payload| < NONCE_SIZE then None
      else s.open(key, payload[..NONCE_SIZE], payload[NONCE_SIZE..])
  }

  /** The blob is an envelope of version 1, up to its reserved bytes, around a nonce and what opens with it. */
  ghost predicate OpensTo(s: Suite, key: Bytes, blob: Bytes, nonce: Bytes, box: Bytes, text: string) {
    && |nonce| == 24 && s.open(key, nonce, box) == Some(text)
    && |blob| >= 8 && blob[..6] + ['\0', '\0'] + blob[8..] == "KKK1" + ['\0', 1 as char, '\0', '\0'] + nonce + box
  }

  lemma VersionOne(payload: Bytes)
    ensures Wrapped(1, payload) == "KKK1" + ['\0', 1 as char, '\0', '\0'] + payload
  {
    assert BigEndian16(1) == ['\0', 1 as char];
  }

  lemma TwoParts(nonce: Bytes, box: Bytes)
    requires |nonce| == 24
    ensures var p := nonce + box; |p| >= 24 && p[..24] == nonce && p[24..] == box
    ensures "KKK1" + ['\0', 1 as char, '\0', '\0'] + nonce + box == Wrapped(1, nonce + box)
  {
    VersionOne(nonce + box);
    var front: Bytes := "KKK1" + ['\0', 1 as char, '\0', '\0'];
    assert front + nonce + box == front + (nonce + box);
  }

  lemma OpenedWasSealed(s: Suite, key: Bytes, blob: Bytes, text: string) returns (nonce: Bytes, box: Bytes)
    requires DecryptSymmetric(s, key, blob) == Some(text)
    ensures OpensTo(s, key, blob, nonce, box, text)
  {
    var payload := UnwrapEnvelope(blob).payload;
    nonce, box := payload[..24], payload[24..];
    assert payload == nonce + box;
    EnvelopeRoundTrip(1, payload, blob);
    TwoParts(nonce, box);
  }

  lemma SealedOpens(s: Suite, key: Bytes, blob: Bytes, nonce: Bytes, box: Bytes, text: string)
    requires OpensTo(s, key, blob, nonce, box, text)
    ensures DecryptSymmetric(s, key, blob) == Some(text)
  {
    TwoParts(nonce, box);
    EnvelopeRoundTrip(1, nonce + box, blob);
  }

  /** Nothing but such a blob is ever opened. */
  lemma OpensIffSealed(s: Suite, key: Bytes, blob: Bytes, text: string)
    ensures DecryptSymmetric(s, key, blob) == Some(text) <==> exists nonce, box :: OpensTo(s, key, blob, nonce, box, text)
  {
    if DecryptSymmetric(s, key, blob) == Some(text) {
      var nonce, box := OpenedWasSealed(s, key, blob, text);
    }
    if nonce, box :| OpensTo(s, key, blob, nonce, box, text) {
      SealedOpens(s, key, blob, nonce, box, text);
    }
  }

  lemma SymmetricRoundTrip(s: Suite, key: Bytes, nonce: Bytes, plaintext: string)
    requires Lawful(s) && |nonce| == NONCE_SIZE
    ensures DecryptSymmetric(s, key, EncryptSymmetric(s, key, nonce, plaintext)) == Some(plaintext)
  {
    var payload := nonce + s.seal(key, nonce, plaintext);
    EnvelopeRoundTrip(VERSION, payload, []);
    assert payload[..NONCE_SIZE] == nonce && payload[NONCE_SIZE..] == s.seal(key, nonce, plaintext);
  }
}
