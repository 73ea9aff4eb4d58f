/** Response padding: every page is a whole number of 4 KiB blocks. */
module Padding {
  import opened Common

  const BLOCK_SIZE := 4096
  const MIN_PAD := 14
  const PREFIX: Bytes := "\n<!-- pad:"
  const SUFFIX: Bytes := " -->"

  function NeededPad(n: nat): nat {
    var r := n % BLOCK_SIZE;
    if r == 0 then 0
    else
      var p := BLOCK_SIZE - r;
      if p < MIN_PAD then p + BLOCK_SIZE else p
  }

  /** A size that a page of `n` bytes can be brought to: whole blocks, and room for the comment unless none is needed. */
  predicate Reachable(n: nat, total: nat) {
    total % 4096 == 0 && (total == n || total >= n + MIN_PAD)
  }

  lemma NextMultiple(n: nat, total: nat)
    requires total % BLOCK_SIZE == 0 && total > n
    ensures total >= n - n % BLOCK_SIZE + BLOCK_SIZE
  {
    var q, t := n / BLOCK_SIZE, total / BLOCK_SIZE;
    assert n == BLOCK_SIZE * q + n % BLOCK_SIZE && total == BLOCK_SIZE * t;
    assert t > q;
  }

  lemma PaddedIsWhole(n: nat)
    ensures (n + NeededPad(n)) % BLOCK_SIZE == 0
  {
    var q := n / BLOCK_SIZE;
    assert n == BLOCK_SIZE * q + n % BLOCK_SIZE;
    assert n + NeededPad(n) in {BLOCK_SIZE * q, BLOCK_SIZE * (q + 1), BLOCK_SIZE * (q + 2)};
  }

  /** The padded size is the least one that can be reached, so the fill count is never negative. */
  lemma PadIsLeast(n: nat, total: nat)
    ensures Reachable(n, n + NeededPad(n))
    ensures Reachable(n, total) ==> n + NeededPad(n) <= total
  {
    PaddedIsWhole(n);
    if Reachable(n, total) && total > n {
      NextMultiple(n, total);
      var next := n - n % BLOCK_SIZE + BLOCK_SIZE;
      if next < n + MIN_PAD {
        NextMultiple(next, total);
      }
    }
  }

  /** What is appended: nothing, or a comment of exactly that many bytes. */
  function Comment(pad: nat): (r: Bytes)
    requires pad == 0 || pad >= MIN_PAD
    ensures |r| == pad
  {
    if pad == 0 then [] else PREFIX + Repeat('x', pad - |PREFIX| - |SUFFIX|) + SUFFIX
  }

  /** An HTML comment after a line break, with nothing in it that could end it early. */
  predicate WellFormed(c: Bytes) {
    && |c| >= 8 && c[..5] == "\n<!--" && c[|c| - 3..] == "-->"
    && forall i :: 5 <= i < |c| - 3 ==> c[i] != '-' && c[i] != '>' && c[i] != '<'
  }

  lemma CommentWellFormed(pad: nat)
    requires pad >= MIN_PAD
    ensures WellFormed(Comment(pad))
  {
    var c := Comment(pad);
    var p := PREFIX;
    assert p[0] == '\n' && p[1] == '<' && p[2] == '!' && p[3] == '-' && p[4] == '-';
    assert p[5] == ' ' && p[6] == 'p' && p[7] == 'a' && p[8] == 'd' && p[9] == ':';
    assert c[..5] == p[..5];
    assert c[pad - 3..] == SUFFIX[1..];
    assert c[pad - 4] == SUFFIX[0];
    assert forall i :: 10 <= i < pad - 4 ==> c[i] == 'x';
    assert forall i :: 0 <= i < 10 ==> c[i] == p[i];
  }

  /** The connection behind the writer; it may break after any number of bytes. */
  class Connection {
    var sent: Bytes
    const room: nat

    constructor (room: nat)
      ensures sent == [] && this.room == room
    {
      sent := [];
      this.room := room;
    }

    method Write(b: Bytes) returns (ok: bool)
      modifies this
      ensures ok <==> |old(sent)| + |b| <= room
      ensures ok ==> sent == old(sent) + b
      ensures old(sent) <= sent <= old(sent) + b
    {
      ok := |sent| + |b| <= room;
      var n := if ok then |b| else if |sent| < room then room - |sent| else 0;
      sent := sent + b[..n];
    }
  }

  class PaddedWriter {
    const inner: Connection
    var buf: Bytes
    var wrote: bool

    constructor (inner: Connection)
      ensures this.inner == inner && buf == [] && !wrote
    {
      this.inner := inner;
      buf, wrote := [], false;
    }

    method Write(b: Bytes) returns (n: nat)
      modifies this
      ensures buf == old(buf) + b && wrote && n == |b|
    {
      buf := buf + b;
      wrote := true;
      n := |b|;
    }

    method Flush() returns (ok: bool)
      modifies inner
      ensures ok <==> |old(inner.sent)| + |buf| + NeededPad(|buf|) <= inner.room
      ensures ok ==> inner.sent == old(inner.sent) + Padded(buf)
      ensures old(inner.sent) <= inner.sent <= old(inner.sent) + Padded(buf)
    {
      var body := buf;
      var pad := NeededPad(|body|);
      PadIsLeast(|body|, 0);
      if pad > 0 {
        body := body + PREFIX;
        body := body + Repeat('x', pad - |PREFIX| - |SUFFIX|);
        body := body + SUFFIX;
        assert body == buf + (PREFIX + Repeat('x', pad - |PREFIX| - |SUFFIX|) + SUFFIX);
      }
      assert body == Padded(buf);
      ok := inner.Write(body);
    }
  }

  function Padded(body: Bytes): Bytes {
    PadIsLeast(|body|, 0);
    body + Comment(NeededPad(|body|))
  }

  function Concat(chunks: seq<Bytes>): Bytes {
    if chunks == [] then [] else Concat(chunks[..|chunks| - 1]) + chunks[|chunks| - 1]
  }

  /** `sent` is the body, alone or with a well-formed comment, in the least whole number of blocks. */
  ghost predicate IsPage(sent: Bytes, body: Bytes) {
    && body <= sent
    && (sent == body || WellFormed(sent[|body|..]))
    && Reachable(|body|, |sent|)
    && forall total :: Reachable(|body|, total) ==> |sent| <= total
  }

  /** Any number of writes and one flush send the concatenated writes as one padded page. */
  method Respond(conn: Connection, chunks: seq<Bytes>) returns (ok: bool)
    requires conn.sent == []
    modifies conn
    ensures ok ==> IsPage(conn.sent, Concat(chunks))
    ensures !ok ==> conn.sent <= Padded(Concat(chunks))
    ensures ok <==> |Padded(Concat(chunks))| <= conn.room
  {
    var w := new PaddedWriter(conn);
    for i := 0 to |chunks|
      invariant w.buf == Concat(chunks[..i])
      invariant conn.sent == []
    {
      assert chunks[..i + 1][..i] == chunks[..i];
      var _ := w.Write(chunks[i]);
    }
    assert chunks[..|chunks|] == chunks;
    ghost var body := w.buf;
    ok := w.Flush();
    assert [] + Padded(body) == Padded(body);
    PaddedIsPage(body);
  }

  lemma PaddedIsPage(body: Bytes)
    ensures IsPage(Padded(body), body)
  {
    var sent := Padded(body);
    var pad := NeededPad(|body|);
    forall total | Reachable(|body|, total) ensures |sent| <= total {
      PadIsLeast(|body|, total);
    }
    PadIsLeast(|body|, 0);
    assert sent[|body|..] == Comment(pad);
    if pad > 0 {
      CommentWellFormed(pad);
    }
  }
}
