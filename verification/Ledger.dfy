/**
  What the portal promises, without rows, digests or files: a book of open
  cases, each with the code its visitor holds, its expiry, its sealed submission and
  the last reply saved for it; and what a history of the portal says about one case.
 */
module Ledger {
  import opened Common
  import opened Text

  datatype Entry = Entry(code: string, expiresAt: int, blob: Bytes, reply: Option<string>)

  type Book = map<Id, Entry>

  /** What happened at the portal; texts of a reply are as typed into the form. */
  datatype Event =
    | Submitted(id: Id, code: string, at: int, ttl: int, blob: Bytes)
    | Replied(id: Id, typedCode: string, typedBody: string)
    | Swept(now: int)
    | Wiped

  /** The hour of the submission plus the time to live. */
  function Expiry(at: int, ttl: int): int {
    at - at % 3600 + ttl
  }

  /** The time to live is counted from the last whole hour before the submission. */
  lemma ExpiryFromTheHour(at: int, ttl: int, hour: int)
    requires IsHourOf(hour, at)
    ensures Expiry(at, ttl) == hour + ttl
  {
    assert at - at % 3600 == 3600 * (at / 3600);
  }

  /** The admin typed this case's code and a reply. */
  predicate Answers(code: string, typedCode: string, typedBody: string) {
    TrimSpace(typedCode) == code && TrimSpace(typedCode) != "" && TrimSpace(typedBody) != ""
  }

  function AfterReply(b: Book, id: Id, typedCode: string, typedBody: string): Book {
    if id in b && Answers(b[id].code, typedCode, typedBody) then b[id := b[id].(reply := Some(TrimSpace(typedBody)))] else b
  }

  function AfterSweep(b: Book, now: int): Book {
    map id | id in b && !(b[id].expiresAt < now) :: b[id]
  }

  function Step(b: Book, e: Event): Book {
    match e
    case Submitted(id, code, at, ttl, blob) => b[id := Entry(code, Expiry(at, ttl), blob, None)]
    case Replied(id, code, body) => AfterReply(b, id, code, body)
    case Swept(now) => AfterSweep(b, now)
    case Wiped => map[]
  }

  function Run(h: seq<Event>): Book {
    if h == [] then map[] else Step(Run(h[..|h| - 1]), h[|h| - 1])
  }

  predicate DistinctCodes(b: Book) {
    forall id, id' :: id in b && id' in b && b[id].code == b[id'].code ==> id == id'
  }

  /** What /reply shows. */
  datatype View = NoMatch | Verified(id: Id) | HasReply(id: Id, text: string)

  /** The view that the book calls for, whatever white space surrounds the typed code. */
  predicate Shows(b: Book, typed: string, v: View) {
    match v
    case NoMatch => forall id :: id in b ==> b[id].code != TrimSpace(typed)
    case Verified(id) => id in b && b[id].code == TrimSpace(typed) && b[id].reply == None
    case HasReply(id, text) => id in b && b[id].code == TrimSpace(typed) && b[id].reply == Some(text)
  }

  // ---- what a history says ----

  predicate SubmittedAt(h: seq<Event>, c: int) {
    0 <= c < |h| && h[c].Submitted?
  }

  /** The event ends a case with this id and expiry. */
  predicate Ends(e: Event, id: Id, expiresAt: int) {
    match e
    case Submitted(other, _, _, _, _) => other == id
    case Replied(_, _, _) => false
    case Swept(now) => expiresAt < now
    case Wiped => true
  }

  /** The case submitted by event `c` is still open. */
  predicate Open(h: seq<Event>, c: int) {
    SubmittedAt(h, c) && forall j :: c < j < |h| ==> !Ends(h[j], h[c].id, Expiry(h[c].at, h[c].ttl))
  }

  /** The text of the last of the first `n` events that answered the case submitted by event `c`. */
  function LastReply(h: seq<Event>, c: nat, n: nat): Option<string>
    requires SubmittedAt(h, c) && n <= |h|
  {
    if n <= c + 1 then None
    else if h[n - 1].Replied? && h[n - 1].id == h[c].id && Answers(h[c].code, h[n - 1].typedCode, h[n - 1].typedBody)
    then Some(TrimSpace(h[n - 1].typedBody))
    else LastReply(h, c, n - 1)
  }

  lemma {:induction false} LastReplyPrefix(h: seq<Event>, c: nat, m: nat, n: nat)
    requires SubmittedAt(h, c) && n <= m <= |h| && c < m
    ensures LastReply(h[..m], c, n) == LastReply(h, c, n)
  {
    if n > c + 1 {
      LastReplyPrefix(h, c, m, n - 1);
    }
  }

  lemma OpenBefore(h: seq<Event>, c: int)
    requires Open(h, c) && c < |h| - 1
    ensures Open(h[..|h| - 1], c)
  {
  }

  lemma OpenAfter(p: seq<Event>, e: Event, c: int)
    requires Open(p, c) && !Ends(e, p[c].id, Expiry(p[c].at, p[c].ttl))
    ensures Open(p + [e], c)
  {
  }

  function EntryOf(h: seq<Event>, c: nat): Entry
    requires SubmittedAt(h, c)
  {
    Entry(h[c].code, Expiry(h[c].at, h[c].ttl), h[c].blob, LastReply(h, c, |h|))
  }

  /** An open case is in the book, with its latest reply. */
  lemma {:induction false} OpenIsBooked(h: seq<Event>, c: nat)
    requires Open(h, c)
    ensures h[c].id in Run(h) && Run(h)[h[c].id] == EntryOf(h, c)
  {
    var n := |h| - 1;
    if c < n {
      OpenBefore(h, c);
      OpenIsBooked(h[..n], c);
      LastReplyPrefix(h, c, n, n);
      assert !Ends(h[n], h[c].id, Expiry(h[c].at, h[c].ttl));
    }
  }

  /** Nothing is in the book but open cases. */
  lemma {:induction false} BookedIsOpen(h: seq<Event>, id: Id) returns (c: nat)
    requires id in Run(h)
    ensures Open(h, c) && h[c].id == id
  {
    var n := |h| - 1;
    var p, e := h[..n], h[n];
    if e.Submitted? && e.id == id {
      c := n;
    } else {
      c := BookedIsOpen(p, id);
      OpenIsBooked(p, c);
      assert h == p + [e];
      OpenAfter(p, e, c);
    }
  }

  predicate Unused(b: Book, code: string) {
    forall id :: id in b ==> b[id].code != code
  }

  /** No submission of the history drew the code of a case that was open at the time. */
  predicate LiveCodesDiffer(h: seq<Event>) {
    h == [] ||
    var p, e := h[..|h| - 1], h[|h| - 1];
    LiveCodesDiffer(p) && (e.Submitted? ==> Unused(Run(p), e.code))
  }

  lemma {:induction false} LiveCodesAreDistinct(h: seq<Event>)
    requires LiveCodesDiffer(h)
    ensures DistinctCodes(Run(h))
  {
    if h != [] {
      var n := |h| - 1;
      LiveCodesAreDistinct(h[..n]);
      StepKeepsDistinct(Run(h[..n]), h[n]);
    }
  }

  lemma StepKeepsDistinct(b: Book, e: Event)
    requires DistinctCodes(b) && (e.Submitted? ==> Unused(b, e.code))
    ensures DistinctCodes(Step(b, e))
  {
  }

  lemma {:induction false} LiveCodesBefore(h: seq<Event>, more: seq<Event>)
    requires LiveCodesDiffer(h + more)
    ensures LiveCodesDiffer(h)
    decreases |more|
  {
    if more == [] {
      assert h + more == h;
    } else {
      var n := |more| - 1;
      assert (h + more)[..|h| + n] == h + more[..n];
      LiveCodesBefore(h, more[..n]);
    }
  }

  /** No two submissions of the history drew the same code. */
  predicate FreshCodes(h: seq<Event>) {
    forall i, j :: 0 <= i < j < |h| && h[i].Submitted? && h[j].Submitted? ==> h[i].code != h[j].code
  }

  lemma {:induction false} FreshCodesDiffer(h: seq<Event>)
    requires FreshCodes(h)
    ensures LiveCodesDiffer(h)
  {
    if h != [] {
      var n := |h| - 1;
      FreshCodesDiffer(h[..n]);
      if h[n].Submitted? {
        FreshIsUnused(h, n);
      }
    }
  }

  lemma FreshIsUnused(h: seq<Event>, n: nat)
    requires FreshCodes(h) && n < |h| && h[n].Submitted?
    ensures Unused(Run(h[..n]), h[n].code)
  {
    forall id | id in Run(h[..n]) ensures Run(h[..n])[id].code != h[n].code {
      var c := BookedIsOpen(h[..n], id);
      OpenIsBooked(h[..n], c);
      assert h[..n][c] == h[c];
    }
  }

  function ViewOf(id: Id, reply: Option<string>): View {
    if reply.None? then Verified(id) else HasReply(id, reply.value)
  }

  /**
    /reply, over whole histories.  A visitor sees "no-match" exactly when no
    open case has the typed code; otherwise the text shown is that of the
    latest admin reply that carried the case's own id and code, or "verified"
    when there was none.
   */
  lemma LatestReplyIsShown(h: seq<Event>, typed: string, v: View)
    requires LiveCodesDiffer(h) && Shows(Run(h), typed, v)
    ensures v.NoMatch? <==> forall c :: Open(h, c) ==> h[c].code != TrimSpace(typed)
    ensures forall c: nat :: Open(h, c) && h[c].code == TrimSpace(typed) ==> v == ViewOf(h[c].id, LastReply(h, c, |h|))
  {
    LiveCodesAreDistinct(h);
    forall c: nat | Open(h, c) && h[c].code == TrimSpace(typed)
      ensures v == ViewOf(h[c].id, LastReply(h, c, |h|))
    {
      OpenIsBooked(h, c);
      if !v.NoMatch? {
        var d := BookedIsOpen(h, v.id);
        OpenIsBooked(h, d);
      }
    }
    if !v.NoMatch? {
      var d := BookedIsOpen(h, v.id);
      OpenIsBooked(h, d);
    }
  }

  /** After a wipe no code issued before it matches any more. */
  lemma NoCodeSurvivesWipe(h: seq<Event>, j: nat, c: nat, typed: string, v: View)
    requires FreshCodes(h) && Shows(Run(h), typed, v)
    requires c < j < |h| && h[j].Wiped? && SubmittedAt(h, c) && h[c].code == TrimSpace(typed)
    ensures v.NoMatch?
  {
    FreshCodesDiffer(h);
    LatestReplyIsShown(h, typed, v);
    forall d | Open(h, d) ensures h[d].code != TrimSpace(typed) {
      assert d <= c ==> Ends(h[j], h[d].id, Expiry(h[d].at, h[d].ttl));
    }
  }
}
