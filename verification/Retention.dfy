/** How long a case stays: the configured days as nanoseconds, and the hourly sweep. */
module Retention {
  import opened Common
  import opened Ledger

  const HOUR := 3600 * SECOND
  const DAY := 24 * HOUR
  const DAY_SECONDS := 86400

  /** Arithmetic on int64 wraps around. */
  function Wrap(x: int): (r: int)
    ensures -TWO_63 <= r < TWO_63
  {
    var u := x % TWO_64;
    if u < TWO_63 then u else u - TWO_64
  }

  predicate IsInt64(x: int) {
    -TWO_63 <= x < TWO_63
  }

  /** `time.Duration(days) * 24 * time.Hour`, or ninety days when that is not positive. */
  function TtlNanos(days: int): int {
    var ttl := Wrap(Wrap(days * 24) * HOUR);
    if ttl <= 0 then 90 * DAY else ttl
  }

  /** now.Add(ttl).Unix() on a whole second: the seconds of the time to live, rounded down. */
  function TtlSeconds(days: int): int {
    TtlNanos(days) / SECOND
  }

  lemma WrapFits(x: int)
    requires IsInt64(x)
    ensures Wrap(x) == x
  {
  }

  /**
    The case lives for the configured number of days if and only if that is
    between 1 and 106751; zero and negative numbers down to -106751 mean
    ninety days.
   */
  lemma DaysAreKept(days: int)
    requires IsInt64(days)
    ensures TtlNanos(days) == days * DAY <==> 1 <= days <= 106751
    ensures 1 <= days <= 106751 ==> TtlSeconds(days) == days * DAY_SECONDS
    ensures -106751 <= days <= 0 ==> TtlSeconds(days) == 90 * DAY_SECONDS
    ensures TtlSeconds(days) >= 0
  {
    if -106751 <= days <= 106751 {
      WrapFits(days * 24);
      WrapFits(days * 24 * HOUR);
    }
  }

  /** More days than fit can mean less than an hour: 213504 days, some 584 years, are kept for 25 minutes. */
  lemma TooManyDays()
    ensures TtlSeconds(213504) == 1526
    ensures TtlSeconds(106752) == 90 * DAY_SECONDS
  {
    WrapFits(213504 * 24);
    WrapFits(106752 * 24);
    assert 213504 * 24 * HOUR == TWO_64 + 1526290448384;
    assert 106752 * 24 * HOUR - TWO_64 < 0;
  }

  // ---- when a sweep may take a case, and when it must ----

  /** GC at `g` selects a case submitted at `at`. */
  predicate Due(at: int, ttl: int, g: int) {
    Expiry(at, ttl) < g
  }

  /** Rounding the submission down to the hour costs a case less than an hour of its time to live, and adds nothing. */
  lemma NotBeforeAndNotAfter(at: int, ttl: int, g: int)
    ensures g <= at + ttl - 3600 ==> !Due(at, ttl, g)
    ensures g > at + ttl ==> Due(at, ttl, g)
    ensures at % 3600 == 0 ==> (Due(at, ttl, g) <==> g > at + ttl)
  {
  }

  /** Ids are not reused: the submission at `c` is the only one under its id. */
  predicate OnlyUse(h: seq<Event>, c: int) {
    SubmittedAt(h, c) && forall j :: 0 <= j < |h| && j != c && h[j].Submitted? ==> h[j].id != h[c].id
  }

  /** A case is never swept early: without a wipe it is in the book until a sweep in its last hour or later. */
  lemma NeverEarly(h: seq<Event>, c: nat)
    requires OnlyUse(h, c)
    requires forall j :: c < j < |h| ==> !h[j].Wiped?
    requires forall j :: c < j < |h| && h[j].Swept? ==> h[j].now <= h[c].at + h[c].ttl - 3600
    ensures h[c].id in Run(h) && Run(h)[h[c].id].code == h[c].code
  {
    forall j | c < j < |h| ensures !Ends(h[j], h[c].id, Expiry(h[c].at, h[c].ttl)) {
      if h[j].Swept? {
        NotBeforeAndNotAfter(h[c].at, h[c].ttl, h[j].now);
      }
    }
    OpenIsBooked(h, c);
  }

  /** One sweep after the time to live is enough. */
  lemma GoneAfterSweep(h: seq<Event>, c: nat, j: nat)
    requires OnlyUse(h, c) && c < j < |h| && h[j].Swept? && h[j].now > h[c].at + h[c].ttl
    ensures h[c].id !in Run(h)
  {
    NotBeforeAndNotAfter(h[c].at, h[c].ttl, h[j].now);
    if h[c].id in Run(h) {
      var d := BookedIsOpen(h, h[c].id);
      assert d == c;
      assert Ends(h[j], h[c].id, Expiry(h[c].at, h[c].ttl));
    }
  }

  /**
    Without a wipe a case is in the book exactly as long as no sweep has run
    later than its time to live counted from the hour of its submission.
   */
  lemma BookedUntilSwept(h: seq<Event>, c: nat, hour: int)
    requires OnlyUse(h, c) && IsHourOf(hour, h[c].at)
    requires forall j :: c < j < |h| ==> !h[j].Wiped?
    ensures h[c].id in Run(h) <==> forall j :: c < j < |h| && h[j].Swept? ==> h[j].now <= hour + h[c].ttl
  {
    ExpiryFromTheHour(h[c].at, h[c].ttl, hour);
    if h[c].id in Run(h) {
      var d := BookedIsOpen(h, h[c].id);
      assert d == c;
      forall j | c < j < |h| && h[j].Swept? ensures h[j].now <= hour + h[c].ttl {
        assert !Ends(h[j], h[c].id, Expiry(h[c].at, h[c].ttl));
      }
    } else {
      assert !Open(h, c) by {
        if Open(h, c) {
          OpenIsBooked(h, c);
        }
      }
    }
  }

  // ---- the sweeper's schedule ----

  /** A sweep at start-up, then each at most an hour after the one before. */
  ghost predicate Hourly(ticks: nat -> int) {
    forall k: nat :: WithinAnHour(ticks, k)
  }

  predicate WithinAnHour(ticks: nat -> int, k: nat) {
    ticks(k) < ticks(k + 1) <= ticks(k) + 3600
  }

  /** At any time from start-up on, the last sweep is less than an hour old. */
  lemma {:induction false} LastTick(ticks: nat -> int, t: int, from: nat) returns (k: nat)
    requires Hourly(ticks) && ticks(from) <= t
    ensures t - 3600 < ticks(k) <= t
    decreases t - ticks(from)
  {
    assert WithinAnHour(ticks, from);
    if ticks(from + 1) <= t {
      k := LastTick(ticks, t, from + 1);
    } else {
      k := from;
    }
  }

  /** Every sweep due by `t` has happened, and happened after the submissions before it. */
  ghost predicate SweptOnTime(h: seq<Event>, ticks: nat -> int, t: int) {
    && Hourly(ticks) && ticks(0) <= t
    && (forall k: nat :: ticks(k) <= t ==> Swept(ticks(k)) in h)
    && (forall i, j :: 0 <= i < j < |h| && h[i].Swept? && h[j].Submitted? ==> h[i].now <= h[j].at)
  }

  /** With its sweeper running, the portal holds no case for more than an hour past its time to live. */
  lemma GoneInTime(h: seq<Event>, c: nat, ticks: nat -> int, t: int)
    requires OnlyUse(h, c) && h[c].ttl >= 0
    requires SweptOnTime(h, ticks, t) && t > h[c].at + h[c].ttl + 3600
    ensures h[c].id !in Run(h)
  {
    var k := LastTick(ticks, t, 0);
    var j :| 0 <= j < |h| && h[j] == Swept(ticks(k));
    GoneAfterSweep(h, c, j);
  }
}
