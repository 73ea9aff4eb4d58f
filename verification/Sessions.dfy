/** The admin session table: tokens that die after fifteen idle minutes. */
module Sessions {
  import opened Common
  import opened Text

  /** Fifteen minutes in nanoseconds. */
  const IDLE_TIMEOUT := 15 * 60 * SECOND

  datatype Session = Session(createdAt: int, lastSeen: int)

  type Table = map<string, Session>

  /** One call; Touch reads the clock once to check and once more to refresh. */
  datatype Event =
    | New(token: string, at: int)
    | Touch(token: string, checked: int, refreshed: int)
    | Destroy(token: string)

  /** Touch accepts the token at time `now`. */
  predicate Accepts(m: Table, token: string, now: int) {
    token != "" && token in m && now - m[token].lastSeen <= IDLE_TIMEOUT
  }

  function Step(m: Table, e: Event): Table {
    match e
    case New(token, at) => m[token := Session(at, at)]
    case Touch(token, checked, refreshed) =>
      if Accepts(m, token, checked) then m[token := m[token].(lastSeen := refreshed)]
      else if token == "" then m
      else m - {token}
    case Destroy(token) => m - {token}
  }

  function Run(h: seq<Event>): Table {
    if h == [] then map[] else Step(Run(h[..|h| - 1]), h[|h| - 1])
  }

  class SessionStore {
    var sessions: Table
    const csrf: string -> string   // hex HMAC of the session token under the CSRF key

    constructor (csrf: string -> string)
      ensures sessions == Run([]) && this.csrf == csrf
    {
      sessions := map[];
      this.csrf := csrf;
    }

    /** `token` is 32 random bytes in hex. */
    method NewSession(token: string, now: int)
      modifies this`sessions
      ensures sessions == Step(old(sessions), New(token, now))
    {
      sessions := sessions[token := Session(now, now)];
    }

    method TouchSession(token: string, checked: int, refreshed: int) returns (ok: bool)
      modifies this`sessions
      ensures ok <==> Accepts(old(sessions), token, checked)
      ensures sessions == Step(old(sessions), Touch(token, checked, refreshed))
    {
      if token == "" {
        return false;
      }
      if token !in sessions {
        assert sessions - {token} == sessions;
        return false;
      }
      if checked - sessions[token].lastSeen > IDLE_TIMEOUT {
        sessions := sessions - {token};
        return false;
      }
      sessions := sessions[token := sessions[token].(lastSeen := refreshed)];
      ok := true;
    }

    method DestroySession(token: string)
      modifies this`sessions
      ensures sessions == Step(old(sessions), Destroy(token))
    {
      sessions := sessions - {token};
    }

    /** Bound to the session: the form must carry this session's own token. */
    predicate VerifyCSRF(sessionToken: string, formToken: string): (ok: bool)
      ensures ok <==> Surrounds(formToken, csrf(sessionToken))
    {
      TrimIffSurrounds(formToken, csrf(sessionToken));
      csrf(sessionToken) == TrimSpace(formToken)
    }
  }

  /** The double-submit comparison of the anonymous forms. */
  predicate VerifyAnonCSRF(cookie: string, form: string): (ok: bool)
    ensures ok <==> cookie != "" && form != "" && SameCore(cookie, form)
  {
    SameCoreIff(cookie, form);
    cookie != "" && form != "" && TrimSpace(cookie) == TrimSpace(form)
  }

  /** The two texts differ in the white space around them at most. */
  ghost predicate SameCore(a: string, b: string) {
    exists core :: Surrounds(a, core) && Surrounds(b, core)
  }

  lemma SameCoreIff(a: string, b: string)
    ensures TrimSpace(a) == TrimSpace(b) <==> SameCore(a, b)
  {
    TrimIffSurrounds(a, TrimSpace(a));
    TrimIffSurrounds(b, TrimSpace(a));
    if core :| Surrounds(a, core) && Surrounds(b, core) {
      TrimIffSurrounds(a, core);
      TrimIffSurrounds(b, core);
    }
  }

  // ------------------------------------------------------------------
  // What a history says about a token, without the table.
  // ------------------------------------------------------------------

  /** Tokens are drawn once and are not empty. */
  predicate FreshTokens(h: seq<Event>) {
    && (forall i :: 0 <= i < |h| && h[i].New? ==> h[i].token != "")
    && (forall i, j :: 0 <= i < j < |h| && h[i].New? && h[j].New? ==> h[i].token != h[j].token)
  }

  /** When the token was last created or touched in the first `n` calls. */
  function LastUse(h: seq<Event>, token: string, n: nat): int
    requires n <= |h|
  {
    if n == 0 then 0
    else if h[n - 1].New? && h[n - 1].token == token then h[n - 1].at
    else if h[n - 1].Touch? && h[n - 1].token == token then h[n - 1].refreshed
    else LastUse(h, token, n - 1)
  }

  predicate CreatedAt(h: seq<Event>, token: string, c: int) {
    0 <= c < |h| && h[c].New? && h[c].token == token
  }

  /** Created by call `c`, not destroyed since, every touch since within fifteen minutes of the use before it. */
  predicate KeptSince(h: seq<Event>, token: string, c: int) {
    && CreatedAt(h, token, c)
    && (forall j :: c < j < |h| ==> h[j] != Destroy(token))
    && (forall j :: c < j < |h| && h[j].Touch? && h[j].token == token ==>
          h[j].checked - LastUse(h, token, j) <= 15 * 60 * SECOND)
  }

  ghost predicate Alive(h: seq<Event>, token: string, now: int) {
    && (exists c :: KeptSince(h, token, c))
    && now - LastUse(h, token, |h|) <= 15 * 60 * SECOND
  }

  lemma {:induction false} LastUsePrefix(h: seq<Event>, token: string, m: nat, n: nat)
    requires n <= m <= |h|
    ensures LastUse(h[..m], token, n) == LastUse(h, token, n)
  {
    if n > 0 {
      LastUsePrefix(h, token, m, n - 1);
    }
  }

  lemma KeptBefore(h: seq<Event>, token: string, c: int, n: nat)
    requires KeptSince(h, token, c) && c < n <= |h|
    ensures KeptSince(h[..n], token, c)
  {
    var p := h[..n];
    forall j | 0 <= j < n ensures p[j] == h[j] && LastUse(p, token, j) == LastUse(h, token, j) {
      LastUsePrefix(h, token, n, j);
    }
  }

  lemma KeptOneMore(p: seq<Event>, e: Event, token: string, c: int)
    requires KeptSince(p, token, c) && e != Destroy(token)
    requires e.Touch? && e.token == token ==> e.checked - LastUse(p, token, |p|) <= 15 * 60 * SECOND
    ensures KeptSince(p + [e], token, c)
  {
    var h := p + [e];
    forall j | c < j < |h| && h[j].Touch? && h[j].token == token
      ensures h[j].checked - LastUse(h, token, j) <= 15 * 60 * SECOND
    {
      assert h[..|p|] == p;
      LastUsePrefix(h, token, |p|, j);
    }
  }

  /** A kept token is in the table with the time of its last use. */
  lemma {:induction false} KeptIsInTable(h: seq<Event>, token: string, c: int)
    requires FreshTokens(h) && KeptSince(h, token, c)
    ensures token in Run(h) && token != "" && Run(h)[token].lastSeen == LastUse(h, token, |h|)
  {
    var n := |h| - 1;
    if c < n {
      KeptBefore(h, token, c, n);
      KeptIsInTable(h[..n], token, c);
      LastUsePrefix(h, token, n, n);
    }
  }

  /** Whatever is in the table was kept. */
  lemma {:induction false} InTableIsKept(h: seq<Event>, token: string) returns (c: int)
    requires FreshTokens(h) && token in Run(h)
    ensures KeptSince(h, token, c)
  {
    var n := |h| - 1;
    var p, e := h[..n], h[n];
    if e.New? && e.token == token {
      c := n;
    } else {
      c := InTableIsKept(p, token);
      KeptIsInTable(p, token, c);
      assert h == p + [e];
      KeptOneMore(p, e, token, c);
    }
  }

  /** The table holds exactly the kept tokens, each with the time of its last use. */
  lemma TableIsHistory(h: seq<Event>, token: string)
    requires FreshTokens(h)
    ensures token in Run(h) <==> exists c :: KeptSince(h, token, c)
    ensures token in Run(h) ==> token != "" && Run(h)[token].lastSeen == LastUse(h, token, |h|)
  {
    if token in Run(h) {
      var c := InTableIsKept(h, token);
    }
    if c :| KeptSince(h, token, c) {
      KeptIsInTable(h, token, c);
    }
  }

  /**
    Touch succeeds if and only if the token was created, has not been
    destroyed since, and no two consecutive uses of it up to now are more than
    fifteen minutes apart.
   */
  lemma TouchIffAlive(h: seq<Event>, token: string, now: int)
    requires FreshTokens(h)
    ensures Accepts(Run(h), token, now) <==> Alive(h, token, now)
  {
    TableIsHistory(h, token);
  }

  /** A token refused once after its creation is refused ever after. */
  lemma RefusedForever(h: seq<Event>, token: string, c: int, j: int, now: int)
    requires FreshTokens(h) && CreatedAt(h, token, c) && c < j < |h|
    requires h[j].Touch? && h[j].token == token && !Accepts(Run(h[..j]), token, h[j].checked)
    ensures !Accepts(Run(h), token, now)
  {
    TouchIffAlive(h, token, now);
    TouchIffAlive(h[..j], token, h[j].checked);
    if d :| KeptSince(h, token, d) {
      assert d == c;
      KeptBefore(h, token, c, j);
      LastUsePrefix(h, token, j, j);
    }
  }
}
