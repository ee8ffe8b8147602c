/** The token cache and circuit breaker of internal/spotifyapi/spotifyapi.go. Times are integer
    nanoseconds; 0 is Go's zero time. */
module SpotifyBreaker {
  import opened Options

  const MAX_CONSECUTIVE_FAILURES := 3
  const CIRCUIT_COOLDOWN := 600_000_000_000
  const EARLY_REFRESH := 60_000_000_000

  datatype Breaker = Breaker(token: string, tokenExpiry: int, failures: nat, openUntil: int)

  const INIT := Breaker("", 0, 0, 0)

  datatype TokenAnswer = Refused | Granted(token: string, ttl: int)

  /** One GetTrack that misses its cache: the breaker is consulted at `start`; the token endpoint, if asked,
      has answered by `mid`; the track request has been answered by `end`, with 401 or not. */
  datatype Call = Call(start: int, answer: TokenAnswer, mid: int, unauthorized: bool, end: int)

  predicate Blocked(b: Breaker, now: int) { now < b.openUntil }

  predicate HasToken(b: Breaker, now: int) { b.token != "" && now < b.tokenExpiry }

  function Failed(b: Breaker, now: int): Breaker {
    var n := b.failures + 1;
    b.(failures := n, openUntil := if n >= MAX_CONSECUTIVE_FAILURES then now + CIRCUIT_COOLDOWN else b.openUntil)
  }

  /** Whether the call obtains a new token. */
  predicate Acquires(b: Breaker, c: Call) {
    !Blocked(b, c.start) && !HasToken(b, c.start) && c.answer.Granted?
  }

  /** The token a call goes on with, if it gets one. */
  function HandedOut(b: Breaker, c: Call): Option<string> {
    if Blocked(b, c.start) then None
    else if HasToken(b, c.start) then Some(b.token)
    else if c.answer.Granted? then Some(c.answer.token) else None
  }

  /** The moment the call reaches recordFailure, if it does. */
  function FailureTimes(b: Breaker, c: Call): seq<int> {
    if Blocked(b, c.start) then []
    else if !HasToken(b, c.start) && c.answer.Refused? then [c.mid]
    else if c.unauthorized then [c.end]
    else []
  }

  function Step(b: Breaker, c: Call): Breaker {
    if Blocked(b, c.start) then b
    else if !HasToken(b, c.start) && c.answer.Refused? then Failed(b, c.mid)
    else
      var t := if HasToken(b, c.start) then b
               else Breaker(c.answer.token, c.mid + c.answer.ttl - EARLY_REFRESH, 0, 0);
      if c.unauthorized then Failed(t, c.end) else t
  }

  // ---------------------------------------------------------------- the client object

  class Client {
    var token: string
    var tokenExpiry: int
    var consecutiveFailures: nat
    var circuitOpenUntil: int

    function State(): Breaker
      reads this
    {
      Breaker(token, tokenExpiry, consecutiveFailures, circuitOpenUntil)
    }

    constructor ()
      ensures State() == INIT
    {
      token, tokenExpiry, consecutiveFailures, circuitOpenUntil := "", 0, 0, 0;
    }

    method RecordFailure(now: int)
      modifies this
      ensures State() == Failed(old(State()), now)
    {
      consecutiveFailures := consecutiveFailures + 1;
      if consecutiveFailures >= MAX_CONSECUTIVE_FAILURES {
        circuitOpenUntil := now + CIRCUIT_COOLDOWN;
      }
    }

    /** getToken; `ok` is false on every error return, and the token is then empty. */
    method GetToken(start: int, answer: TokenAnswer, mid: int) returns (ok: bool, tok: string)
      modifies this
      ensures var b := old(State());
        if Blocked(b, start) then !ok && tok == "" && State() == b
        else if HasToken(b, start) then ok && tok == b.token && State() == b
        else if answer.Refused? then !ok && tok == "" && State() == Failed(b, mid)
        else ok && tok == answer.token && State() == Breaker(answer.token, mid + answer.ttl - EARLY_REFRESH, 0, 0)
    {
      if start < circuitOpenUntil { return false, ""; }
      if token != "" && start < tokenExpiry { return true, token; }
      match answer
      case Refused =>
        RecordFailure(mid);
        ok, tok := false, "";
      case Granted(t, ttl) =>
        token := t;
        tokenExpiry := mid + ttl - EARLY_REFRESH;
        consecutiveFailures := 0;
        circuitOpenUntil := 0;
        ok, tok := true, t;
    }

    /** GetTrack past its cache lookup, up to the response status. */
    method GetTrack(c: Call) returns (ok: bool)
      modifies this
      ensures State() == Step(old(State()), c)
      ensures ok <==> HandedOut(old(State()), c).Some? && !c.unauthorized
      ensures ok ==> FailureTimes(old(State()), c) == []
    {
      var tok: string;
      ok, tok := GetToken(c.start, c.answer, c.mid);
      if !ok { return; }
      if c.unauthorized {
        RecordFailure(c.end);
        return false;
      }
    }
  }

  // ---------------------------------------------------------------- runs of calls one after another

  function After(b: Breaker, cs: seq<Call>): Breaker
    decreases |cs|
  {
    if cs == [] then b else After(Step(b, cs[0]), cs[1..])
  }

  function Failures(b: Breaker, cs: seq<Call>): seq<int>
    decreases |cs|
  {
    if cs == [] then [] else FailureTimes(b, cs[0]) + Failures(Step(b, cs[0]), cs[1..])
  }

  lemma {:induction false} AfterSnoc(b: Breaker, cs: seq<Call>, c: Call)
    ensures After(b, cs + [c]) == Step(After(b, cs), c)
    decreases |cs|
  {
    if cs == [] {
      assert [c][1..] == [];
    } else {
      assert (cs + [c])[1..] == cs[1..] + [c];
      AfterSnoc(Step(b, cs[0]), cs[1..], c);
    }
  }

  /** Call `j` of a run obtains a new token. */
  ghost predicate AcquiresAt(cs: seq<Call>, j: int) {
    0 <= j < |cs| && Acquires(After(INIT, cs[..j]), cs[j])
  }

  /** Call `j` is the last of the run to obtain one. */
  ghost predicate LastAcquired(cs: seq<Call>, j: int) { AcquiresAt(cs, j) && forall k :: j < k < |cs| ==> !AcquiresAt(cs, k) }

  lemma AcquiresStays(cs: seq<Call>, c: Call, j: int)
    requires j < |cs|
    ensures AcquiresAt(cs + [c], j) <==> AcquiresAt(cs, j)
  {
    if 0 <= j { assert (cs + [c])[..j] == cs[..j]; }
  }

  /** The token the client holds after a run: the one obtained last, valid until a minute before it expires. */
  lemma {:induction false} TokenHeld(cs: seq<Call>)
    ensures var b := After(INIT, cs);
      || (b.token == "" && forall j :: !AcquiresAt(cs, j))
      || exists j :: LastAcquired(cs, j) && b.token == cs[j].answer.token
           && b.tokenExpiry == cs[j].mid + cs[j].answer.ttl - 60_000_000_000
    decreases |cs|
  {
    if cs != [] {
      var init, c := cs[..|cs| - 1], cs[|cs| - 1];
      assert cs == init + [c];
      TokenHeld(init);
      AfterSnoc(INIT, init, c);
      forall j | j < |init| ensures AcquiresAt(cs, j) <==> AcquiresAt(init, j) { AcquiresStays(init, c, j); }
      assert AcquiresAt(cs, |init|) <==> Acquires(After(INIT, init), c);
      if Acquires(After(INIT, init), c) {
        assert LastAcquired(cs, |init|);
      } else if j :| LastAcquired(init, j) {
        assert LastAcquired(cs, j);
      }
    }
  }

  lemma OneLastAcquired(cs: seq<Call>, i: int, j: int)
    requires LastAcquired(cs, i) && LastAcquired(cs, j)
    ensures i == j
  {
  }

  /** Which token a call gets: with the circuit closed, the one obtained last while it has more than a minute to live,
      without asking again; otherwise what the token endpoint grants it, if it does. */
  lemma TokensAreGranted(cs: seq<Call>, j: int, c: Call)
    requires LastAcquired(cs, j) || (j == -1 && forall k :: !AcquiresAt(cs, k))
    ensures var b := After(INIT, cs);
      if Blocked(b, c.start) then HandedOut(b, c) == None
      else if j >= 0 && cs[j].answer.token != "" && c.start < cs[j].mid + cs[j].answer.ttl - 60_000_000_000
      then HandedOut(b, c) == Some(cs[j].answer.token) && !Acquires(b, c)
      else HandedOut(b, c) == (if c.answer.Granted? then Some(c.answer.token) else None)
           && (Acquires(b, c) <==> c.answer.Granted?)
  {
    TokenHeld(cs);
    if k :| LastAcquired(cs, k) {
      if j >= 0 { OneLastAcquired(cs, j, k); }
    }
  }

  lemma {:induction false} ThreeToOpen(b: Breaker, cs: seq<Call>, now: int)
    requires b.openUntil == 0 && b.failures + |Failures(b, cs)| < 3 && now >= 0
    ensures !Blocked(After(b, cs), now)
    decreases |cs|
  {
    if cs != [] {
      ThreeToOpen(Step(b, cs[0]), cs[1..], now);
    }
  }

  /** It takes three failures after a new token to open the circuit again. */
  lemma NewTokenClosesCircuit(b: Breaker, c: Call, cs: seq<Call>, now: int)
    requires Acquires(b, c) && now >= 0 && |FailureTimes(b, c)| + |Failures(Step(b, c), cs)| < 3
    ensures !Blocked(After(Step(b, c), cs), now)
  {
    ThreeToOpen(Step(b, c), cs, now);
  }

  /** And three to open the circuit of a new client. */
  lemma StartsClosed(cs: seq<Call>, now: int)
    requires now >= 0 && |Failures(INIT, cs)| < 3
    ensures !Blocked(After(INIT, cs), now)
  {
    ThreeToOpen(INIT, cs, now);
  }

  /** Each call starts after the one before it ended, none before `from` or ending after `to`. */
  predicate Sequential(from: int, to: int, cs: seq<Call>)
    decreases |cs|
  {
    if cs == [] then from <= to
    else from <= cs[0].start <= cs[0].mid <= cs[0].end && Sequential(cs[0].end, to, cs[1..])
  }

  predicate NoneAcquires(b: Breaker, cs: seq<Call>)
    decreases |cs|
  {
    cs == [] || (!Acquires(b, cs[0]) && NoneAcquires(Step(b, cs[0]), cs[1..]))
  }

  function Max(a: int, b: int): int { if a < b then b else a }

  /** How many failures can still happen from state `b` between `now` and `to`. */
  function Allowance(b: Breaker, now: int, to: int): int {
    if b.failures < MAX_CONSECUTIVE_FAILURES
    then MAX_CONSECUTIVE_FAILURES - b.failures + (if to < now then 0 else (to - now) / CIRCUIT_COOLDOWN)
    else var opens := Max(now, b.openUntil);
         if to < opens then 0 else 1 + (to - opens) / CIRCUIT_COOLDOWN
  }

  lemma AllowanceShrinks(b: Breaker, now: int, later: int, to: int)
    requires now <= later
    ensures Allowance(b, later, to) <= Allowance(b, now, to)
  {
  }

  lemma FailureSpendsAllowance(b: Breaker, start: int, now: int, to: int)
    requires !Blocked(b, start) && start <= now <= to
    ensures 1 + Allowance(Failed(b, now), now, to) <= Allowance(b, start, to)
  {
    assert (to - now - CIRCUIT_COOLDOWN) / CIRCUIT_COOLDOWN == (to - now) / CIRCUIT_COOLDOWN - 1;
  }

  lemma {:induction false} SequentialEnds(from: int, to: int, cs: seq<Call>)
    requires Sequential(from, to, cs)
    ensures from <= to
    decreases |cs|
  {
    if cs != [] { SequentialEnds(cs[0].end, to, cs[1..]); }
  }

  lemma {:induction false} FailuresWithinAllowance(b: Breaker, from: int, to: int, cs: seq<Call>)
    requires Sequential(from, to, cs) && NoneAcquires(b, cs)
    ensures |Failures(b, cs)| <= Allowance(b, from, to)
    decreases |cs|
  {
    if cs != [] {
      var c := cs[0];
      SequentialEnds(c.end, to, cs[1..]);
      FailuresWithinAllowance(Step(b, c), c.end, to, cs[1..]);
      if FailureTimes(b, c) == [] {
        assert Step(b, c) == b;
        AllowanceShrinks(b, from, c.end, to);
      } else {
        var at := FailureTimes(b, c)[0];
        FailureSpendsAllowance(b, c.start, at, to);
        AllowanceShrinks(Failed(b, at), at, c.end, to);
        AllowanceShrinks(b, from, c.start, to);
      }
    }
  }

  /** From any state, in any stretch of a sequential run without a new token, the calls that reach
      recordFailure number at most 3 + (length of the stretch) / cooldown. */
  lemma FailureBound(b: Breaker, from: int, to: int, cs: seq<Call>)
    requires Sequential(from, to, cs) && NoneAcquires(b, cs)
    ensures |Failures(b, cs)| <= MAX_CONSECUTIVE_FAILURES + (to - from) / CIRCUIT_COOLDOWN
  {
    SequentialEnds(from, to, cs);
    FailuresWithinAllowance(b, from, to, cs);
  }

  /** Why: once three failures in a row have been seen, the next one is at least a cooldown later. */
  lemma FailuresApart(b: Breaker, first: Call, second: Call)
    requires FailureTimes(b, first) != [] && FailureTimes(Step(b, first), second) != []
    requires Step(b, first).failures >= MAX_CONSECUTIVE_FAILURES && second.start <= second.mid <= second.end
    ensures FailureTimes(Step(b, first), second)[0] >= FailureTimes(b, first)[0] + CIRCUIT_COOLDOWN
  {
  }

  // ---------------------------------------------------------------- the bound is attained

  /** A refused call at time `t`. */
  function RefusedAt(t: int): Call { Call(t, Refused, t, false, t) }

  /** One refused call every cooldown, `n` of them from `t` on. */
  function EveryCooldown(t: int, n: nat): seq<Call>
    decreases n
  {
    if n == 0 then [] else [RefusedAt(t)] + EveryCooldown(t + CIRCUIT_COOLDOWN, n - 1)
  }

  lemma {:induction false} EveryCooldownFails(b: Breaker, t: int, n: nat)
    requires b.token == "" && b.failures >= MAX_CONSECUTIVE_FAILURES && b.openUntil <= t
    ensures |Failures(b, EveryCooldown(t, n))| == n
    ensures Sequential(t - CIRCUIT_COOLDOWN, t + (n - 1) * CIRCUIT_COOLDOWN, EveryCooldown(t, n))
    ensures NoneAcquires(b, EveryCooldown(t, n))
    decreases n
  {
    if n > 0 {
      var cs := EveryCooldown(t, n);
      var c := RefusedAt(t);
      assert cs[0] == c && cs[1..] == EveryCooldown(t + CIRCUIT_COOLDOWN, n - 1);
      EveryCooldownFails(Step(b, c), t + CIRCUIT_COOLDOWN, n - 1);
      assert Failures(b, cs) == [t] + Failures(Step(b, c), cs[1..]);
    }
  }

  lemma RefusedFirst(b: Breaker, t: int, rest: seq<Call>)
    requires b.token == "" && b.openUntil <= t
    ensures Failures(b, [RefusedAt(t)] + rest) == [t] + Failures(Failed(b, t), rest)
    ensures NoneAcquires(b, [RefusedAt(t)] + rest) == NoneAcquires(Failed(b, t), rest)
    ensures forall to :: Sequential(t, to, [RefusedAt(t)] + rest) == Sequential(t, to, rest)
  {
    assert ([RefusedAt(t)] + rest)[1..] == rest;
  }

  /** A stretch of k cooldowns can hold 3 + k failures. */
  lemma BoundAttained(k: nat)
    ensures var cs := [RefusedAt(1)] + ([RefusedAt(1)] + ([RefusedAt(1)] + EveryCooldown(1 + CIRCUIT_COOLDOWN, k)));
      Sequential(1, 1 + k * CIRCUIT_COOLDOWN, cs) && NoneAcquires(INIT, cs) && |Failures(INIT, cs)| == 3 + k
  {
    var rest := EveryCooldown(1 + CIRCUIT_COOLDOWN, k);
    var b1, b2, b3 := Failed(INIT, 1), Failed(Failed(INIT, 1), 1), Failed(Failed(Failed(INIT, 1), 1), 1);
    RefusedFirst(INIT, 1, [RefusedAt(1)] + ([RefusedAt(1)] + rest));
    RefusedFirst(b1, 1, [RefusedAt(1)] + rest);
    RefusedFirst(b2, 1, rest);
    EveryCooldownFails(b3, 1 + CIRCUIT_COOLDOWN, k);
    assert 1 + CIRCUIT_COOLDOWN + (k - 1) * CIRCUIT_COOLDOWN == 1 + k * CIRCUIT_COOLDOWN;
  }
}
