/** The per-key token bucket of internal/ratelimit/ratelimit.go, over real-valued seconds. */
module RateLimit {

  /** New's arguments: tokens per second, bucket size, seconds after which an idle bucket may go. */
  datatype Params = Params(rate: real, burst: real, idle: real)

  datatype Bucket = Bucket(tokens: real, lastSeen: real)

  type Buckets = map<string, Bucket>

  predicate Valid(p: Params) { p.rate >= 0.0 && p.burst >= 0.0 && p.idle >= 0.0 }

  /** Tokens a key has at `now`: refilled up to the burst, or the full burst if it has no bucket. */
  function Available(p: Params, m: Buckets, key: string, now: real): real {
    if key !in m then p.burst else
    var t := m[key].tokens + (now - m[key].lastSeen) * p.rate;
    if t > p.burst then p.burst else t
  }

  function Allowed(p: Params, m: Buckets, key: string, now: real): bool {
    Available(p, m, key, now) >= 1.0
  }

  function AfterAllow(p: Params, m: Buckets, key: string, now: real): Buckets {
    var t := Available(p, m, key, now);
    m[key := Bucket(if t < 1.0 then t else t - 1.0, now)]
  }

  function AfterCleanup(p: Params, m: Buckets, now: real): Buckets {
    map k | k in m && !(m[k].lastSeen < now - p.idle) :: m[k]
  }

  // ---------------------------------------------------------------- the limiter object

  class Cell {
    var tokens: real
    var lastSeen: real

    constructor (tokens: real, lastSeen: real)
      ensures this.tokens == tokens && this.lastSeen == lastSeen
    {
      this.tokens, this.lastSeen := tokens, lastSeen;
    }
  }

  class Limiter {
    const p: Params
    var buckets: map<string, Cell>

    /** No two keys share a bucket. */
    ghost predicate Separate()
      reads this
    {
      forall j, k :: j in buckets && k in buckets && buckets[j] == buckets[k] ==> j == k
    }

    ghost function Contents(): Buckets
      reads this, buckets.Values
    {
      map k | k in buckets :: Bucket(buckets[k].tokens, buckets[k].lastSeen)
    }

    constructor (p: Params)
      ensures this.p == p && Separate() && Contents() == map[]
    {
      this.p := p;
      buckets := map[];
    }

    method Allow(key: string, now: real) returns (ok: bool)
      requires Separate()
      modifies this, buckets.Values
      ensures Separate() && fresh(buckets.Values - old(buckets.Values))
      ensures Contents() == AfterAllow(p, old(Contents()), key, now)
      ensures ok == Allowed(p, old(Contents()), key, now)
    {
      ghost var was := Contents();
      var b: Cell;
      if key !in buckets {
        b := new Cell(p.burst, now);
        buckets := buckets[key := b];
      } else {
        b := buckets[key];
        var elapsed := now - b.lastSeen;
        b.tokens := b.tokens + elapsed * p.rate;
        assert b.tokens == was[key].tokens + (now - was[key].lastSeen) * p.rate;
        if b.tokens > p.burst {
          b.tokens := p.burst;
        }
        b.lastSeen := now;
      }
      ghost var offered := Available(p, was, key, now);
      assert b.tokens == offered && b.lastSeen == now && buckets[key] == b;
      ok := b.tokens >= 1.0;
      if ok {
        b.tokens := b.tokens - 1.0;
      }
      ghost var target := was[key := Bucket(if offered < 1.0 then offered else offered - 1.0, now)];
      assert buckets.Keys == target.Keys;
      forall k | k in buckets ensures Bucket(buckets[k].tokens, buckets[k].lastSeen) == target[k] {
        if k != key { assert buckets[k] != b; }
      }
    }

    method Cleanup(now: real)
      requires Separate()
      modifies this
      ensures Separate() && buckets.Values <= old(buckets.Values)
      ensures Contents() == AfterCleanup(p, old(Contents()), now)
      ensures forall k :: k in buckets <==> k in old(buckets) && old(buckets[k].lastSeen) >= now - p.idle
    {
      var cutoff := now - p.idle;
      var keys := buckets.Keys;
      while keys != {}
        invariant keys <= old(buckets).Keys
        invariant buckets.Keys <= old(buckets).Keys && forall k :: k in buckets ==> buckets[k] == old(buckets)[k]
        invariant forall k :: k in keys ==> k in buckets
        invariant forall k :: k in old(buckets) && k !in keys ==> (k in buckets <==> !(old(buckets)[k].lastSeen < cutoff))
        decreases keys
      {
        var k :| k in keys;
        keys := keys - {k};
        if buckets[k].lastSeen < cutoff {
          buckets := buckets - {k};
        }
      }
    }
  }

  // ---------------------------------------------------------------- runs

  datatype Event = Request(key: string, now: real) | Sweep(now: real)

  datatype Answer = Answer(key: string, now: real, ok: bool)

  function Step(p: Params, m: Buckets, e: Event): Buckets {
    match e
    case Request(key, now) => AfterAllow(p, m, key, now)
    case Sweep(now) => AfterCleanup(p, m, now)
  }

  function After(p: Params, m: Buckets, es: seq<Event>): Buckets
    decreases |es|
  {
    if es == [] then m else After(p, Step(p, m, es[0]), es[1..])
  }

  /** The answers Allow gives, in order. */
  function Trace(p: Params, m: Buckets, es: seq<Event>): seq<Answer>
    decreases |es|
  {
    if es == [] then [] else Head(p, m, es[0]) + Trace(p, Step(p, m, es[0]), es[1..])
  }

  function Head(p: Params, m: Buckets, e: Event): seq<Answer> {
    match e
    case Request(key, now) => [Answer(key, now, Allowed(p, m, key, now))]
    case Sweep(_) => []
  }

  /** The clock never runs backwards from `t` on. */
  predicate Ordered(t: real, es: seq<Event>)
    decreases |es|
  {
    es == [] || (t <= es[0].now && Ordered(es[0].now, es[1..]))
  }

  function LastTime(t: real, es: seq<Event>): real
    decreases |es|
  {
    if es == [] then t else LastTime(es[0].now, es[1..])
  }

  function WithoutSweeps(es: seq<Event>): seq<Event>
    decreases |es|
  {
    if es == [] then [] else (if es[0].Sweep? then [] else [es[0]]) + WithoutSweeps(es[1..])
  }

  /** The run as one key sees it: its own requests and the sweeps. */
  function OfKey(key: string, es: seq<Event>): seq<Event>
    decreases |es|
  {
    if es == [] then [] else (if es[0].Request? && es[0].key != key then [] else [es[0]]) + OfKey(key, es[1..])
  }

  function AnswersTo(key: string, t: seq<Answer>): seq<Answer>
    decreases |t|
  {
    if t == [] then [] else (if t[0].key == key then [t[0]] else []) + AnswersTo(key, t[1..])
  }

  function CountAllowed(t: seq<Answer>): nat
    decreases |t|
  {
    if t == [] then 0 else (if t[0].ok then 1 else 0) + CountAllowed(t[1..])
  }

  /** How many requests of `key` the run allows. */
  function Spent(p: Params, m: Buckets, es: seq<Event>, key: string): nat {
    CountAllowed(AnswersTo(key, Trace(p, m, es)))
  }

  lemma {:induction false} AnswersToConcat(key: string, a: seq<Answer>, b: seq<Answer>)
    ensures AnswersTo(key, a + b) == AnswersTo(key, a) + AnswersTo(key, b)
    ensures CountAllowed(a + b) == CountAllowed(a) + CountAllowed(b)
    decreases |a|
  {
    if a == [] {
      assert a + b == b;
    } else {
      assert (a + b)[0] == a[0] && (a + b)[1..] == a[1..] + b;
      AnswersToConcat(key, a[1..], b);
      var head := if a[0].key == key then [a[0]] else [];
      assert AnswersTo(key, a + b) == head + AnswersTo(key, a[1..] + b);
      assert AnswersTo(key, a) == head + AnswersTo(key, a[1..]);
    }
  }

  lemma TraceFirst(p: Params, m: Buckets, es: seq<Event>, key: string)
    requires es != []
    ensures var e := es[0]; var rest := Trace(p, Step(p, m, e), es[1..]);
      && AnswersTo(key, Trace(p, m, es)) == (if e.Request? && e.key == key then Head(p, m, e) else []) + AnswersTo(key, rest)
      && Spent(p, m, es, key)
         == (if e.Request? && e.key == key && Allowed(p, m, key, e.now) then 1 else 0) + Spent(p, Step(p, m, e), es[1..], key)
  {
    var head := Head(p, m, es[0]);
    var rest := Trace(p, Step(p, m, es[0]), es[1..]);
    AnswersToConcat(key, head, rest);
    assert head != [] ==> head[1..] == [];
    AnswersToConcat(key, AnswersTo(key, head), AnswersTo(key, rest));
  }

  lemma {:induction false} TraceConcat(p: Params, m: Buckets, es: seq<Event>, fs: seq<Event>)
    ensures Trace(p, m, es + fs) == Trace(p, m, es) + Trace(p, After(p, m, es), fs)
    ensures After(p, m, es + fs) == After(p, After(p, m, es), fs)
    decreases |es|
  {
    if es == [] {
      assert es + fs == fs;
    } else {
      assert (es + fs)[1..] == es[1..] + fs;
      TraceConcat(p, Step(p, m, es[0]), es[1..], fs);
    }
  }

  // ---------------------------------------------------------------- tokens stay within [0, burst]

  ghost predicate InRange(p: Params, m: Buckets, t: real) {
    forall k :: k in m ==> 0.0 <= m[k].tokens <= p.burst && m[k].lastSeen <= t
  }

  lemma Monotone(rate: real, d: real)
    requires rate >= 0.0 && d >= 0.0
    ensures d * rate >= 0.0
  {
  }

  lemma Distribute(a: real, b: real, rate: real)
    ensures a * rate + b * rate == (a + b) * rate
  {
  }

  lemma StepInRange(p: Params, m: Buckets, e: Event, t: real)
    requires Valid(p) && InRange(p, m, t) && t <= e.now
    ensures InRange(p, Step(p, m, e), e.now)
    ensures e.Request? ==> 0.0 <= Available(p, m, e.key, e.now) <= p.burst
  {
    if e.Request? {
      if e.key in m {
        var d := e.now - m[e.key].lastSeen;
        assert m[e.key].lastSeen <= t;
        Monotone(p.rate, d);
        assert 0.0 <= m[e.key].tokens + d * p.rate;
      }
      var offer := Available(p, m, e.key, e.now);
      assert 0.0 <= offer <= p.burst;
      assert forall k :: k in m && k != e.key ==> Step(p, m, e)[k] == m[k];
    }
  }

  lemma {:induction false} RunInRange(p: Params, m: Buckets, es: seq<Event>, t: real)
    requires Valid(p) && InRange(p, m, t) && Ordered(t, es)
    ensures InRange(p, After(p, m, es), LastTime(t, es)) && t <= LastTime(t, es)
    decreases |es|
  {
    if es != [] {
      StepInRange(p, m, es[0], t);
      RunInRange(p, Step(p, m, es[0]), es[1..], es[0].now);
    }
  }

  // ---------------------------------------------------------------- eviction cannot be observed

  /** From `t` on, both states offer every key the same tokens at every moment. */
  ghost predicate SameOffer(p: Params, m: Buckets, n: Buckets, t: real) {
    forall k, now :: now >= t ==> Available(p, m, k, now) == Available(p, n, k, now)
  }

  lemma EvictedIsFull(p: Params, m: Buckets, sweep: real, k: string, now: real)
    requires Valid(p) && p.rate * p.idle >= p.burst && InRange(p, m, sweep) && now >= sweep
    ensures Available(p, AfterCleanup(p, m, sweep), k, now) == Available(p, m, k, now)
  {
    if k in m && m[k].lastSeen < sweep - p.idle {
      var elapsed := now - m[k].lastSeen;
      Monotone(p.rate, elapsed - p.idle);
      assert elapsed * p.rate == (elapsed - p.idle) * p.rate + p.rate * p.idle;
    }
  }

  lemma AvailableAfterAllow(p: Params, m: Buckets, key: string, at: real, k: string, now: real)
    requires Valid(p) && at <= now
    ensures var left := Available(p, m, key, at) - (if Allowed(p, m, key, at) then 1.0 else 0.0);
      Available(p, AfterAllow(p, m, key, at), k, now)
      == if k != key then Available(p, m, k, now)
         else if left + (now - at) * p.rate > p.burst then p.burst else left + (now - at) * p.rate
  {
  }

  lemma AllowKeepsSameOffer(p: Params, m: Buckets, n: Buckets, key: string, at: real)
    requires Valid(p) && SameOffer(p, m, n, at)
    ensures SameOffer(p, AfterAllow(p, m, key, at), AfterAllow(p, n, key, at), at)
    ensures Allowed(p, m, key, at) == Allowed(p, n, key, at)
  {
    forall k, now | now >= at
      ensures Available(p, AfterAllow(p, m, key, at), k, now) == Available(p, AfterAllow(p, n, key, at), k, now)
    {
      AvailableAfterAllow(p, m, key, at, k, now);
      AvailableAfterAllow(p, n, key, at, k, now);
    }
  }

  /** A bisimulation: a state that sweeps and one that never does, offering the same, answer the same. */
  lemma {:induction false} SweepingBisimilar(p: Params, m: Buckets, n: Buckets, es: seq<Event>, t: real)
    requires Valid(p) && p.rate * p.idle >= p.burst
    requires InRange(p, m, t) && SameOffer(p, m, n, t) && Ordered(t, es)
    ensures Trace(p, m, es) == Trace(p, n, WithoutSweeps(es))
    decreases |es|
  {
    if es != [] {
      var e := es[0];
      StepInRange(p, m, e, t);
      var m' := Step(p, m, e);
      if e.Sweep? {
        forall k, now | now >= e.now ensures Available(p, m', k, now) == Available(p, n, k, now) {
          EvictedIsFull(p, m, e.now, k, now);
        }
        SweepingBisimilar(p, m', n, es[1..], e.now);
        assert WithoutSweeps(es) == WithoutSweeps(es[1..]);
      } else {
        AllowKeepsSameOffer(p, m, n, e.key, e.now);
        SweepingBisimilar(p, m', Step(p, n, e), es[1..], e.now);
        assert WithoutSweeps(es)[1..] == WithoutSweeps(es[1..]);
      }
    }
  }

  // ---------------------------------------------------------------- the windowed bound

  predicate NoSweeps(es: seq<Event>) { forall i :: 0 <= i < |es| ==> es[i].Request? }

  /** Tokens earned between two moments, were there no cap. */
  function Earned(p: Params, start: real, end: real): real { (end - start) * p.rate }

  lemma OfferGrowth(p: Params, m: Buckets, k: string, t: real, now: real)
    requires Valid(p) && t <= now
    ensures Available(p, m, k, now) <= Available(p, m, k, t) + Earned(p, t, now)
  {
    Monotone(p.rate, now - t);
    if k in m {
      assert (now - m[k].lastSeen) * p.rate == (t - m[k].lastSeen) * p.rate + (now - t) * p.rate;
    }
  }

  lemma StepSpends(p: Params, m: Buckets, e: Event, key: string, t: real)
    requires Valid(p) && InRange(p, m, t) && t <= e.now && (p.rate * p.idle >= p.burst || e.Request?)
    ensures Available(p, Step(p, m, e), key, e.now)
         + (if e.Request? && e.key == key && Allowed(p, m, key, e.now) then 1.0 else 0.0)
         <= Available(p, m, key, t) + Earned(p, t, e.now)
  {
    OfferGrowth(p, m, key, t, e.now);
    if e.Sweep? {
      StepInRange(p, m, e, t);
      assert InRange(p, m, e.now);
      EvictedIsFull(p, m, e.now, key, e.now);
    } else {
      var now := e.now;
      var m' := AfterAllow(p, m, e.key, now);
      AvailableAfterAllow(p, m, e.key, now, key, now);
      assert Available(p, m', key, now)
          == Available(p, m, key, now) - (if e.key == key && Allowed(p, m, key, now) then 1.0 else 0.0);
    }
  }

  lemma EarnedSplit(p: Params, a: real, b: real, c: real)
    ensures Earned(p, a, b) + Earned(p, b, c) == Earned(p, a, c)
  {
    Distribute(b - a, c - b, p.rate);
  }

  /** Adding up one step and the rest of the run. */
  lemma SumUp(first: nat, rest: nat, had: real, has: real, earned: real, toEarn: real, all: real)
    requires rest as real <= has + toEarn && has + first as real <= had + earned && earned + toEarn == all
    ensures (first + rest) as real <= had + all
  {
  }

  lemma NothingSpent(p: Params, m: Buckets, key: string, t: real)
    requires Valid(p) && InRange(p, m, t)
    ensures Spent(p, m, [], key) == 0 && Available(p, m, key, t) >= 0.0 && Earned(p, t, t) == 0.0
  {
    StepInRange(p, m, Request(key, t), t);
  }

  function Spends(p: Params, m: Buckets, e: Event, key: string): nat {
    if e.Request? && e.key == key && Allowed(p, m, key, e.now) then 1 else 0
  }

  /** What a key can spend is what it has now plus what it earns until the end. */
  lemma {:induction false} SpendingBound(p: Params, m: Buckets, es: seq<Event>, key: string, t: real)
    requires Valid(p) && InRange(p, m, t) && Ordered(t, es) && (p.rate * p.idle >= p.burst || NoSweeps(es))
    ensures Spent(p, m, es, key) as real
         <= Available(p, m, key, t) + Earned(p, t, LastTime(t, es))
    decreases |es|
  {
    if es == [] {
      NothingSpent(p, m, key, t);
    } else {
      var e := es[0];
      var m' := Step(p, m, e);
      StepInRange(p, m, e, t);
      StepSpends(p, m, e, key, t);
      SpendingBound(p, m', es[1..], key, e.now);
      TraceFirst(p, m, es, key);
      EarnedSplit(p, t, e.now, LastTime(t, es));
      SumUp(Spends(p, m, e, key), Spent(p, m', es[1..], key), Available(p, m, key, t), Available(p, m', key, e.now),
            Earned(p, t, e.now), Earned(p, e.now, LastTime(t, es)), Earned(p, t, LastTime(t, es)));
    }
  }

  lemma {:induction false} OrderedSplit(t: real, es: seq<Event>, fs: seq<Event>)
    requires Ordered(t, es + fs)
    ensures Ordered(t, es) && Ordered(LastTime(t, es), fs)
    decreases |es|
  {
    if es == [] {
      assert es + fs == fs;
    } else {
      assert (es + fs)[1..] == es[1..] + fs;
      OrderedSplit(es[0].now, es[1..], fs);
    }
  }

  /** A key that is new is allowed as many requests at once as the burst has whole tokens. */
  lemma {:induction false} BurstServed(p: Params, m: Buckets, key: string, now: real, es: seq<Event>)
    requires Valid(p) && AllAt(es, key, now) && |es| as real <= Available(p, m, key, now)
    ensures Spent(p, m, es, key) == |es|
    decreases |es|
  {
    if es != [] {
      var next := Step(p, m, es[0]);
      assert es[0] == Request(key, now);
      assert Available(p, next, key, now) == Available(p, m, key, now) - 1.0;
      BurstServed(p, next, key, now, es[1..]);
    }
  }

  /** Whatever a key has spent, it is allowed again once it has had the time to earn a token. */
  lemma RefillServes(p: Params, m: Buckets, t: real, key: string, now: real)
    requires Valid(p) && InRange(p, m, t) && p.burst >= 1.0
    requires key in m ==> (now - m[key].lastSeen) * p.rate >= 1.0
    ensures Allowed(p, m, key, now)
  {
    if key in m {
      assert m[key].tokens >= 0.0;
      assert m[key].tokens + (now - m[key].lastSeen) * p.rate >= 1.0;
    }
  }

  /** In any run over any keys, the requests of one key allowed within any window number at most
      burst + rate * (length of the window); `before` is the run up to the window. */
  lemma WindowBound(p: Params, before: seq<Event>, window: seq<Event>, key: string, t: real)
    requires Valid(p) && window != [] && Ordered(t, before + window)
    requires p.rate * p.idle >= p.burst || NoSweeps(before + window)
    ensures Trace(p, map[], before + window) == Trace(p, map[], before) + Trace(p, After(p, map[], before), window)
    ensures Spent(p, After(p, map[], before), window, key) as real
         <= p.burst + Earned(p, window[0].now, LastTime(t, window))
  {
    TraceConcat(p, map[], before, window);
    OrderedSplit(t, before, window);
    RunInRange(p, map[], before, t);
    var start := window[0].now;
    if NoSweeps(before + window) {
      assert forall i :: 0 <= i < |window| ==> window[i] == (before + window)[|before| + i];
    }
    SpendingFromReached(p, After(p, map[], before), window, key, LastTime(t, before));
    assert LastTime(t, window) == LastTime(start, window);
  }

  lemma SpendingFromReached(p: Params, m: Buckets, window: seq<Event>, key: string, t: real)
    requires Valid(p) && window != [] && InRange(p, m, t) && Ordered(t, window)
    requires p.rate * p.idle >= p.burst || NoSweeps(window)
    ensures Spent(p, m, window, key) as real <= p.burst + Earned(p, window[0].now, LastTime(t, window))
  {
    var start := window[0].now;
    assert InRange(p, m, start);
    StepInRange(p, m, Request(key, start), start);
    SpendingBound(p, m, window, key, start);
  }

  // ---------------------------------------------------------------- keys do not interfere

  predicate AgreeOn(key: string, m: Buckets, n: Buckets) {
    (key in m <==> key in n) && (key in m ==> m[key] == n[key])
  }

  /** The answers a key gets are those of the run restricted to that key. */
  lemma {:induction false} KeysIndependent(p: Params, m: Buckets, n: Buckets, es: seq<Event>, key: string)
    requires AgreeOn(key, m, n)
    ensures AnswersTo(key, Trace(p, m, es)) == Trace(p, n, OfKey(key, es))
    decreases |es|
  {
    if es != [] {
      var e := es[0];
      var m' := Step(p, m, e);
      TraceFirst(p, m, es, key);
      if e.Request? && e.key != key {
        KeysIndependent(p, m', n, es[1..], key);
        assert OfKey(key, es) == OfKey(key, es[1..]);
      } else {
        KeysIndependent(p, m', Step(p, n, e), es[1..], key);
        assert OfKey(key, es)[1..] == OfKey(key, es[1..]);
      }
    }
  }

  // ---------------------------------------------------------------- exactly when sweeping is unobservable

  ghost predicate SweepUnobservable(p: Params) {
    forall es :: Ordered(0.0, es) ==> Trace(p, map[], es) == Trace(p, map[], WithoutSweeps(es))
  }

  lemma {:induction false} TinyBurstDeniesAll(p: Params, m: Buckets, n: Buckets, es: seq<Event>)
    requires p.burst < 1.0
    ensures Trace(p, m, es) == Trace(p, n, WithoutSweeps(es))
    decreases |es|
  {
    if es != [] {
      TinyBurstDeniesAll(p, Step(p, m, es[0]), if es[0].Sweep? then n else Step(p, n, es[0]), es[1..]);
      if es[0].Request? {
        assert WithoutSweeps(es)[1..] == WithoutSweeps(es[1..]);
      } else {
        assert WithoutSweeps(es) == WithoutSweeps(es[1..]);
      }
    }
  }

  predicate AllAt(es: seq<Event>, key: string, t: real) {
    forall i :: 0 <= i < |es| ==> es[i] == Request(key, t)
  }

  lemma {:induction false} AllAtOrdered(es: seq<Event>, key: string, t: real, u: real)
    requires AllAt(es, key, t) && u <= t
    ensures Ordered(u, es) && LastTime(u, es) == if es == [] then u else t
    decreases |es|
  {
    if es != [] { AllAtOrdered(es[1..], key, t, t); }
  }

  /** Requests at one moment until the key is denied next: what is left is below one token. */
  lemma {:induction false} Drain(p: Params, m: Buckets, key: string, t: real) returns (es: seq<Event>)
    requires Valid(p) && 0.0 <= Available(p, m, key, t)
    ensures AllAt(es, key, t)
    ensures 0.0 <= Available(p, After(p, m, es), key, t) < 1.0
    ensures es != [] || key in m ==> key in After(p, m, es)
    ensures es != [] ==> After(p, m, es)[key].lastSeen == t
    decreases Available(p, m, key, t).Floor
  {
    if Available(p, m, key, t) < 1.0 {
      es := [];
    } else {
      var e := Request(key, t);
      AvailableAfterAllow(p, m, key, t, key, t);
      var rest := Drain(p, Step(p, m, e), key, t);
      es := [e] + rest;
      assert es[1..] == rest;
    }
  }

  /** Two states that offer a key different amounts can be told apart by its later requests. */
  lemma {:induction false} Distinguish(p: Params, m: Buckets, n: Buckets, key: string, t: real) returns (es: seq<Event>)
    requires Valid(p) && 0.0 <= Available(p, m, key, t) < Available(p, n, key, t) && p.burst >= 1.0
    requires p.rate > 0.0 || (Available(p, m, key, t) < 1.0 <= Available(p, n, key, t))
    ensures NoSweeps(es) && Ordered(t, es)
    ensures Trace(p, m, es) != Trace(p, n, es)
    decreases Available(p, m, key, t).Floor
  {
    var a := Available(p, m, key, t);
    var b := Available(p, n, key, t);
    if a < 1.0 <= b {
      es := [Request(key, t)];
      assert Trace(p, m, es)[0] != Trace(p, n, es)[0];
    } else if a >= 1.0 {
      var e := Request(key, t);
      AvailableAfterAllow(p, m, key, t, key, t);
      AvailableAfterAllow(p, n, key, t, key, t);
      var rest := Distinguish(p, Step(p, m, e), Step(p, n, e), key, t);
      es := [e] + rest;
      assert es[1..] == rest;
      assert Trace(p, m, es) == [Answer(key, t, true)] + Trace(p, Step(p, m, e), rest);
      assert Trace(p, n, es) == [Answer(key, t, true)] + Trace(p, Step(p, n, e), rest);
      assert Trace(p, m, es)[1..] == Trace(p, Step(p, m, e), rest);
      assert Trace(p, n, es)[1..] == Trace(p, Step(p, n, e), rest);
    } else {
      var wait := (1.0 - b) / p.rate;
      var now := t + wait;
      WaitFor(p, n, key, t, 1.0 - b);
      WaitFor(p, m, key, t, 1.0 - b);
      es := [Request(key, now)];
      assert Trace(p, m, es)[0].ok == Allowed(p, m, key, now);
      assert Trace(p, n, es)[0].ok == Allowed(p, n, key, now);
    }
  }

  /** Waiting long enough to earn `gain` tokens earns exactly that, below the cap. */
  lemma WaitFor(p: Params, m: Buckets, key: string, t: real, gain: real)
    requires Valid(p) && p.rate > 0.0 && gain >= 0.0 && Available(p, m, key, t) + gain <= p.burst
    requires Available(p, m, key, t) < p.burst || gain == 0.0
    ensures gain / p.rate >= 0.0
    ensures Available(p, m, key, t + gain / p.rate) == Available(p, m, key, t) + gain
  {
    var w := gain / p.rate;
    assert w * p.rate == gain;
    if key in m {
      assert (t + w - m[key].lastSeen) * p.rate == (t - m[key].lastSeen) * p.rate + w * p.rate;
    }
  }

  lemma {:induction false} OrderedJoin(t: real, es: seq<Event>, fs: seq<Event>)
    requires Ordered(t, es) && Ordered(LastTime(t, es), fs)
    ensures Ordered(t, es + fs)
    decreases |es|
  {
    if es == [] {
      assert es + fs == fs;
    } else {
      assert (es + fs)[1..] == es[1..] + fs;
      OrderedJoin(es[0].now, es[1..], fs);
    }
  }

  lemma {:induction false} WithoutSweepsConcat(es: seq<Event>, fs: seq<Event>)
    ensures WithoutSweeps(es + fs) == WithoutSweeps(es) + WithoutSweeps(fs)
    decreases |es|
  {
    if es == [] {
      assert es + fs == fs;
    } else {
      assert (es + fs)[1..] == es[1..] + fs;
      WithoutSweepsConcat(es[1..], fs);
    }
  }

  lemma {:induction false} NothingToRemove(es: seq<Event>)
    requires NoSweeps(es)
    ensures WithoutSweeps(es) == es
    decreases |es|
  {
    if es != [] { NothingToRemove(es[1..]); }
  }

  /** A run of requests after which the key has nothing left, or less than a token if it never refills. */
  lemma SpendEverything(p: Params, key: string) returns (es: seq<Event>, t: real)
    requires Valid(p) && p.burst >= 1.0
    ensures NoSweeps(es) && Ordered(0.0, es) && LastTime(0.0, es) == t
    ensures var m := After(p, map[], es);
      key in m && m[key].lastSeen == t && 0.0 <= m[key].tokens < 1.0 && (p.rate > 0.0 ==> m[key].tokens == 0.0)
  {
    es := Drain(p, map[], key, 0.0);
    AllAtOrdered(es, key, 0.0, 0.0);
    t := 0.0;
    var m := After(p, map[], es);
    assert m[key].tokens == Available(p, m, key, 0.0);
    if p.rate > 0.0 {
      var gain := 1.0 - m[key].tokens;
      WaitFor(p, m, key, 0.0, gain);
      t := gain / p.rate;
      var last := Request(key, t);
      TraceConcat(p, map[], es, [last]);
      OrderedJoin(0.0, es, [last]);
      LastOfConcat(0.0, es, last);
      assert After(p, m, [last]) == AfterAllow(p, m, key, t);
      es := es + [last];
    }
  }

  lemma {:induction false} LastOfConcat(t: real, es: seq<Event>, e: Event)
    ensures LastTime(t, es + [e]) == e.now
    decreases |es|
  {
    if es == [] {
      assert es + [e] == [e];
    } else {
      assert (es + [e])[1..] == es[1..] + [e];
      LastOfConcat(es[0].now, es[1..], e);
    }
  }

  /** A moment when the spent bucket is idle long enough to be swept but not yet full. */
  lemma IdleButNotFull(p: Params, tokens: real) returns (gap: real)
    requires Valid(p) && p.burst >= 1.0 && p.rate * p.idle < p.burst
    requires 0.0 <= tokens < 1.0 && (p.rate > 0.0 ==> tokens == 0.0)
    ensures gap > p.idle && 0.0 <= tokens + gap * p.rate < p.burst
    ensures p.rate > 0.0 || tokens + gap * p.rate < 1.0
  {
    if p.rate > 0.0 {
      var slack := p.burst - p.rate * p.idle;
      gap := p.idle + slack / (2.0 * p.rate);
      assert slack / (2.0 * p.rate) * p.rate == slack / 2.0;
    } else {
      gap := p.idle + 1.0;
    }
  }

  lemma TailsDiffer(a: seq<Answer>, b: seq<Answer>, c: seq<Answer>)
    requires b != c
    ensures a + b != a + c
  {
    assert (a + b)[|a|..] == b;
    assert (a + c)[|a|..] == c;
  }

  lemma SweptTrace(p: Params, m: Buckets, now: real, probe: seq<Event>)
    ensures Trace(p, m, [Sweep(now)] + probe) == Trace(p, AfterCleanup(p, m, now), probe)
  {
    assert ([Sweep(now)] + probe)[1..] == probe;
  }

  lemma SweptRun(spend: seq<Event>, t: real, now: real, probe: seq<Event>)
    requires NoSweeps(spend) && NoSweeps(probe)
    requires Ordered(0.0, spend) && LastTime(0.0, spend) == t && t <= now && Ordered(now, probe)
    ensures Ordered(0.0, spend + ([Sweep(now)] + probe))
    ensures WithoutSweeps(spend + ([Sweep(now)] + probe)) == spend + probe
  {
    var tail := [Sweep(now)] + probe;
    assert Ordered(t, tail) && WithoutSweeps(tail) == WithoutSweeps(probe) by { assert tail[1..] == probe; }
    OrderedJoin(0.0, spend, tail);
    WithoutSweepsConcat(spend, tail);
    NothingToRemove(probe);
    NothingToRemove(spend);
  }

  /** If requests after a sweep are answered differently than without it, sweeping is observable. */
  lemma RunsDiffer(p: Params, spend: seq<Event>, t: real, now: real, probe: seq<Event>)
    requires NoSweeps(spend) && NoSweeps(probe)
    requires Ordered(0.0, spend) && LastTime(0.0, spend) == t && t <= now && Ordered(now, probe)
    requires var m := After(p, map[], spend); Trace(p, m, probe) != Trace(p, AfterCleanup(p, m, now), probe)
    ensures !SweepUnobservable(p)
  {
    var m := After(p, map[], spend);
    var swept := spend + ([Sweep(now)] + probe);
    SweptRun(spend, t, now, probe);
    SweptTrace(p, m, now, probe);
    TraceConcat(p, map[], spend, [Sweep(now)] + probe);
    TraceConcat(p, map[], spend, probe);
    TailsDiffer(Trace(p, map[], spend), Trace(p, AfterCleanup(p, m, now), probe), Trace(p, m, probe));
    assert Trace(p, map[], swept) != Trace(p, map[], WithoutSweeps(swept));
  }

  /** For every limiter whose idle time is too short, some run has a sweep change an answer. */
  lemma SweepObserved(p: Params)
    requires Valid(p) && p.burst >= 1.0 && p.rate * p.idle < p.burst
    ensures !SweepUnobservable(p)
  {
    var key := "client";
    var spend, t := SpendEverything(p, key);
    var m := After(p, map[], spend);
    var gap := IdleButNotFull(p, m[key].tokens);
    var now := t + gap;
    var n := AfterCleanup(p, m, now);
    assert key !in n && Available(p, n, key, now) == p.burst;
    assert Available(p, m, key, now) == m[key].tokens + gap * p.rate;
    var probe := Distinguish(p, m, n, key, now);
    RunsDiffer(p, spend, t, now, probe);
  }

  /** Sweeping idle buckets changes no answer in any run exactly when an evicted bucket would have been
      full anyway, or no request is ever allowed. */
  lemma SweepUnobservableExactly(p: Params)
    requires Valid(p)
    ensures SweepUnobservable(p) <==> p.burst < 1.0 || p.rate * p.idle >= p.burst
  {
    if p.burst < 1.0 {
      forall es | Ordered(0.0, es) ensures Trace(p, map[], es) == Trace(p, map[], WithoutSweeps(es)) {
        TinyBurstDeniesAll(p, map[], map[], es);
      }
    } else if p.rate * p.idle >= p.burst {
      forall es | Ordered(0.0, es) ensures Trace(p, map[], es) == Trace(p, map[], WithoutSweeps(es)) {
        SweepingBisimilar(p, map[], map[], es, 0.0);
      }
    } else {
      SweepObserved(p);
    }
  }

  const RESOLVE := Params(0.5, 15.0, 600.0)
  const DECK := Params(0.1, 3.0, 600.0)
  const CLIENT_ERROR := Params(0.5, 10.0, 600.0)
  const DECK_READ := Params(2.0, 30.0, 600.0)

  /** The four limiters the server configures all evict unobservably. */
  lemma ConfiguredLimiters()
    ensures SweepUnobservable(RESOLVE) && SweepUnobservable(DECK)
    ensures SweepUnobservable(CLIENT_ERROR) && SweepUnobservable(DECK_READ)
  {
    SweepUnobservableExactly(RESOLVE);
    SweepUnobservableExactly(DECK);
    SweepUnobservableExactly(CLIENT_ERROR);
    SweepUnobservableExactly(DECK_READ);
  }
}
