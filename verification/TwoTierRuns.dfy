/** The cache of internal/rcache/rcache.go under concurrency: a discipline on one key, no SetJSON overlapping another
    call on it and its writes succeeding, makes every answer for that key the last value stored. */
module TwoTierRuns {
  import opened Options
  import opened TwoTier

  function KeyOf<V>(env: Env<V>, pc: Pc<V>): string { CacheKey(env, pc.ns, pc.key) }

  predicate Writing<V>(pc: Pc<V>) { pc.WriteHot? || pc.WriteCold? }

  ghost predicate CallOn<V>(env: Env<V>, s: State<V>, id: nat, sk: string) { id in s.calls && KeyOf(env, s.calls[id]) == sk }

  ghost predicate NoCall<V>(env: Env<V>, s: State<V>, sk: string) { forall id :: !CallOn(env, s, id, sk) }

  ghost predicate NoWriter<V>(env: Env<V>, s: State<V>, sk: string) {
    forall id :: CallOn(env, s, id, sk) ==> !Writing(s.calls[id])
  }

  /** On key `sk`, no SetJSON overlaps another call and its writes succeed. Other keys, reads, backfills and
      evictions do as they please. */
  ghost predicate Orderly<V(!new)>(env: Env<V>, sk: string, s: State<V>, e: Event<V>) {
    match e
    case CallGet(_, ns, key) => CacheKey(env, ns, key) == sk ==> NoWriter(env, s, sk)
    case CallSet(_, ns, key, _) => CacheKey(env, ns, key) == sk ==> NoCall(env, s, sk)
    case Go(id, fails) => CallOn(env, s, id, sk) && Writing(s.calls[id]) ==> !fails
    case Drop(_) => true
  }

  /** The value of the last SetJSON of `sk` that has completed. */
  function Completed<V(==)>(env: Env<V>, sk: string, s: State<V>, last: Option<V>, e: Event<V>): Option<V> {
    if e.Go? && e.id in s.calls && s.calls[e.id].WriteCold? && KeyOf(env, s.calls[e.id]) == sk
    then env.decode(s.calls[e.id].data) else last
  }

  /** What a GetJSON returns. An outage is a miss because the permanent tier could not be read. */
  datatype Outcome<V> = Hit(v: V) | Miss | Outage

  /** What event `e` makes a GetJSON of `sk` return, if it makes one return. */
  function Returned<V>(env: Env<V>, sk: string, s: State<V>, e: Event<V>): Option<Outcome<V>> {
    if !e.Go? || e.id !in s.calls || KeyOf(env, s.calls[e.id]) != sk then None else
    match s.calls[e.id]
    case ReadHot(_, _) =>
      if !e.fails && sk in s.tiers.hot && env.decode(s.tiers.hot[sk]).Some?
      then Some(Hit(env.decode(s.tiers.hot[sk]).value)) else None
    case ReadCold(_, _) =>
      if e.fails then Some(Outage)
      else if sk !in s.tiers.cold || env.decode(s.tiers.cold[sk]).None? then Some(Miss) else None
    case Backfill(_, _, _, v) => Some(Hit(v))
    case _ => None
  }

  /** What a step of a GetJSON returns, told from what it leaves: a value is added to those returned, otherwise nothing,
      an outage being a failed read of the permanent tier; or the call goes on. */
  lemma ReturnedMeans<V>(env: Env<V>, sk: string, s: State<V>, e: Event<V>)
    requires e.Go? && CallOn(env, s, e.id, sk) && !Writing(s.calls[e.id])
    ensures var pc := s.calls[e.id]; var t := Step(env, s, e);
      match Returned(env, sk, s, e)
      case None => e.id in t.calls && t.returned == s.returned
      case Some(Hit(v)) => e.id !in t.calls && t.returned == s.returned + [(pc.ns, pc.key, v)]
      case Some(Miss) => e.id !in t.calls && t.returned == s.returned && !e.fails
      case Some(Outage) => e.id !in t.calls && t.returned == s.returned && e.fails && pc.ReadCold?
  {
  }

  // ---------------------------------------------------------------- the invariant of one key

  ghost predicate ColdIs<V>(env: Env<V>, sk: string, t: Tiers, last: Option<V>) {
    match last
    case None => sk !in t.cold
    case Some(v) => sk in t.cold && env.encode(v) == Some(t.cold[sk])
  }

  ghost predicate HotFollows(sk: string, t: Tiers) { sk in t.hot ==> sk in t.cold && t.hot[sk] == t.cold[sk] }

  ghost predicate CallFits<V>(env: Env<V>, sk: string, t: Tiers, pc: Pc<V>) {
    match pc
    case Backfill(_, _, data, v) => sk in t.cold && t.cold[sk] == data && env.decode(data) == Some(v)
    case WriteHot(_, _, data) => env.decode(data).Some? && env.encode(env.decode(data).value) == Some(data)
    case WriteCold(_, _, data) =>
      env.decode(data).Some? && env.encode(env.decode(data).value) == Some(data) && (sk in t.hot ==> t.hot[sk] == data)
    case _ => true
  }

  ghost predicate Between<V>(env: Env<V>, sk: string, s: State<V>) {
    exists id :: CallOn(env, s, id, sk) && s.calls[id].WriteCold?
  }

  ghost predicate KeyInv<V(!new)>(env: Env<V>, sk: string, s: State<V>, last: Option<V>) {
    && ColdIs(env, sk, s.tiers, last)
    && (Between(env, sk, s) || HotFollows(sk, s.tiers))
    && (forall id :: CallOn(env, s, id, sk) ==> CallFits(env, sk, s.tiers, s.calls[id]))
    && (forall i, j :: CallOn(env, s, i, sk) && CallOn(env, s, j, sk) && i != j ==> !Writing(s.calls[i]))
  }

  /** What one key sees of the tiers: the permanent entry as it was, the hot one as it was or dropped. */
  ghost predicate SameView(sk: string, t: Tiers, u: Tiers) {
    && (sk in u.cold <==> sk in t.cold) && (sk in u.cold ==> u.cold[sk] == t.cold[sk])
    && (sk in u.hot ==> sk in t.hot && u.hot[sk] == t.hot[sk])
  }

  lemma SameViewKeepsInv<V(!new)>(env: Env<V>, sk: string, s: State<V>, t: State<V>, last: Option<V>)
    requires KeyInv(env, sk, s, last) && SameView(sk, s.tiers, t.tiers)
    requires forall id :: CallOn(env, t, id, sk) <==> CallOn(env, s, id, sk)
    requires forall id :: CallOn(env, s, id, sk) ==> id in t.calls && t.calls[id] == s.calls[id]
    ensures KeyInv(env, sk, t, last)
  {
    if Between(env, sk, s) {
      var id :| CallOn(env, s, id, sk) && s.calls[id].WriteCold?;
      assert CallOn(env, t, id, sk);
    }
  }

  lemma OtherKeysUntouched<V(!new)>(env: Env<V>, sk: string, s: State<V>, id: nat, fails: bool)
    requires id in s.calls && KeyOf(env, s.calls[id]) != sk
    ensures SameView(sk, s.tiers, Step(env, s, Go(id, fails)).tiers)
    ensures forall i :: i != id ==> (i in Step(env, s, Go(id, fails)).calls <==> i in s.calls)
    ensures forall i :: i != id && i in s.calls ==> Step(env, s, Go(id, fails)).calls[i] == s.calls[i]
    ensures var t := Step(env, s, Go(id, fails)); id in t.calls ==> KeyOf(env, t.calls[id]) == KeyOf(env, s.calls[id])
  {
  }

  /** Steps of calls on other keys leave this one alone. */
  lemma OtherKeysLeaveIt<V(!new)>(env: Env<V>, sk: string, s: State<V>, last: Option<V>, e: Event<V>)
    requires KeyInv(env, sk, s, last) && e.Go? && e.id in s.calls && KeyOf(env, s.calls[e.id]) != sk
    ensures KeyInv(env, sk, Step(env, s, e), last)
  {
    OtherKeysUntouched(env, sk, s, e.id, e.fails);
    SameViewKeepsInv(env, sk, s, Step(env, s, e), last);
  }

  lemma ReaderKeepsInv<V(!new)>(env: Env<V>, sk: string, s: State<V>, last: Option<V>, id: nat, fails: bool)
    requires KeyInv(env, sk, s, last) && CallOn(env, s, id, sk) && !Writing(s.calls[id])
    ensures KeyInv(env, sk, Step(env, s, Go(id, fails)), last)
  {
    var t := Step(env, s, Go(id, fails));
    assert !Between(env, sk, s) by {
      assert forall i :: CallOn(env, s, i, sk) && i != id ==> !Writing(s.calls[i]);
    }
    forall i ensures CallOn(env, t, i, sk) ==> CallOn(env, s, i, sk) && !Writing(t.calls[i]) {
      if CallOn(env, t, i, sk) && i != id { assert CallOn(env, s, i, sk); }
    }
    assert CallFits(env, sk, s.tiers, s.calls[id]);
    assert HotFollows(sk, t.tiers);
  }

  lemma WriterKeepsInv<V(!new)>(env: Env<V>, sk: string, s: State<V>, last: Option<V>, id: nat)
    requires KeyInv(env, sk, s, last) && CallOn(env, s, id, sk) && Writing(s.calls[id])
    ensures KeyInv(env, sk, Step(env, s, Go(id, false)), Completed(env, sk, s, last, Go(id, false)))
  {
    var t := Step(env, s, Go(id, false));
    assert CallFits(env, sk, s.tiers, s.calls[id]);
    forall i ensures CallOn(env, t, i, sk) ==> i == id {
      if CallOn(env, t, i, sk) && i != id { assert CallOn(env, s, i, sk); }
    }
    if s.calls[id].WriteHot? {
      assert t.calls[id] == WriteCold(s.calls[id].ns, s.calls[id].key, s.calls[id].data);
      assert CallOn(env, t, id, sk);
      assert Between(env, sk, t);
    } else {
      assert HotFollows(sk, t.tiers);
    }
  }

  lemma CallKeepsInv<V(!new)>(env: Env<V>, sk: string, s: State<V>, last: Option<V>, e: Event<V>)
    requires Decodes(env) && KeyInv(env, sk, s, last) && Orderly(env, sk, s, e) && (e.CallGet? || e.CallSet?)
    ensures KeyInv(env, sk, Step(env, s, e), last)
  {
    var t := Step(env, s, e);
    if e.id !in s.calls && CallOn(env, t, e.id, sk) {
      assert t.tiers == s.tiers && t.calls == s.calls[e.id := t.calls[e.id]];
      NewCallKeepsInv(env, sk, s, t, last, e.id);
    } else {
      SameViewKeepsInv(env, sk, s, t, last);
    }
  }

  lemma NewCallKeepsInv<V(!new)>(env: Env<V>, sk: string, s: State<V>, t: State<V>, last: Option<V>, id: nat)
    requires KeyInv(env, sk, s, last) && id !in s.calls && id in t.calls
    requires t.tiers == s.tiers && t.calls == s.calls[id := t.calls[id]] && CallOn(env, t, id, sk)
    requires if t.calls[id].ReadHot? then NoWriter(env, s, sk)
             else t.calls[id].WriteHot? && NoCall(env, s, sk) && CallFits(env, sk, s.tiers, t.calls[id])
    ensures KeyInv(env, sk, t, last)
  {
    assert forall i :: i != id ==> (CallOn(env, t, i, sk) <==> CallOn(env, s, i, sk));
    assert !Between(env, sk, s);
  }

  lemma StepKeepsKeyInv<V(!new)>(env: Env<V>, sk: string, s: State<V>, last: Option<V>, e: Event<V>)
    requires Decodes(env) && KeyInv(env, sk, s, last) && Orderly(env, sk, s, e)
    ensures KeyInv(env, sk, Step(env, s, e), Completed(env, sk, s, last, e))
  {
    match e
    case Drop(_) => SameViewKeepsInv(env, sk, s, Step(env, s, e), last);
    case Go(id, fails) =>
      if id in s.calls {
        if KeyOf(env, s.calls[id]) != sk { OtherKeysLeaveIt(env, sk, s, last, e); }
        else if Writing(s.calls[id]) { WriterKeepsInv(env, sk, s, last, id); }
        else { ReaderKeepsInv(env, sk, s, last, id, fails); }
      }
    case _ => CallKeepsInv(env, sk, s, last, e);
  }

  /** What a GetJSON returns in a state that keeps the invariant. */
  lemma ReturnsLast<V(!new)>(env: Env<V>, sk: string, s: State<V>, last: Option<V>, e: Event<V>)
    requires Decodes(env) && KeyInv(env, sk, s, last) && Returned(env, sk, s, e).Some?
    ensures Returned(env, sk, s, e).value == Outage
         || Returned(env, sk, s, e).value == if last.Some? then Hit(last.value) else Miss
  {
    assert CallOn(env, s, e.id, sk) && CallFits(env, sk, s.tiers, s.calls[e.id]);
    assert !Between(env, sk, s) by {
      assert forall i :: CallOn(env, s, i, sk) && i != e.id ==> !Writing(s.calls[i]);
    }
  }

  // ---------------------------------------------------------------- whole runs

  ghost predicate OrderlyRun<V(!new)>(env: Env<V>, sk: string, s: State<V>, es: seq<Event<V>>)
    decreases |es|
  {
    es == [] || (Orderly(env, sk, s, es[0]) && OrderlyRun(env, sk, Step(env, s, es[0]), es[1..]))
  }

  /** The value of the last SetJSON of `sk` that completed in the run. */
  function LastCompleted<V(==)>(env: Env<V>, sk: string, s: State<V>, last: Option<V>, es: seq<Event<V>>): Option<V>
    decreases |es|
  {
    if es == [] then last
    else LastCompleted(env, sk, Step(env, s, es[0]), Completed(env, sk, s, last, es[0]), es[1..])
  }

  lemma {:induction false} RunKeepsKeyInv<V(!new)>(env: Env<V>, sk: string, s: State<V>, last: Option<V>, es: seq<Event<V>>)
    requires Decodes(env) && KeyInv(env, sk, s, last) && OrderlyRun(env, sk, s, es)
    ensures KeyInv(env, sk, After(env, s, es), LastCompleted(env, sk, s, last, es))
    decreases |es|
  {
    if es != [] {
      StepKeepsKeyInv(env, sk, s, last, es[0]);
      RunKeepsKeyInv(env, sk, Step(env, s, es[0]), Completed(env, sk, s, last, es[0]), es[1..]);
    }
  }

  /** However the steps of any calls interleave, as long as no SetJSON of one key overlaps another call on
      that key and its writes succeed, every GetJSON of the key returns the value stored last, or misses when
      there is none; only an outage of the permanent tier can make it miss otherwise. What calls on other
      keys do, and whether their writes succeed, does not matter. */
  lemma OrderlyKeyReadsLast<V(!new)>(env: Env<V>, ns: string, key: string, es: seq<Event<V>>, e: Event<V>)
    requires Decodes(env) && OrderlyRun(env, CacheKey(env, ns, key), Start(), es)
    ensures var sk := CacheKey(env, ns, key);
      var last := LastCompleted(env, sk, Start(), None, es);
      match Returned(env, sk, After(env, Start(), es), e)
      case Some(Hit(v)) => last == Some(v)
      case Some(Miss) => last == None
      case _ => true
  {
    var sk := CacheKey(env, ns, key);
    RunKeepsKeyInv(env, sk, Start(), None, es);
    if Returned(env, sk, After(env, Start(), es), e).Some? {
      ReturnsLast(env, sk, After(env, Start(), es), LastCompleted(env, sk, Start(), None, es), e);
    }
  }

  /** Two overlapping SetJSONs of one key can leave the tiers disagreeing for good: the second writes both
      tiers between the first one's two writes. */
  lemma OverlappingSets<V(!new)>(env: Env<V>, s: State<V>, ns: string, key: string, v: V, w: V, a: string, b: string)
    requires s.calls == map[] && env.encode(v) == Some(a) && env.encode(w) == Some(b)
    ensures var sk := CacheKey(env, ns, key);
      var es := [CallSet(1, ns, key, v), Go(1, false), CallSet(2, ns, key, w), Go(2, false), Go(2, false), Go(1, false)];
      var t := After(env, s, es);
      t.calls == map[] && sk in t.tiers.hot && sk in t.tiers.cold && t.tiers.hot[sk] == b && t.tiers.cold[sk] == a
  {
    var sk := CacheKey(env, ns, key);
    var s1 := Step(env, s, CallSet(1, ns, key, v));
    var s2 := Step(env, s1, Go(1, false));
    assert s2.calls == map[1 := WriteCold(ns, key, a)];
    WholeSet(env, s2, 2, ns, key, b, w);
    var s5 := Step(env, Step(env, Step(env, s2, CallSet(2, ns, key, w)), Go(2, false)), Go(2, false));
    assert s5.calls == map[1 := WriteCold(ns, key, a)] && s5.tiers.hot[sk] == b;
    var s6 := Step(env, s5, Go(1, false));
    assert s6.calls == map[];
    AfterThree(env, s, CallSet(1, ns, key, v), Go(1, false), CallSet(2, ns, key, w), [Go(2, false), Go(2, false), Go(1, false)]);
    AfterThree(env, Step(env, s2, CallSet(2, ns, key, w)), Go(2, false), Go(2, false), Go(1, false), []);
    assert [CallSet(1, ns, key, v), Go(1, false), CallSet(2, ns, key, w)] + [Go(2, false), Go(2, false), Go(1, false)]
        == [CallSet(1, ns, key, v), Go(1, false), CallSet(2, ns, key, w), Go(2, false), Go(2, false), Go(1, false)];
    var tail: seq<Event<V>> := [Go(2, false), Go(2, false), Go(1, false)];
    assert tail + [] == tail;
  }
}
