/** Why the discipline on a key of internal/rcache/rcache.go has to be as it is: each way of breaking it, once, can
    leave an old value to be read. */
module TwoTierBreaches {
  import opened Options
  import opened TwoTier
  import opened TwoTierRuns

  /** The ways a single event can break the discipline on a key. */
  datatype Breach = GetDuringSet | SetDuringGet | SetDuringSet | HotWriteFails | ColdWriteFails

  ghost predicate Breaks<V(!new)>(env: Env<V>, sk: string, s: State<V>, e: Event<V>, b: Breach) {
    match b
    case GetDuringSet => e.CallGet? && CacheKey(env, e.ns, e.key) == sk && !NoWriter(env, s, sk)
    case SetDuringGet => e.CallSet? && CacheKey(env, e.ns, e.key) == sk && NoWriter(env, s, sk) && !NoCall(env, s, sk)
    case SetDuringSet => e.CallSet? && CacheKey(env, e.ns, e.key) == sk && !NoWriter(env, s, sk)
    case HotWriteFails => e.Go? && e.fails && CallOn(env, s, e.id, sk) && s.calls[e.id].WriteHot?
    case ColdWriteFails => e.Go? && e.fails && CallOn(env, s, e.id, sk) && s.calls[e.id].WriteCold?
  }

  lemma BreachesAreAll<V(!new)>(env: Env<V>, sk: string, s: State<V>, e: Event<V>)
    ensures Orderly(env, sk, s, e) <==> forall b :: !Breaks(env, sk, s, e, b)
  {
    if !Orderly(env, sk, s, e) {
      assert Breaks(env, sk, s, e, GetDuringSet) || Breaks(env, sk, s, e, SetDuringGet) || Breaks(env, sk, s, e, SetDuringSet)
          || Breaks(env, sk, s, e, HotWriteFails) || Breaks(env, sk, s, e, ColdWriteFails);
    }
  }

  /** The run is orderly but for one event, which breaks the discipline in this way. */
  ghost predicate OneBreach<V(!new)>(env: Env<V>, sk: string, s: State<V>, es: seq<Event<V>>, b: Breach)
    decreases |es|
  {
    es != [] &&
    var t := Step(env, s, es[0]);
    if Orderly(env, sk, s, es[0]) then OneBreach(env, sk, t, es[1..], b)
    else Breaks(env, sk, s, es[0], b) && OrderlyRun(env, sk, t, es[1..])
  }

  const NO_FAULTS := Faults(false, false, false, false)

  /** A key of the cache and two values for it. */
  datatype Story<!V(!new)> = Story(env: Env<V>, ns: string, key: string, was: V, now: V) {
    ghost function Sk(): string { CacheKey(env, ns, key) }

    ghost predicate Told() { Decodes(env) && env.encode(was).Some? && env.encode(now).Some? }

    /** All calls have returned and `now` was stored last, but a GetJSON without faults answers `was`. */
    ghost predicate Stale(s: State<V>, last: Option<V>) {
      s.calls == map[] && last == Some(now) && Get(env, s.tiers, ns, key, NO_FAULTS).0 == Some(was)
    }

    ghost function Set(id: nat, v: V): Event<V> { CallSet(id, ns, key, v) }

    ghost function Read(id: nat): Event<V> { CallGet(id, ns, key) }

    ghost function Next(s: State<V>, e: Event<V>): State<V> { Step(env, s, e) }

    /** From `s` some run, with the one breach if any is given, ends stale. */
    ghost predicate GoesStale(s: State<V>, last: Option<V>, b: Option<Breach>) {
      exists es ::
        && Stale(After(env, s, es), LastCompleted(env, Sk(), s, last, es))
        && (if b.None? then OrderlyRun(env, Sk(), s, es) else OneBreach(env, Sk(), s, es, b.value))
    }

    lemma Ended(s: State<V>, last: Option<V>)
      requires Stale(s, last)
      ensures GoesStale(s, last, None)
    {
      assert After(env, s, []) == s;
    }

    lemma Goes(s: State<V>, last: Option<V>, e: Event<V>, b: Option<Breach>)
      requires Orderly(env, Sk(), s, e) && GoesStale(Next(s, e), Completed(env, Sk(), s, last, e), b)
      ensures GoesStale(s, last, b)
    {
      var t, done := Next(s, e), Completed(env, Sk(), s, last, e);
      var es :| && Stale(After(env, t, es), LastCompleted(env, Sk(), t, done, es))
                && (if b.None? then OrderlyRun(env, Sk(), t, es) else OneBreach(env, Sk(), t, es, b.value));
      assert ([e] + es)[1..] == es;
      assert After(env, s, [e] + es) == After(env, t, es);
    }

    lemma Breached(s: State<V>, last: Option<V>, e: Event<V>, b: Breach)
      requires Breaks(env, Sk(), s, e, b) && GoesStale(Next(s, e), Completed(env, Sk(), s, last, e), None)
      ensures GoesStale(s, last, Some(b))
    {
      var t, done := Next(s, e), Completed(env, Sk(), s, last, e);
      var es :| Stale(After(env, t, es), LastCompleted(env, Sk(), t, done, es)) && OrderlyRun(env, Sk(), t, es);
      assert ([e] + es)[1..] == es;
      assert After(env, s, [e] + es) == After(env, t, es);
      BreachesAreAll(env, Sk(), s, e);
    }

    // The schedules, each with the one breach, from a state with no call under way.

    ghost predicate Rests(s: State<V>) { Told() && s.calls == map[] }

    ghost function Kept(s: State<V>, v: V): State<V>
      requires env.encode(v).Some?
    {
      var data := env.encode(v).value;
      s.(tiers := Tiers(s.tiers.hot[Sk() := data], s.tiers.cold[Sk() := data]), stored := s.stored + {(ns, key, v)})
    }

    /** A whole SetJSON, by itself. */
    lemma Stored(s: State<V>, last: Option<V>, b: Breach)
      requires Rests(s) && GoesStale(Kept(s, was), Some(was), Some(b))
      ensures GoesStale(s, last, Some(b))
    {
      var s1 := Next(s, Set(1, was));
      var s2 := Next(s1, Go(1, false));
      assert s2.calls == map[1 := WriteCold(ns, key, env.encode(was).value)];
      WholeSet(env, s, 1, ns, key, env.encode(was).value, was);
      Goes(s2, last, Go(1, false), Some(b));
      Goes(s1, last, Go(1, false), Some(b));
      Goes(s, last, Set(1, was), Some(b));
    }

    lemma FailedHotWrite(s: State<V>, last: Option<V>)
      requires Rests(s) && Sk() in s.tiers.hot && Some(s.tiers.hot[Sk()]) == env.encode(was)
      ensures GoesStale(s, last, Some(HotWriteFails))
    {
      var s1 := Next(s, Set(2, now));
      var s2 := Next(s1, Go(2, true));
      assert s2.calls == map[2 := WriteCold(ns, key, env.encode(now).value)];
      var s3 := Next(s2, Go(2, false));
      Ended(s3, Some(now));
      Goes(s2, last, Go(2, false), None);
      assert CallOn(env, s1, 2, Sk());
      Breached(s1, last, Go(2, true), HotWriteFails);
      Goes(s, last, Set(2, now), Some(HotWriteFails));
    }

    lemma FailedColdWrite(s: State<V>, last: Option<V>)
      requires Rests(s) && Sk() in s.tiers.cold && Some(s.tiers.cold[Sk()]) == env.encode(was)
      ensures GoesStale(s, last, Some(ColdWriteFails))
    {
      var s1 := Next(s, Set(2, now));
      var s2 := Next(s1, Go(2, false));
      assert s2.calls == map[2 := WriteCold(ns, key, env.encode(now).value)];
      var s3 := Next(s2, Go(2, true));
      var s4 := Next(s3, Drop(Sk()));
      Ended(s4, Some(now));
      Goes(s3, Some(now), Drop(Sk()), None);
      assert CallOn(env, s2, 2, Sk());
      Breached(s2, last, Go(2, true), ColdWriteFails);
      Goes(s1, last, Go(2, false), Some(ColdWriteFails));
      Goes(s, last, Set(2, now), Some(ColdWriteFails));
    }

    /** A GetJSON that has read the old value writes it back after a SetJSON has ended. */
    lemma WritesBackLast(s: State<V>, last: Option<V>)
      requires Told() && s.calls == map[2 := WriteCold(ns, key, env.encode(now).value),
                                        3 := Backfill(ns, key, env.encode(was).value, was)]
      ensures GoesStale(s, last, None)
    {
      var s1 := Next(s, Go(2, false));
      assert s1.calls == map[3 := Backfill(ns, key, env.encode(was).value, was)];
      var s2 := Next(s1, Go(3, false));
      Ended(s2, Some(now));
      Goes(s1, Some(now), Go(3, false), None);
      Goes(s, last, Go(2, false), None);
    }

    /** A GetJSON has read the permanent tier when a SetJSON begins. */
    lemma SetBeforeBackfill(s: State<V>, last: Option<V>)
      requires Told() && s.calls == map[3 := Backfill(ns, key, env.encode(was).value, was)]
      ensures GoesStale(s, last, Some(SetDuringGet))
    {
      var s1 := Next(s, Set(2, now));
      var s2 := Next(s1, Go(2, false));
      WritesBackLast(s2, last);
      Goes(s1, last, Go(2, false), None);
      assert CallOn(env, s, 3, Sk());
      Breached(s, last, Set(2, now), SetDuringGet);
    }

    lemma SetWhileReading(s: State<V>, last: Option<V>)
      requires Rests(s) && Sk() in s.tiers.cold && Some(s.tiers.cold[Sk()]) == env.encode(was) && Sk() !in s.tiers.hot
      ensures GoesStale(s, last, Some(SetDuringGet))
    {
      var s1 := Next(s, Read(3));
      var s2 := Next(s1, Go(3, false));
      assert s2.calls == map[3 := ReadCold(ns, key)];
      var s3 := Next(s2, Go(3, false));
      SetBeforeBackfill(s3, last);
      Goes(s2, last, Go(3, false), Some(SetDuringGet));
      Goes(s1, last, Go(3, false), Some(SetDuringGet));
      Goes(s, last, Read(3), Some(SetDuringGet));
    }

    /** A SetJSON stands between its two writes, and its hot entry is gone, when a GetJSON begins: that one reads the
        old value. */
    lemma GetBetweenWrites(s: State<V>, last: Option<V>)
      requires Told() && s.calls == map[2 := WriteCold(ns, key, env.encode(now).value)]
      requires Sk() in s.tiers.cold && Some(s.tiers.cold[Sk()]) == env.encode(was) && Sk() !in s.tiers.hot
      ensures GoesStale(s, last, Some(GetDuringSet))
    {
      var s1 := Next(s, Read(3));
      var s2 := Next(s1, Go(3, false));
      assert s2.calls == s.calls[3 := ReadCold(ns, key)];
      var s3 := Next(s2, Go(3, false));
      WritesBackLast(s3, last);
      Goes(s2, last, Go(3, false), None);
      Goes(s1, last, Go(3, false), None);
      assert CallOn(env, s, 2, Sk());
      Breached(s, last, Read(3), GetDuringSet);
    }

    lemma GetWhileWriting(s: State<V>, last: Option<V>)
      requires Rests(s) && Sk() in s.tiers.cold && Some(s.tiers.cold[Sk()]) == env.encode(was)
      ensures GoesStale(s, last, Some(GetDuringSet))
    {
      var s1 := Next(s, Set(2, now));
      var s2 := Next(s1, Go(2, false));
      var s3 := Next(s2, Drop(Sk()));
      GetBetweenWrites(s3, last);
      Goes(s2, last, Drop(Sk()), Some(GetDuringSet));
      Goes(s1, last, Go(2, false), Some(GetDuringSet));
      Goes(s, last, Set(2, now), Some(GetDuringSet));
    }

    /** A SetJSON begins and ends between the two writes of another. */
    lemma SetWhileWriting(s: State<V>, last: Option<V>)
      requires Rests(s)
      ensures GoesStale(s, last, Some(SetDuringSet))
    {
      var a, b := env.encode(was).value, env.encode(now).value;
      var s1 := Next(s, Set(1, now));
      var s2 := Next(s1, Go(1, false));
      assert s2.calls == map[1 := WriteCold(ns, key, b)];
      var s3 := Next(s2, Set(2, was));
      var s4 := Next(s3, Go(2, false));
      assert s4.calls == map[1 := WriteCold(ns, key, b), 2 := WriteCold(ns, key, a)];
      var s5 := Next(s4, Go(2, false));
      assert s5.calls == map[1 := WriteCold(ns, key, b)];
      var s6 := Next(s5, Go(1, false));
      Ended(s6, Some(now));
      Goes(s5, Some(was), Go(1, false), None);
      Goes(s4, last, Go(2, false), None);
      Goes(s3, last, Go(2, false), None);
      assert CallOn(env, s2, 1, Sk());
      Breached(s2, last, Set(2, was), SetDuringSet);
      Goes(s1, last, Go(1, false), Some(SetDuringSet));
      Goes(s, last, Set(1, now), Some(SetDuringSet));
    }

    lemma EachGoesStale(b: Breach)
      requires Told()
      ensures GoesStale(Start(), None, Some(b))
    {
      if b == SetDuringSet { SetWhileWriting(Start(), None); return; }
      var s := Kept(Start(), was);
      match b {
        case HotWriteFails => FailedHotWrite(s, Some(was));
        case ColdWriteFails => FailedColdWrite(s, Some(was));
        case GetDuringSet => GetWhileWriting(s, Some(was));
        case SetDuringGet =>
          SetWhileReading(Next(s, Drop(Sk())), Some(was));
          Goes(s, Some(was), Drop(Sk()), Some(b));
      }
      Stored(Start(), None, b);
    }
  }

  /** No clause of the discipline can be dropped: for any key, any two values that encode, and any one way of breaking
      it, some run from the start breaks it once and in that way only, lets every call return, and leaves a GetJSON
      without faults answering `was` although `now` was stored last. */
  lemma EachBreachHurts<V(!new)>(env: Env<V>, ns: string, key: string, was: V, now: V, b: Breach)
    requires Decodes(env) && env.encode(was).Some? && env.encode(now).Some?
    ensures var sk := CacheKey(env, ns, key);
      exists es ::
        && OneBreach(env, sk, Start(), es, b)
        && After(env, Start(), es).calls == map[]
        && LastCompleted(env, sk, Start(), None, es) == Some(now)
        && Get(env, After(env, Start(), es).tiers, ns, key, NO_FAULTS).0 == Some(was)
  {
    var story := Story(env, ns, key, was, now);
    story.EachGoesStale(b);
    var es :| story.Stale(After(env, Start(), es), LastCompleted(env, story.Sk(), Start(), None, es))
           && OneBreach(env, story.Sk(), Start(), es, b);
  }
}
