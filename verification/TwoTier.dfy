/** The two-tier resolve cache of internal/rcache/rcache.go: a volatile hot tier (Valkey) in front of
    a permanent tier (S3). */
module TwoTier {
  import opened Options

  /** JSON and SHA-256 as the cache uses them. */
  datatype Env<!V> = Env(encode: V -> Option<string>, decode: string -> Option<V>, hash: string -> string)

  /** Decoding inverts encoding. */
  ghost predicate Decodes<V(!new)>(env: Env<V>) {
    forall v :: env.encode(v).Some? ==> env.decode(env.encode(v).value) == Some(v)
  }

  /** The hex digest has 64 characters. */
  ghost predicate FixedLength<V>(env: Env<V>) { forall k :: |env.hash(k)| == 64 }

  /** No two of the keys in use have the same digest. Of all strings this cannot be asked. */
  predicate CollisionFree<V>(env: Env<V>, keys: set<string>) {
    forall j, k :: j in keys && k in keys && env.hash(j) == env.hash(k) ==> j == k
  }

  ghost predicate Faithful<V(!new)>(env: Env<V>, keys: set<string>) {
    Decodes(env) && FixedLength(env) && CollisionFree(env, keys)
  }

  function CacheKey<V>(env: Env<V>, ns: string, key: string): string {
    ns + "/" + env.hash(key)
  }

  /** The fixed-length suffix tells namespace and digest apart even when a namespace contains '/'. */
  lemma CacheKeyExact<V>(env: Env<V>, ns: string, key: string, ns': string, key': string)
    requires FixedLength(env)
    ensures CacheKey(env, ns, key) == CacheKey(env, ns', key') <==> ns == ns' && env.hash(key) == env.hash(key')
  {
    var a, b := CacheKey(env, ns, key), CacheKey(env, ns', key');
    assert |a| == |ns| + 65 && |b| == |ns'| + 65;
    assert a[..|ns|] == ns && b[..|ns'|] == ns';
    assert a[|ns| + 1..] == env.hash(key) && b[|ns'| + 1..] == env.hash(key');
  }

  lemma CacheKeyInjective<V>(env: Env<V>, keys: set<string>, ns: string, key: string, ns': string, key': string)
    requires FixedLength(env) && CollisionFree(env, keys) && key in keys && key' in keys
    ensures CacheKey(env, ns, key) == CacheKey(env, ns', key') <==> ns == ns' && key == key'
  {
    CacheKeyExact(env, ns, key, ns', key');
  }

  /** A digest that tells short keys apart, to show that the assumptions can be met. */
  function Padded(k: string): string {
    if |k| < 64 then k + "1" + seq(63 - |k|, _ => '0') else seq(64, _ => '0')
  }

  function Text(): Env<string> { Env(s => Some(s), s => Some(s), Padded) }

  lemma ShorterPads(j: string, k: string)
    requires |j| < |k| < 64
    ensures Padded(j) != Padded(k)
  {
    assert Padded(k)[|k|] == '1' && Padded(j)[|k|] == '0';
  }

  /** The assumptions are met for every finite set of keys of fewer than 64 characters, however many. */
  lemma FaithfulIsMet(keys: set<string>)
    requires forall k :: k in keys ==> |k| < 64
    ensures Faithful(Text(), keys)
  {
    forall j, k | j in keys && k in keys && Padded(j) == Padded(k) ensures j == k {
      if |j| < |k| { ShorterPads(j, k); }
      if |k| < |j| { ShorterPads(k, j); }
      assert Padded(j)[..|j|] == j && Padded(k)[..|k|] == k;
    }
  }

  // ---------------------------------------------------------------- one call at a time

  datatype Tiers = Tiers(hot: map<string, string>, cold: map<string, string>)

  /** Which operations of one call fail. */
  datatype Faults = Faults(hotRead: bool, coldRead: bool, hotWrite: bool, coldWrite: bool)

  function Get<V>(env: Env<V>, t: Tiers, ns: string, key: string, f: Faults): (Option<V>, Tiers) {
    var sk := CacheKey(env, ns, key);
    if !f.hotRead && sk in t.hot && env.decode(t.hot[sk]).Some? then (env.decode(t.hot[sk]), t)
    else if f.coldRead || sk !in t.cold then (None, t)
    else
      var data := t.cold[sk];
      if env.decode(data).None? then (None, t)
      else (env.decode(data), if f.hotWrite then t else t.(hot := t.hot[sk := data]))
  }

  function Set<V>(env: Env<V>, t: Tiers, ns: string, key: string, v: V, f: Faults): Tiers {
    match env.encode(v)
    case None => t
    case Some(data) =>
      var sk := CacheKey(env, ns, key);
      Tiers(if f.hotWrite then t.hot else t.hot[sk := data], if f.coldWrite then t.cold else t.cold[sk := data])
  }

  class Cache<V> {
    const env: Env<V>
    var hot: map<string, string>
    var cold: map<string, string>

    constructor (env: Env<V>)
      ensures this.env == env && hot == map[] && cold == map[]
    {
      this.env := env;
      hot, cold := map[], map[];
    }

    method GetJSON(ns: string, key: string, f: Faults) returns (out: Option<V>)
      modifies this
      ensures (out, Tiers(hot, cold)) == Get(env, Tiers(old(hot), old(cold)), ns, key, f)
      ensures cold == old(cold)
      ensures var sk := CacheKey(env, ns, key);
        && (sk in old(hot) && !f.hotRead && env.decode(old(hot)[sk]).Some? ==> out == env.decode(old(hot)[sk]) && hot == old(hot))
        && (out.Some? && !f.hotWrite ==> sk in hot && env.decode(hot[sk]) == out)
        && (forall x :: x != sk ==> (x in hot <==> x in old(hot)) && (x in hot ==> hot[x] == old(hot)[x]))
    {
      var sk := CacheKey(env, ns, key);
      if !f.hotRead && sk in hot {
        out := env.decode(hot[sk]);
        if out.Some? { return; }
      }
      if f.coldRead || sk !in cold { return None; }
      var data := cold[sk];
      out := env.decode(data);
      if out.None? { return; }
      if !f.hotWrite {
        hot := hot[sk := data];
      }
    }

    method SetJSON(ns: string, key: string, v: V, f: Faults)
      modifies this
      ensures Tiers(hot, cold) == Set(env, Tiers(old(hot), old(cold)), ns, key, v, f)
    {
      var data := env.encode(v);
      if data.None? { return; }
      var sk := CacheKey(env, ns, key);
      if !f.hotWrite { hot := hot[sk := data.value]; }
      if !f.coldWrite { cold := cold[sk := data.value]; }
    }
  }

  datatype Call<V> =
    | Read(ns: string, key: string, faults: Faults)
    | Write(ns: string, key: string, v: V, faults: Faults)
    | Evict(sk: string)

  /** What a caller sees of a Read. */
  datatype Seen<V> = Seen(ns: string, key: string, faults: Faults, answer: Option<V>)

  type Pair = (string, string)

  /** The cache without bytes and storage keys: the value stored last for each pair, and which pairs the hot tier has. */
  datatype Memory<V> = Memory(last: map<Pair, V>, warm: set<Pair>)

  function Answers<V>(env: Env<V>, t: Tiers, calls: seq<Call<V>>): seq<Seen<V>>
    decreases |calls|
  {
    if calls == [] then [] else
    match calls[0]
    case Read(ns, key, f) =>
      [Seen(ns, key, f, Get(env, t, ns, key, f).0)] + Answers(env, Get(env, t, ns, key, f).1, calls[1..])
    case Write(ns, key, v, f) => Answers(env, Set(env, t, ns, key, v, f), calls[1..])
    case Evict(sk) => Answers(env, t.(hot := t.hot - {sk}), calls[1..])
  }

  /** A pair is answered when it has been stored and some tier that has it can be read. */
  predicate Answerable<V>(m: Memory<V>, pair: Pair, f: Faults) {
    pair in m.last && ((pair in m.warm && !f.hotRead) || !f.coldRead)
  }

  /** The same calls on the memory. An answer and a store leave their pair warm if the hot tier can be written;
      values that do not encode are not stored. */
  function MemoryAnswers<V>(env: Env<V>, m: Memory<V>, calls: seq<Call<V>>): seq<Seen<V>>
    decreases |calls|
  {
    if calls == [] then [] else
    match calls[0]
    case Read(ns, key, f) =>
      var pair := (ns, key);
      if Answerable(m, pair, f) then
        [Seen(ns, key, f, Some(m.last[pair]))]
          + MemoryAnswers(env, if f.hotWrite then m else m.(warm := m.warm + {pair}), calls[1..])
      else [Seen(ns, key, f, None)] + MemoryAnswers(env, m, calls[1..])
    case Write(ns, key, v, _) =>
      MemoryAnswers(env, if env.encode(v).Some? then Memory(m.last[(ns, key) := v], m.warm + {(ns, key)}) else m, calls[1..])
    case Evict(sk) =>
      MemoryAnswers(env, m.(warm := set pair | pair in m.warm && CacheKey(env, pair.0, pair.1) != sk), calls[1..])
  }

  /** A present hot entry equals the permanent one, that one encodes the value stored last, and the warm pairs are
      those with a hot entry. */
  ghost predicate Refines<V(!new)>(env: Env<V>, keys: set<string>, t: Tiers, m: Memory<V>) {
    && (forall sk :: sk in t.hot ==> sk in t.cold && t.hot[sk] == t.cold[sk])
    && (forall ns, key :: key in keys ==> PairFits(env, t, m, ns, key))
  }

  ghost predicate PairFits<V>(env: Env<V>, t: Tiers, m: Memory<V>, ns: string, key: string) {
    var sk := CacheKey(env, ns, key);
    && ((ns, key) in m.last <==> sk in t.cold) && ((ns, key) in m.warm <==> sk in t.hot)
    && ((ns, key) in m.last ==> env.encode(m.last[(ns, key)]) == Some(t.cold[sk]))
  }

  lemma WriteRefines<V(!new)>(env: Env<V>, keys: set<string>, t: Tiers, m: Memory<V>,
                              ns: string, key: string, v: V, f: Faults)
    requires Faithful(env, keys) && Refines(env, keys, t, m) && key in keys
    requires env.encode(v).Some? && !f.hotWrite && !f.coldWrite
    ensures Refines(env, keys, Set(env, t, ns, key, v, f), Memory(m.last[(ns, key) := v], m.warm + {(ns, key)}))
  {
    var u := Set(env, t, ns, key, v, f);
    var w := Memory(m.last[(ns, key) := v], m.warm + {(ns, key)});
    forall n, k | k in keys ensures PairFits(env, u, w, n, k) {
      assert PairFits(env, t, m, n, k);
      CacheKeyInjective(env, keys, n, k, ns, key);
    }
  }

  /** A read is answered exactly when it is answerable, and leaves a memory that fits. */
  lemma ReadRefines<V(!new)>(env: Env<V>, keys: set<string>, t: Tiers, m: Memory<V>, ns: string, key: string, f: Faults)
    requires Faithful(env, keys) && Refines(env, keys, t, m) && key in keys
    ensures var (answer, u) := Get(env, t, ns, key, f);
      if Answerable(m, (ns, key), f)
      then answer == Some(m.last[(ns, key)])
           && Refines(env, keys, u, if f.hotWrite then m else m.(warm := m.warm + {(ns, key)}))
      else answer == None && Refines(env, keys, u, m)
  {
    var (answer, u) := Get(env, t, ns, key, f);
    assert PairFits(env, t, m, ns, key);
    if Answerable(m, (ns, key), f) {
      var w := if f.hotWrite then m else m.(warm := m.warm + {(ns, key)});
      forall n, k | k in keys ensures PairFits(env, u, w, n, k) {
        assert PairFits(env, t, m, n, k);
        CacheKeyInjective(env, keys, n, k, ns, key);
      }
    }
  }

  lemma EvictRefines<V(!new)>(env: Env<V>, keys: set<string>, t: Tiers, m: Memory<V>, sk: string)
    requires Refines(env, keys, t, m)
    ensures Refines(env, keys, t.(hot := t.hot - {sk}),
                    m.(warm := set pair | pair in m.warm && CacheKey(env, pair.0, pair.1) != sk))
  {
    var u := t.(hot := t.hot - {sk});
    var w := m.(warm := set pair | pair in m.warm && CacheKey(env, pair.0, pair.1) != sk);
    forall n, k | k in keys ensures PairFits(env, u, w, n, k) { assert PairFits(env, t, m, n, k); }
  }

  /** With the writes of SetJSON succeeding, every run of calls is answered like the memory, exactly: however often
      the hot tier drops entries, and whatever reads and backfills fail. */
  lemma {:induction false} RefinesMemory<V(!new)>(env: Env<V>, keys: set<string>, t: Tiers, m: Memory<V>,
                                                  calls: seq<Call<V>>)
    requires Faithful(env, keys) && Refines(env, keys, t, m)
    requires forall i :: 0 <= i < |calls| && !calls[i].Evict? ==> calls[i].key in keys
    requires forall i :: 0 <= i < |calls| && calls[i].Write? ==> !calls[i].faults.hotWrite && !calls[i].faults.coldWrite
    ensures Answers(env, t, calls) == MemoryAnswers(env, m, calls)
    decreases |calls|
  {
    if calls != [] {
      match calls[0]
      case Read(ns, key, f) =>
        ReadRefines(env, keys, t, m, ns, key, f);
        var next := if Answerable(m, (ns, key), f) && !f.hotWrite then m.(warm := m.warm + {(ns, key)}) else m;
        RefinesMemory(env, keys, Get(env, t, ns, key, f).1, next, calls[1..]);
      case Write(ns, key, v, f) =>
        if env.encode(v).Some? {
          WriteRefines(env, keys, t, m, ns, key, v, f);
          RefinesMemory(env, keys, Set(env, t, ns, key, v, f), Memory(m.last[(ns, key) := v], m.warm + {(ns, key)}), calls[1..]);
        } else {
          RefinesMemory(env, keys, t, m, calls[1..]);
        }
      case Evict(sk) =>
        EvictRefines(env, keys, t, m, sk);
        RefinesMemory(env, keys, t.(hot := t.hot - {sk}),
                      m.(warm := set pair | pair in m.warm && CacheKey(env, pair.0, pair.1) != sk), calls[1..]);
    }
  }

  /** The same calls on a plain map; values that do not encode are not stored. */
  function PlainAnswers<V>(env: Env<V>, p: map<Pair, V>, calls: seq<Call<V>>): seq<Seen<V>>
    decreases |calls|
  {
    if calls == [] then [] else
    match calls[0]
    case Read(ns, key, f) =>
      [Seen(ns, key, f, if (ns, key) in p then Some(p[(ns, key)]) else None)] + PlainAnswers(env, p, calls[1..])
    case Write(ns, key, v, _) =>
      PlainAnswers(env, if env.encode(v).Some? then p[(ns, key) := v] else p, calls[1..])
    case Evict(_) => PlainAnswers(env, p, calls[1..])
  }

  /** Same questions, and the same answers except that a failing permanent tier may turn one into a miss. */
  ghost predicate SameUpToOutage<V>(a: seq<Seen<V>>, b: seq<Seen<V>>) {
    |a| == |b| && forall i :: 0 <= i < |a| ==> a[i] == b[i] || (b[i].faults.coldRead && a[i] == b[i].(answer := None))
  }

  lemma {:induction false} MemoryIsPlain<V(!new)>(env: Env<V>, m: Memory<V>, calls: seq<Call<V>>)
    ensures SameUpToOutage(MemoryAnswers(env, m, calls), PlainAnswers(env, m.last, calls))
    decreases |calls|
  {
    if calls != [] {
      match calls[0]
      case Read(ns, key, f) =>
        MemoryIsPlain(env, if Answerable(m, (ns, key), f) && !f.hotWrite then m.(warm := m.warm + {(ns, key)}) else m, calls[1..]);
      case Write(ns, key, v, _) =>
        MemoryIsPlain(env, if env.encode(v).Some? then Memory(m.last[(ns, key) := v], m.warm + {(ns, key)}) else m, calls[1..]);
      case Evict(sk) =>
        MemoryIsPlain(env, m.(warm := set pair | pair in m.warm && CacheKey(env, pair.0, pair.1) != sk), calls[1..]);
    }
  }

  /** So the cache answers like a plain map of the last stored values, but for misses during outages. */
  lemma RefinesPlainMap<V(!new)>(env: Env<V>, keys: set<string>, t: Tiers, m: Memory<V>, calls: seq<Call<V>>)
    requires Faithful(env, keys) && Refines(env, keys, t, m)
    requires forall i :: 0 <= i < |calls| && !calls[i].Evict? ==> calls[i].key in keys
    requires forall i :: 0 <= i < |calls| && calls[i].Write? ==> !calls[i].faults.hotWrite && !calls[i].faults.coldWrite
    ensures SameUpToOutage(Answers(env, t, calls), PlainAnswers(env, m.last, calls))
  {
    RefinesMemory(env, keys, t, m, calls);
    MemoryIsPlain(env, m, calls);
  }

  /** What success of the writes is for: if only the hot write of a SetJSON fails, the next fault-free
      read sees the new value exactly when no older entry was left behind in the hot tier. */
  lemma FailedHotWriteExact<V(!new)>(env: Env<V>, keys: set<string>, t: Tiers, m: Memory<V>, ns: string, key: string, v: V)
    requires Decodes(env) && Refines(env, keys, t, m) && key in keys && env.encode(v).Some?
    ensures var sk := CacheKey(env, ns, key);
      var u := Set(env, t, ns, key, v, Faults(false, false, true, false));
      Get(env, u, ns, key, Faults(false, false, false, false)).0 == Some(v) <==>
        sk !in t.hot || ((ns, key) in m.last && m.last[(ns, key)] == v)
  {
    var sk := CacheKey(env, ns, key);
    assert PairFits(env, t, m, ns, key);
  }

  // ---------------------------------------------------------------- concurrent calls, step by step

  /** Where a call is: about to read a tier, holding data to write back, or about to write a tier. */
  datatype Pc<V> =
    | ReadHot(ns: string, key: string)
    | ReadCold(ns: string, key: string)
    | Backfill(ns: string, key: string, data: string, v: V)
    | WriteHot(ns: string, key: string, data: string)
    | WriteCold(ns: string, key: string, data: string)

  datatype State<V(==)> = State(tiers: Tiers, calls: map<nat, Pc<V>>, stored: set<(string, string, V)>,
                            returned: seq<(string, string, V)>)

  datatype Event<V> =
    | CallGet(id: nat, ns: string, key: string)
    | CallSet(id: nat, ns: string, key: string, v: V)
    | Go(id: nat, fails: bool)
    | Drop(sk: string)

  function Return<V(==)>(s: State<V>, id: nat, r: Option<(string, string, V)>): State<V> {
    s.(calls := s.calls - {id}, returned := if r.Some? then s.returned + [r.value] else s.returned)
  }

  function Step<V(==)>(env: Env<V>, s: State<V>, e: Event<V>): State<V> {
    match e
    case CallGet(id, ns, key) => if id in s.calls then s else s.(calls := s.calls[id := ReadHot(ns, key)])
    case CallSet(id, ns, key, v) =>
      if id in s.calls || env.encode(v).None? then s else
      s.(calls := s.calls[id := WriteHot(ns, key, env.encode(v).value)], stored := s.stored + {(ns, key, v)})
    case Drop(sk) => s.(tiers := s.tiers.(hot := s.tiers.hot - {sk}))
    case Go(id, fails) =>
      if id !in s.calls then s else
      match s.calls[id]
      case ReadHot(ns, key) =>
        var sk := CacheKey(env, ns, key);
        if !fails && sk in s.tiers.hot && env.decode(s.tiers.hot[sk]).Some?
        then Return(s, id, Some((ns, key, env.decode(s.tiers.hot[sk]).value)))
        else s.(calls := s.calls[id := ReadCold(ns, key)])
      case ReadCold(ns, key) =>
        var sk := CacheKey(env, ns, key);
        if !fails && sk in s.tiers.cold && env.decode(s.tiers.cold[sk]).Some?
        then s.(calls := s.calls[id := Backfill(ns, key, s.tiers.cold[sk], env.decode(s.tiers.cold[sk]).value)])
        else Return(s, id, None)
      case Backfill(ns, key, data, v) =>
        var t := if fails then s else s.(tiers := s.tiers.(hot := s.tiers.hot[CacheKey(env, ns, key) := data]));
        Return(t, id, Some((ns, key, v)))
      case WriteHot(ns, key, data) =>
        var t := if fails then s else s.(tiers := s.tiers.(hot := s.tiers.hot[CacheKey(env, ns, key) := data]));
        t.(calls := t.calls[id := WriteCold(ns, key, data)])
      case WriteCold(ns, key, data) =>
        var t := if fails then s else s.(tiers := s.tiers.(cold := s.tiers.cold[CacheKey(env, ns, key) := data]));
        Return(t, id, None)
  }

  /** `data` under `sk` is the encoding of a value once stored for the pair `sk` stands for. */
  ghost predicate Genuine<V(!new)>(env: Env<V>, stored: set<(string, string, V)>, sk: string, data: string) {
    exists ns, key, v :: (ns, key, v) in stored && sk == CacheKey(env, ns, key) && env.encode(v) == Some(data)
  }

  ghost predicate CallGenuine<V(!new)>(env: Env<V>, stored: set<(string, string, V)>, pc: Pc<V>) {
    match pc
    case Backfill(ns, key, data, v) => Genuine(env, stored, CacheKey(env, ns, key), data) && (ns, key, v) in stored
    case WriteHot(ns, key, data) => Genuine(env, stored, CacheKey(env, ns, key), data)
    case WriteCold(ns, key, data) => Genuine(env, stored, CacheKey(env, ns, key), data)
    case _ => true
  }

  /** Calls and stored values use these keys. */
  ghost predicate Keyed<V(!new)>(keys: set<string>, s: State<V>) {
    && (forall id :: id in s.calls ==> s.calls[id].key in keys)
    && (forall ns, key, v :: (ns, key, v) in s.stored ==> key in keys)
  }

  ghost predicate Inv<V(!new)>(env: Env<V>, keys: set<string>, s: State<V>) {
    && Keyed(keys, s)
    && (forall sk :: sk in s.tiers.hot ==> Genuine(env, s.stored, sk, s.tiers.hot[sk]))
    && (forall sk :: sk in s.tiers.cold ==> Genuine(env, s.stored, sk, s.tiers.cold[sk]))
    && (forall id :: id in s.calls ==> CallGenuine(env, s.stored, s.calls[id]))
    && (forall i :: 0 <= i < |s.returned| ==> s.returned[i] in s.stored)
  }

  lemma GenuineDecodes<V(!new)>(env: Env<V>, keys: set<string>, s: State<V>, ns: string, key: string, data: string)
    requires Faithful(env, keys) && Keyed(keys, s) && key in keys && Genuine(env, s.stored, CacheKey(env, ns, key), data)
    ensures env.decode(data).Some? && (ns, key, env.decode(data).value) in s.stored
  {
    var n, k, v :| (n, k, v) in s.stored && CacheKey(env, ns, key) == CacheKey(env, n, k) && env.encode(v) == Some(data);
    CacheKeyInjective(env, keys, ns, key, n, k);
  }

  lemma GenuineGrows<V(!new)>(env: Env<V>, keys: set<string>, s: State<V>, more: set<(string, string, V)>)
    requires Inv(env, keys, s) && s.stored <= more && forall ns, key, v :: (ns, key, v) in more ==> key in keys
    ensures Inv(env, keys, s.(stored := more))
  {
    forall sk, data | Genuine(env, s.stored, sk, data) ensures Genuine(env, more, sk, data) {
      var ns, key, v :| (ns, key, v) in s.stored && sk == CacheKey(env, ns, key) && env.encode(v) == Some(data);
      assert (ns, key, v) in more;
    }
  }

  lemma GoKeepsInv<V(!new)>(env: Env<V>, keys: set<string>, s: State<V>, id: nat, fails: bool)
    requires Faithful(env, keys) && Inv(env, keys, s) && id in s.calls
    ensures Inv(env, keys, Step(env, s, Go(id, fails)))
  {
    var pc := s.calls[id];
    var sk := CacheKey(env, pc.ns, pc.key);
    assert CallGenuine(env, s.stored, pc);
    if pc.ReadHot? && sk in s.tiers.hot {
      GenuineDecodes(env, keys, s, pc.ns, pc.key, s.tiers.hot[sk]);
    }
    if pc.ReadCold? && sk in s.tiers.cold {
      GenuineDecodes(env, keys, s, pc.ns, pc.key, s.tiers.cold[sk]);
    }
  }

  predicate Uses<V>(keys: set<string>, e: Event<V>) { e.CallGet? || e.CallSet? ==> e.key in keys }

  lemma StepKeepsInv<V(!new)>(env: Env<V>, keys: set<string>, s: State<V>, e: Event<V>)
    requires Faithful(env, keys) && Inv(env, keys, s) && Uses(keys, e)
    ensures Inv(env, keys, Step(env, s, e))
  {
    match e
    case CallSet(id, ns, key, v) =>
      if id !in s.calls && env.encode(v).Some? {
        var more := s.stored + {(ns, key, v)};
        GenuineGrows(env, keys, s, more);
        assert (ns, key, v) in more;
        assert Genuine(env, more, CacheKey(env, ns, key), env.encode(v).value);
      }
    case Go(id, fails) => if id in s.calls { GoKeepsInv(env, keys, s, id, fails); }
    case _ =>
  }

  function After<V(==)>(env: Env<V>, s: State<V>, es: seq<Event<V>>): State<V>
    decreases |es|
  {
    if es == [] then s else After(env, Step(env, s, es[0]), es[1..])
  }

  function Start<V(==)>(): State<V> { State(Tiers(map[], map[]), map[], {}, []) }

  lemma {:induction false} RunKeepsInv<V(!new)>(env: Env<V>, keys: set<string>, s: State<V>, es: seq<Event<V>>)
    requires Faithful(env, keys) && Inv(env, keys, s) && forall i :: 0 <= i < |es| ==> Uses(keys, es[i])
    ensures Inv(env, keys, After(env, s, es))
    decreases |es|
  {
    if es != [] {
      StepKeepsInv(env, keys, s, es[0]);
      RunKeepsInv(env, keys, Step(env, s, es[0]), es[1..]);
    }
  }

  /** Under any failures and any interleaving of the steps of any calls, a value returned for a pair was
      once stored for that same pair; so a pair only ever stored with one value misses or returns it. */
  lemma OnlyStoredValuesReturned<V(!new)>(env: Env<V>, keys: set<string>, es: seq<Event<V>>, i: nat, only: V)
    requires Faithful(env, keys) && forall j :: 0 <= j < |es| ==> Uses(keys, es[j])
    requires i < |After(env, Start(), es).returned|
    ensures After(env, Start(), es).returned[i] in After(env, Start(), es).stored
    ensures var s := After(env, Start(), es); var r := s.returned[i];
      (forall w :: (r.0, r.1, w) in s.stored ==> w == only) ==> r.2 == only
  {
    RunKeepsInv(env, keys, Start(), es);
    var r := After(env, Start(), es).returned[i];
    assert r == (r.0, r.1, r.2);
  }

  lemma AfterThree<V>(env: Env<V>, s: State<V>, a: Event<V>, b: Event<V>, c: Event<V>, es: seq<Event<V>>)
    ensures After(env, s, [a, b, c] + es) == After(env, Step(env, Step(env, Step(env, s, a), b), c), es)
  {
    var s1 := Step(env, s, a);
    var s2 := Step(env, s1, b);
    assert ([c] + es)[1..] == es;
    assert After(env, s2, [c] + es) == After(env, Step(env, s2, c), es);
    assert ([b, c] + es)[1..] == [c] + es;
    assert After(env, s1, [b, c] + es) == After(env, s2, [c] + es);
    assert ([a, b, c] + es)[1..] == [b, c] + es;
  }

  /** A GetJSON that has read the permanent tier and is about to backfill. */
  lemma ReadUpToBackfill<V(!new)>(env: Env<V>, s: State<V>, id: nat, ns: string, key: string, data: string, v: V)
    requires Decodes(env) && id !in s.calls && env.encode(v) == Some(data)
    requires var sk := CacheKey(env, ns, key); sk !in s.tiers.hot && sk in s.tiers.cold && s.tiers.cold[sk] == data
    ensures Step(env, Step(env, Step(env, s, CallGet(id, ns, key)), Go(id, false)), Go(id, false))
         == s.(calls := s.calls[id := Backfill(ns, key, data, v)])
  {
    var s1 := Step(env, s, CallGet(id, ns, key));
    var s2 := Step(env, s1, Go(id, false));
    assert s2.calls == s.calls[id := ReadCold(ns, key)];
  }

  lemma WholeSet<V(!new)>(env: Env<V>, s: State<V>, id: nat, ns: string, key: string, data: string, v: V)
    requires id !in s.calls && env.encode(v) == Some(data)
    ensures var sk := CacheKey(env, ns, key);
      Step(env, Step(env, Step(env, s, CallSet(id, ns, key, v)), Go(id, false)), Go(id, false))
      == s.(tiers := Tiers(s.tiers.hot[sk := data], s.tiers.cold[sk := data]), stored := s.stored + {(ns, key, v)})
  {
    var s1 := Step(env, s, CallSet(id, ns, key, v));
    var s2 := Step(env, s1, Go(id, false));
    assert s2.calls == s.calls[id := WriteCold(ns, key, data)];
    var s3 := Step(env, s2, Go(id, false));
    assert s3.calls == s.calls;
  }

  // The steps of a call, none of another coming between them, are the call.

  lemma AfterFour<V>(env: Env<V>, s: State<V>, a: Event<V>, b: Event<V>, c: Event<V>, d: Event<V>)
    ensures After(env, s, [a, b, c, d]) == Step(env, Step(env, Step(env, Step(env, s, a), b), c), d)
  {
    AfterThree(env, s, a, b, c, [d]);
    assert [a, b, c] + [d] == [a, b, c, d];
    assert [d][1..] == [];
  }

  lemma GetAlone<V>(env: Env<V>, s: State<V>, id: nat, ns: string, key: string, f: Faults)
    requires id !in s.calls
    ensures var (answer, tiers) := Get(env, s.tiers, ns, key, f);
      After(env, s, [CallGet(id, ns, key), Go(id, f.hotRead), Go(id, f.coldRead), Go(id, f.hotWrite)])
      == s.(tiers := tiers, returned := if answer.Some? then s.returned + [(ns, key, answer.value)] else s.returned)
  {
    AfterFour(env, s, CallGet(id, ns, key), Go(id, f.hotRead), Go(id, f.coldRead), Go(id, f.hotWrite));
    var s1 := Step(env, s, CallGet(id, ns, key));
    assert s1.calls - {id} == s.calls;
    var s2 := Step(env, s1, Go(id, f.hotRead));
    if id in s2.calls {
      assert s2.calls == s.calls[id := ReadCold(ns, key)] && s2.calls - {id} == s.calls;
      var s3 := Step(env, s2, Go(id, f.coldRead));
      if id in s3.calls {
        assert s3.calls - {id} == s.calls;
      }
    }
  }

  lemma SetAlone<V>(env: Env<V>, s: State<V>, id: nat, ns: string, key: string, v: V, f: Faults)
    requires id !in s.calls
    ensures After(env, s, [CallSet(id, ns, key, v), Go(id, f.hotWrite), Go(id, f.coldWrite)])
         == s.(tiers := Set(env, s.tiers, ns, key, v, f),
               stored := if env.encode(v).Some? then s.stored + {(ns, key, v)} else s.stored)
  {
    AfterThree(env, s, CallSet(id, ns, key, v), Go(id, f.hotWrite), Go(id, f.coldWrite), []);
    assert [CallSet(id, ns, key, v), Go(id, f.hotWrite), Go(id, f.coldWrite)] + [] == [CallSet(id, ns, key, v), Go(id, f.hotWrite), Go(id, f.coldWrite)];
    if env.encode(v).Some? {
      var s1 := Step(env, s, CallSet(id, ns, key, v));
      var s2 := Step(env, s1, Go(id, f.hotWrite));
      assert s2.calls == s.calls[id := WriteCold(ns, key, env.encode(v).value)] && s2.calls - {id} == s.calls;
    }
  }

  /** Why the refinement is for calls one at a time: a backfill that read the permanent tier before a
      SetJSON and writes the hot tier after it leaves the old value in front of the new one. */
  lemma StaleBackfill<V(!new)>(env: Env<V>, s: State<V>, ns: string, key: string, was: V, now: V, a: string, b: string)
    requires Decodes(env) && env.encode(was) == Some(a) && env.encode(now) == Some(b) && s.calls == map[]
    requires var sk := CacheKey(env, ns, key); sk !in s.tiers.hot && sk in s.tiers.cold && s.tiers.cold[sk] == a
    ensures var sk := CacheKey(env, ns, key);
      var read := [CallGet(1, ns, key), Go(1, false), Go(1, false)];
      var write := [CallSet(2, ns, key, now), Go(2, false), Go(2, false)];
      var t := After(env, s, read + (write + [Go(1, false)]));
      t.calls == map[] && sk in t.tiers.hot && sk in t.tiers.cold && t.tiers.hot[sk] == a && t.tiers.cold[sk] == b
  {
    ReadUpToBackfill(env, s, 1, ns, key, a, was);
    var pending := s.(calls := s.calls[1 := Backfill(ns, key, a, was)]);
    WholeSet(env, pending, 2, ns, key, b, now);
    AfterThree(env, pending, CallSet(2, ns, key, now), Go(2, false), Go(2, false), [Go(1, false)]);
    AfterThree(env, s, CallGet(1, ns, key), Go(1, false), Go(1, false),
               [CallSet(2, ns, key, now), Go(2, false), Go(2, false)] + [Go(1, false)]);
  }
}
