/** The deck expiry sweep of internal/deck/cleanup.go over a shared object store, the in-memory store
    of internal/deckstore/memory.go, and GetDeck of internal/deck/handler.go as the observer. */
module Sweep {
  import opened Options
  import opened Strings
  import TwoTier

  /** Times are integers; 0 is Go's zero time. */
  const ZERO_TIME: int := 0
  const CONCURRENCY := 10

  datatype Deck = Deck(id: string, expires: int)

  type Decoder = string -> Option<Deck>

  type Objects = map<string, string>

  predicate AllAlnum(s: string) { s == "" || (IsAlnum(s[0]) && AllAlnum(s[1..])) }

  /** deckIDRe: one to 32 letters or digits. */
  predicate IsDeckId(id: string) { 1 <= |id| <= 32 && AllAlnum(id) }

  /** The stored bytes are a deck under its own id whose expiry is set and has come. */
  predicate Expired(decode: Decoder, id: string, data: string, now: int) {
    match decode(data)
    case None => false
    case Some(d) => d.id == id && d.expires != ZERO_TIME && d.expires <= now
  }

  predicate IsTarget(decode: Decoder, store: Objects, now: int, id: string) {
    IsDeckId(id) && id in store && Expired(decode, id, store[id], now)
  }

  /** The listed objects a sweep is to remove. */
  function Targets(decode: Decoder, store: Objects, listed: set<string>, now: int): set<string> {
    set id | id in listed && IsTarget(decode, store, now, id)
  }

  // ---------------------------------------------------------------- the in-memory store

  class MemoryStore {
    var data: Objects

    constructor ()
      ensures data == map[]
    {
      data := map[];
    }

    method Put(id: string, bytes: string)
      modifies this
      ensures data == old(data)[id := bytes]
    {
      data := data[id := bytes];
    }

    method Get(id: string) returns (r: Option<string>)
      ensures r == if id in data then Some(data[id]) else None
    {
      if id !in data { return None; }
      r := Some(data[id]);
    }

    method Delete(id: string)
      modifies this
      ensures data == old(data) - {id}
    {
      data := data - {id};
    }

    method List() returns (ids: seq<string>)
      ensures forall id :: id in ids <==> id in data
      ensures forall i, j :: 0 <= i < j < |ids| ==> ids[i] != ids[j]
    {
      ids := [];
      var left := data.Keys;
      while left != {}
        invariant left <= data.Keys
        invariant forall id :: id in ids <==> id in data && id !in left
        invariant forall i, j :: 0 <= i < j < |ids| ==> ids[i] != ids[j]
        decreases left
      {
        var id :| id in left;
        ids := ids + [id];
        left := left - {id};
      }
    }

    /** One worker: fetch, check, delete. */
    method SweepOne(decode: Decoder, id: string, now: int) returns (deleted: nat)
      requires IsDeckId(id)
      modifies this
      ensures deleted == if IsTarget(decode, old(data), now, id) then 1 else 0
      ensures forall x :: x in data <==> x in old(data) && !(x == id && deleted == 1)
      ensures forall x :: x in data ==> data[x] == old(data)[x]
    {
      deleted := 0;
      var got := Get(id);
      if got.None? { return; }
      var deck := decode(got.value);
      if deck.None? { return; }
      if deck.value.id != id || deck.value.expires == ZERO_TIME { return; }
      if now < deck.value.expires { return; }
      Delete(id);
      deleted := 1;
    }

    /** CleanupExpired with its workers run one after the other. */
    method CleanupExpired(decode: Decoder, now: int) returns (deleted: nat)
      modifies this
      ensures forall id :: id in data <==> id in old(data) && !IsTarget(decode, old(data), now, id)
      ensures forall id :: id in data ==> data[id] == old(data)[id]
      ensures deleted == |Targets(decode, old(data), old(data).Keys, now)|
    {
      var ids := List();
      ghost var gone: set<string> := {};
      deleted := 0;
      var i := 0;
      ghost var done: set<string> := {};
      while i < |ids|
        invariant 0 <= i <= |ids| && deleted == |gone|
        invariant forall j :: 0 <= j < |ids| ==> (ids[j] in done <==> j < i)
        invariant forall id :: id in gone <==> id in done && IsTarget(decode, old(data), now, id)
        invariant forall id :: id in data <==> id in old(data) && id !in gone
        invariant forall id :: id in data ==> data[id] == old(data)[id]
      {
        var id := ids[i];
        if IsDeckId(id) {
          var n := SweepOne(decode, id, now);
          deleted := deleted + n;
          if n == 1 { gone := gone + {id}; }
        }
        done := done + {id};
        i := i + 1;
      }
      assert forall id :: id in old(data) ==> id in done;
      assert gone == Targets(decode, old(data), old(data).Keys, now);
    }
  }

  // ---------------------------------------------------------------- concurrent workers

  datatype Phase = Fetching | Deleting | Counting

  /** `todo` are the listed ids not looked at yet. Bookkeeping for the statements: `shadow` is the store as
      it would be without the sweep, `removed` what the sweep has deleted, `counted` what it has counted,
      `faulty` whether the store failed. */
  datatype State = State(store: Objects, todo: set<string>, active: map<string, Phase>, count: nat,
                         shadow: Objects, removed: set<string>, counted: set<string>, faulty: bool)

  /** One sweep: which ids it looks at, which stored bytes it deletes, and what List returned. List returns
      each id once, so the listing is a set; its order does not matter below. */
  datatype Job = Job(looksAt: string -> bool, expired: (string, string) -> bool, listed: set<string>)

  function DeckSweep(decode: Decoder, listed: set<string>, now: int): Job {
    Job(IsDeckId, (id, data) => Expired(decode, id, data, now), listed)
  }

  function Doomed(job: Job, store: Objects): set<string> {
    set id | id in job.listed && job.looksAt(id) && id in store && job.expired(id, store[id])
  }

  datatype Event =
    | Spawn(id: string)
    | Work(id: string, fails: bool, applied: bool)
    | OtherPut(id: string, data: string)

  /** Others may store anything except under the deck ids this sweep has listed. */
  predicate Enabled(job: Job, s: State, e: Event) {
    match e
    case Spawn(id) => id in s.todo && (job.looksAt(id) ==> |s.active| < CONCURRENCY)
    case Work(id, _, _) => id in s.active
    case OtherPut(id, _) => !(id in job.listed && job.looksAt(id))
  }

  function Start(job: Job, store: Objects): State { State(store, job.listed, map[], 0, store, {}, {}, false) }

  function AfterFetch(job: Job, s: State, id: string, fails: bool): State {
    if fails then s.(active := s.active - {id}, faulty := true)
    else if id in s.store && job.expired(id, s.store[id]) then s.(active := s.active[id := Deleting])
    else s.(active := s.active - {id})
  }

  /** A delete that reports failure may have taken effect all the same. */
  function AfterDelete(s: State, id: string, fails: bool, applied: bool): State {
    var t := if fails && !applied then s else s.(store := s.store - {id}, removed := s.removed + {id});
    if fails then t.(active := s.active - {id}, faulty := true) else t.(active := s.active[id := Counting])
  }

  function AfterCount(s: State, id: string): State {
    s.(active := s.active - {id}, count := s.count + 1, counted := s.counted + {id})
  }

  function Step(job: Job, s: State, e: Event): State {
    if !Enabled(job, s, e) then s else
    match e
    case Spawn(id) =>
      s.(todo := s.todo - {id}, active := if job.looksAt(id) then s.active[id := Fetching] else s.active)
    case Work(id, fails, applied) =>
      (match s.active[id]
       case Fetching => AfterFetch(job, s, id, fails)
       case Deleting => AfterDelete(s, id, fails, applied)
       case Counting => AfterCount(s, id))
    case OtherPut(id, data) => s.(store := s.store[id := data], shadow := s.shadow[id := data])
  }

  ghost predicate WorkerOk(job: Job, targets: set<string>, s: State, id: string)
    requires id in s.active
  {
    && job.looksAt(id) && id in job.listed && id !in s.todo && id !in s.counted
    && match s.active[id]
       case Fetching => id !in s.removed
       case Deleting => id !in s.removed && id in targets
       case Counting => id in s.removed
  }

  /** `targets` is what the sweep is to remove; without faults nothing of it is lost on the way. */
  ghost predicate Inv(job: Job, targets: set<string>, s: State) {
    && (forall id :: id in s.active ==> WorkerOk(job, targets, s, id))
    && (forall id :: id in s.todo ==> id in job.listed && id !in s.removed)
    && (forall id :: id in s.removed ==> id in targets)
    && (forall id :: id in s.counted ==> id in s.removed)
    && (forall id :: id in s.store <==> id in s.shadow && id !in s.removed)
    && (forall id :: id in s.store ==> s.store[id] == s.shadow[id])
    && targets == Doomed(job, s.shadow)
    && s.count == |s.counted|
    && (!s.faulty ==> forall id :: id in targets ==> id in s.todo || id in s.active || id in s.removed)
    && (!s.faulty ==> forall id :: id in s.removed ==> id in s.counted || id in s.active)
  }

  lemma SpawnKeepsInv(job: Job, targets: set<string>, s: State, id: string)
    requires Inv(job, targets, s) && Enabled(job, s, Spawn(id))
    ensures Inv(job, targets, Step(job, s, Spawn(id)))
  {
    var t := Step(job, s, Spawn(id));
    assert id in targets ==> job.looksAt(id);
    assert id in s.active ==> WorkerOk(job, targets, s, id);
    forall x | x in t.active ensures WorkerOk(job, targets, t, x) {
      if x != id { assert WorkerOk(job, targets, s, x); }
    }
  }

  lemma OtherPutKeepsInv(job: Job, targets: set<string>, s: State, id: string, data: string)
    requires Inv(job, targets, s) && Enabled(job, s, OtherPut(id, data))
    ensures Inv(job, targets, Step(job, s, OtherPut(id, data)))
  {
    var t := Step(job, s, OtherPut(id, data));
    assert id !in targets;
    assert Doomed(job, t.shadow) == targets;
    forall x | x in t.active ensures WorkerOk(job, targets, t, x) { assert WorkerOk(job, targets, s, x); }
  }

  lemma FetchKeepsInv(job: Job, targets: set<string>, s: State, id: string, fails: bool)
    requires Inv(job, targets, s) && id in s.active && s.active[id] == Fetching
    ensures Inv(job, targets, AfterFetch(job, s, id, fails))
  {
    var t := AfterFetch(job, s, id, fails);
    assert WorkerOk(job, targets, s, id);
    assert id in targets <==> id in s.store && job.expired(id, s.store[id]);
    forall x | x in t.active ensures WorkerOk(job, targets, t, x) { assert WorkerOk(job, targets, s, x); }
  }

  lemma DeleteKeepsInv(job: Job, targets: set<string>, s: State, id: string, fails: bool, applied: bool)
    requires Inv(job, targets, s) && id in s.active && s.active[id] == Deleting
    ensures Inv(job, targets, AfterDelete(s, id, fails, applied))
  {
    var t := AfterDelete(s, id, fails, applied);
    assert WorkerOk(job, targets, s, id);
    forall x | x in t.active ensures WorkerOk(job, targets, t, x) { assert WorkerOk(job, targets, s, x); }
  }

  lemma CountKeepsInv(job: Job, targets: set<string>, s: State, id: string)
    requires Inv(job, targets, s) && id in s.active && s.active[id] == Counting
    ensures Inv(job, targets, AfterCount(s, id))
  {
    var t := AfterCount(s, id);
    assert WorkerOk(job, targets, s, id);
    forall x | x in t.active ensures WorkerOk(job, targets, t, x) { assert WorkerOk(job, targets, s, x); }
  }

  lemma StepKeepsInv(job: Job, targets: set<string>, s: State, e: Event)
    requires Inv(job, targets, s) && Enabled(job, s, e)
    ensures Inv(job, targets, Step(job, s, e))
  {
    match e
    case Spawn(id) => SpawnKeepsInv(job, targets, s, id);
    case OtherPut(id, data) => OtherPutKeepsInv(job, targets, s, id, data);
    case Work(id, fails, applied) =>
      match s.active[id]
      case Fetching => FetchKeepsInv(job, targets, s, id, fails);
      case Deleting => DeleteKeepsInv(job, targets, s, id, fails, applied);
      case Counting => CountKeepsInv(job, targets, s, id);
  }

  lemma SubsetSize<T>(a: set<T>, b: set<T>)
    requires a <= b
    ensures |a| <= |b|
  {
    assert b == a + (b - a);
  }

  lemma RemoveOne(active: map<string, Phase>, id: string)
    ensures |active - {id}| <= |active|
  {
    SubsetSize((active - {id}).Keys, active.Keys);
  }

  lemma UpdateOne(active: map<string, Phase>, id: string, p: Phase)
    ensures |active[id := p]| == if id in active then |active| else |active| + 1
  {
    assert active[id := p].Keys == active.Keys + {id};
  }

  /** The semaphore: never more than ten workers. */
  lemma StepKeepsBound(job: Job, s: State, e: Event)
    requires |s.active| <= CONCURRENCY && Enabled(job, s, e)
    ensures |Step(job, s, e).active| <= CONCURRENCY
  {
    if !e.OtherPut? {
      RemoveOne(s.active, e.id);
      UpdateOne(s.active, e.id, Fetching);
      UpdateOne(s.active, e.id, Deleting);
      UpdateOne(s.active, e.id, Counting);
    }
  }

  // ---------------------------------------------------------------- whole sweeps

  ghost predicate Legal(job: Job, s: State, es: seq<Event>)
    decreases |es|
  {
    es == [] || (Enabled(job, s, es[0]) && Legal(job, Step(job, s, es[0]), es[1..]))
  }

  function After(job: Job, s: State, es: seq<Event>): State
    decreases |es|
  {
    if es == [] then s else After(job, Step(job, s, es[0]), es[1..])
  }

  lemma {:induction false} RunKeepsInv(job: Job, targets: set<string>, s: State, es: seq<Event>)
    requires Inv(job, targets, s) && |s.active| <= CONCURRENCY && Legal(job, s, es)
    ensures Inv(job, targets, After(job, s, es)) && |After(job, s, es).active| <= CONCURRENCY
    decreases |es|
  {
    if es != [] {
      StepKeepsInv(job, targets, s, es[0]);
      StepKeepsBound(job, s, es[0]);
      RunKeepsInv(job, targets, Step(job, s, es[0]), es[1..]);
    }
  }

  lemma DoomedAreTargets(decode: Decoder, store: Objects, listed: set<string>, now: int)
    ensures Doomed(DeckSweep(decode, listed, now), store) == Targets(decode, store, listed, now)
  {
  }

  lemma InvMeans(job: Job, targets: set<string>, s: State)
    requires Inv(job, targets, s)
    ensures s.store == s.shadow - s.removed && s.removed <= targets && s.count <= |s.removed|
    ensures targets == Doomed(job, s.shadow)
  {
    SubsetSize(s.counted, s.removed);
  }

  lemma DoneMeans(job: Job, targets: set<string>, s: State)
    requires Inv(job, targets, s) && s.todo == {} && s.active == map[] && !s.faulty
    ensures s.removed == targets && s.count == |targets|
  {
    assert forall id :: id in s.removed <==> id in targets;
    assert forall id :: id in s.removed <==> id in s.counted;
    assert s.removed == targets && s.counted == s.removed;
  }

  ghost predicate Reachable(decode: Decoder, listed: set<string>, now: int, store: Objects, es: seq<Event>, s: State) {
    var job := DeckSweep(decode, listed, now);
    Legal(job, Start(job, store), es) && s == After(job, Start(job, store), es)
  }

  /** At every moment of every interleaving, failing store operations included, the store is what it
      would be without the sweep minus some of the listed expired decks, at most ten workers run, and no
      more deletions are reported than happened. */
  lemma SweepIsSafe(decode: Decoder, listed: set<string>, now: int, store: Objects, es: seq<Event>, s: State)
    requires Reachable(decode, listed, now, store, es, s)
    ensures s.store == s.shadow - s.removed && s.removed <= Targets(decode, store, listed, now)
    ensures Targets(decode, store, listed, now) == Targets(decode, s.shadow, listed, now)
    ensures |s.active| <= CONCURRENCY && s.count <= |s.removed|
  {
    var job := DeckSweep(decode, listed, now);
    RunKeepsInv(job, Doomed(job, store), Start(job, store), es);
    DoomedAreTargets(decode, store, listed, now);
    DoomedAreTargets(decode, s.shadow, listed, now);
    InvMeans(job, Doomed(job, store), s);
  }

  /** No call of the store fails. */
  ghost predicate Faultless(es: seq<Event>) { forall i :: 0 <= i < |es| && es[i].Work? ==> !es[i].fails }

  lemma {:induction false} FaultlessRun(job: Job, s: State, es: seq<Event>)
    requires Faultless(es)
    ensures After(job, s, es).faulty == s.faulty
    decreases |es|
  {
    if es != [] {
      assert es[0].Work? ==> !es[0].fails;
      assert Step(job, s, es[0]).faulty == s.faulty;
      FaultlessRun(job, Step(job, s, es[0]), es[1..]);
    }
  }

  /** A finished sweep without store errors has removed exactly the listed expired decks and says so. */
  lemma SweepIsComplete(decode: Decoder, listed: set<string>, now: int, store: Objects, es: seq<Event>, s: State)
    requires Reachable(decode, listed, now, store, es, s) && Faultless(es) && s.todo == {} && s.active == map[]
    ensures s.removed == Targets(decode, store, listed, now) && s.count == |s.removed|
    ensures s.store == s.shadow - s.removed
  {
    var job := DeckSweep(decode, listed, now);
    RunKeepsInv(job, Doomed(job, store), Start(job, store), es);
    FaultlessRun(job, Start(job, store), es);
    DoomedAreTargets(decode, store, listed, now);
    InvMeans(job, Doomed(job, store), s);
    DoneMeans(job, Doomed(job, store), s);
  }

  /** From `s` the sweep can be finished without store errors. */
  ghost predicate CanFinish(job: Job, s: State) {
    exists es :: Legal(job, s, es) && Faultless(es) && After(job, s, es).todo == {} && After(job, s, es).active == map[]
  }

  lemma CanGoOn(job: Job, s: State, e: Event)
    requires Enabled(job, s, e) && (e.Work? ==> !e.fails) && CanFinish(job, Step(job, s, e))
    ensures CanFinish(job, s)
  {
    var t := Step(job, s, e);
    var es :| Legal(job, t, es) && Faultless(es) && After(job, t, es).todo == {} && After(job, t, es).active == map[];
    assert ([e] + es)[1..] == es;
    assert Legal(job, s, [e] + es) && Faultless([e] + es) && After(job, s, [e] + es) == After(job, t, es);
  }

  function StepsLeft(p: Phase): nat { match p case Fetching => 3 case Deleting => 2 case Counting => 1 }

  /** A worker under way can always be brought to its end. */
  lemma {:induction false} WorkerCanFinish(job: Job, s: State, id: string)
    requires id in s.active && forall t: State :: t.todo == s.todo && t.active == s.active - {id} ==> CanFinish(job, t)
    ensures CanFinish(job, s)
    decreases StepsLeft(s.active[id])
  {
    var t := Step(job, s, Work(id, false, true));
    if id in t.active {
      assert t.active - {id} == s.active - {id};
      WorkerCanFinish(job, t, id);
    }
    CanGoOn(job, s, Work(id, false, true));
  }

  /** However far a sweep has come, and whatever has failed before, it can be finished: neither the semaphore nor any
      worker stands in the way. */
  lemma {:induction false} SweepCanFinish(job: Job, s: State)
    ensures CanFinish(job, s)
    decreases |s.todo|, |s.active|
  {
    if s.active != map[] {
      var id :| id in s.active;
      assert (s.active - {id}).Keys == s.active.Keys - {id};
      assert |s.active - {id}| < |s.active|;
      forall t: State | t.todo == s.todo && t.active == s.active - {id} ensures CanFinish(job, t) { SweepCanFinish(job, t); }
      WorkerCanFinish(job, s, id);
    } else if s.todo != {} {
      var id :| id in s.todo;
      SweepCanFinish(job, Step(job, s, Spawn(id)));
      CanGoOn(job, s, Spawn(id));
    } else {
      assert Legal(job, s, []) && Faultless([]);
    }
  }

  /** The resolve cache's keys in the shared bucket are never deck ids, today's nor the legacy flat ones. */
  lemma CacheKeysAreForeign<V>(env: TwoTier.Env<V>, ns: string, key: string)
    requires TwoTier.FixedLength(env)
    ensures !IsDeckId(TwoTier.CacheKey(env, ns, key)) && !IsDeckId(ns + "-" + env.hash(key))
  {
  }

  lemma CacheSurvives<V>(decode: Decoder, listed: set<string>, now: int, store: Objects, es: seq<Event>, s: State,
                         env: TwoTier.Env<V>, ns: string, key: string)
    requires Reachable(decode, listed, now, store, es, s) && TwoTier.FixedLength(env)
    ensures var sk := TwoTier.CacheKey(env, ns, key);
      (sk in s.store <==> sk in s.shadow) && (sk in s.store ==> s.store[sk] == s.shadow[sk])
  {
    SweepIsSafe(decode, listed, now, store, es, s);
    CacheKeysAreForeign(env, ns, key);
  }

  // ---------------------------------------------------------------- the observer

  datatype Response = BadRequest | NotFound | Corrupted | Gone | Served(deck: Deck)

  /** GetDeck at time `t`, for a store that answers. */
  function GetDeck(decode: Decoder, store: Objects, id: string, t: int): Response {
    if !IsDeckId(id) then BadRequest
    else if id !in store then NotFound
    else match decode(store[id])
      case None => Corrupted
      case Some(d) => if t > d.expires then Gone else Served(d)
  }

  /** Ids are one to 32 ASCII letters or digits. */
  lemma {:induction false} DeckIdExact(id: string)
    ensures IsDeckId(id) <==>
      1 <= |id| <= 32 && forall c :: c in id ==> '0' <= c <= '9' || 'A' <= c <= 'Z' || 'a' <= c <= 'z'
  {
    AlnumExact(id);
  }

  lemma {:induction false} AlnumExact(s: string)
    ensures AllAlnum(s) <==> forall c :: c in s ==> '0' <= c <= '9' || 'A' <= c <= 'Z' || 'a' <= c <= 'z'
  {
    if s != "" {
      AlnumExact(s[1..]);
      assert s[0] in s && forall c :: c in s[1..] ==> c in s;
      assert forall c :: c in s ==> c == s[0] || c in s[1..];
    }
  }

  /** Which listed objects are removed: those stored under an id that could be a deck's and holding a deck of that very
      id with an expiry, for which GetDeck answers "gone" at the sweep's time, or would right after it. */
  lemma TargetsAreGone(decode: Decoder, store: Objects, listed: set<string>, now: int, id: string)
    ensures id in Targets(decode, store, listed, now) <==>
      && id in listed && id in store && decode(store[id]).Some?
      && decode(store[id]).value.id == id && decode(store[id]).value.expires != ZERO_TIME
      && GetDeck(decode, store, id, now + 1) == Gone
    ensures IsDeckId(id) && id in store && decode(store[id]).Some? ==>
      GetDeck(decode, store, id, now) == if now <= decode(store[id]).value.expires then Served(decode(store[id]).value) else Gone
  {
  }

  /** What a reader can tell from `now` on: a swept deck answers 404 instead of 410, and only at the very
      instant of its expiry would it still have been served; nothing else changes. */
  lemma SweepObservedOnlyAsNotFound(decode: Decoder, listed: set<string>, now: int, store: Objects, es: seq<Event>,
                                    s: State, id: string, t: int)
    requires Reachable(decode, listed, now, store, es, s) && t >= now
    ensures var swept, unswept := GetDeck(decode, s.store, id, t), GetDeck(decode, s.shadow, id, t);
      if id !in s.removed then swept == unswept
      else swept == NotFound && (unswept == Gone || (t == now && unswept == Served(Deck(id, now))))
  {
    SweepIsSafe(decode, listed, now, store, es, s);
    OneReader(decode, s.store, s.shadow, id, id in s.removed, now, t);
  }

  lemma OneReader(decode: Decoder, store: Objects, shadow: Objects, id: string, removed: bool, now: int, t: int)
    requires t >= now && (id in store <==> id in shadow && !removed) && (id in store ==> store[id] == shadow[id])
    requires removed ==> IsTarget(decode, shadow, now, id)
    ensures var swept, unswept := GetDeck(decode, store, id, t), GetDeck(decode, shadow, id, t);
      if !removed then swept == unswept
      else swept == NotFound && (unswept == Gone || (t == now && unswept == Served(Deck(id, now))))
  {
  }

  /** The boundary is real: a deck expiring at `now` is deleted by the sweep while it is still served. */
  lemma DeckServedAtItsLastInstant(decode: Decoder, store: Objects, id: string, now: int)
    requires IsDeckId(id) && id in store && now != ZERO_TIME && decode(store[id]) == Some(Deck(id, now))
    ensures GetDeck(decode, store, id, now) == Served(Deck(id, now)) && id in Targets(decode, store, {id}, now)
  {
  }
}
