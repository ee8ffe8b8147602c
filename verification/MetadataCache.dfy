/** The in-process cache of internal/metadata/metadata.go and the two entry points that use it: which object is
    handed out, what is stored under which key, and where every stored result comes from. */
module MetadataCache {
  import opened Metadata
  import opened MetadataText

  class Track {
    var value: Answer

    constructor (value: Answer)
      ensures this.value == value
    {
      this.value := value;
    }
  }

  datatype Entry = Entry(t: Track, expires: int)

  predicate Fresh(m: map<string, Entry>, key: string, now: int) { key in m && now <= m[key].expires }

  class MemoryCache {
    const ttl: int
    var m: map<string, Entry>

    constructor (ttl: int)
      ensures this.ttl == ttl && m == map[]
    {
      this.ttl := ttl;
      m := map[];
    }

    /** Returns the stored pointer; an expired entry is deleted. */
    method Get(key: string, now: int) returns (t: Track?)
      modifies this
      ensures m == if Fresh(old(m), key, now) then old(m) else old(m) - {key}
      ensures if Fresh(old(m), key, now) then t == m[key].t else t == null
      ensures t != null <==> key in old(m) && now <= old(m)[key].expires
    {
      if key !in m { return null; }
      var e := m[key];
      if now > e.expires {
        m := m - {key};
        return null;
      }
      t := e.t;
    }

    method Set(key: string, t: Track, ttl: int, now: int)
      modifies this
      ensures m == old(m)[key := Entry(t, now + if ttl <= 0 then this.ttl else ttl)]
    {
      var lifetime := ttl;
      if lifetime <= 0 { lifetime := this.ttl; }
      m := m[key := Entry(t, now + lifetime)];
    }
  }

  // ---------------------------------------------------------------- where a result comes from

  datatype Search = Search(artist: string, title: string)

  function KeyOf(tx: Text, s: Search): string { Key(tx, s.artist, s.title) }

  /** One provider round: what arrives, how much of it before the context ends, and when. */
  datatype Round = Round(arrivals: seq<Answer>, limit: nat, now: int)

  function Answers(r: Round): seq<Answer> { Collected(r.arrivals, r.limit) }

  /** How many answers come before the context ends. */
  function InTime(r: Round): nat { if |r.arrivals| < r.limit then |r.arrivals| else r.limit }

  /** Three answers in time are three answers collected: the first ones. */
  lemma ThreeInTime(r: Round)
    ensures InTime(r) >= 3 ==> Answers(r) == r.arrivals[..3] && |Answers(r)| >= QUORUM
    ensures InTime(r) < 3 ==> Answers(r) == r.arrivals[..InTime(r)] && |Answers(r)| < QUORUM
  {
  }

  /** A round that was made: what was searched for and what was collected. */
  datatype Made = Made(search: Search, results: seq<Answer>)

  /** An entry's provenance: the round it was voted in, and the searches through which it got its key. */
  datatype Origin = Origin(round: nat, path: seq<Search>)

  /** Each search of the path but the first got its result under its bare title, from the key of the search
      before it; the last one has `key`. */
  ghost predicate LeadsTo(tx: Text, path: seq<Search>, key: string) {
    && path != [] && KeyOf(tx, path[|path| - 1]) == key
    && forall i :: 0 < i < |path| ==> Key(tx, path[i].artist, tx.bare(path[i].title)) == KeyOf(tx, path[i - 1])
  }

  /** The searches behind the first one were made too, and found nothing. */
  ghost predicate CameUpEmpty(rounds: seq<Made>, path: seq<Search>) {
    forall i :: 0 < i < |path| ==> Made(path[i], []) in rounds
  }

  /** `value` is the vote of a round that was made, over a quorum of what it collected, for a search that leads
      to `key`. */
  ghost predicate Backed(tx: Text, vote: (string, string, seq<Answer>) -> Answer, rounds: seq<Made>, o: Origin,
                         key: string, value: Answer) {
    && o.round < |rounds| && |rounds[o.round].results| >= QUORUM
    && LeadsTo(tx, o.path, key) && o.path[0] == rounds[o.round].search && CameUpEmpty(rounds, o.path)
    && value == vote(rounds[o.round].search.artist, rounds[o.round].search.title, rounds[o.round].results)
  }

  lemma LeadsFurther(tx: Text, path: seq<Search>, s: Search)
    requires LeadsTo(tx, path, Key(tx, s.artist, tx.bare(s.title)))
    ensures LeadsTo(tx, path + [s], KeyOf(tx, s))
  {
  }

  lemma BackedStays(tx: Text, vote: (string, string, seq<Answer>) -> Answer, rounds: seq<Made>, made: Made, o: Origin,
                    key: string, value: Answer)
    requires Backed(tx, vote, rounds, o, key, value)
    ensures Backed(tx, vote, rounds + [made], o, key, value)
  {
  }

  /** Without bars in the artists a result only ever moves between searches for the same artist. */
  lemma {:induction false} PathKeepsArtist(tx: Text, path: seq<Search>, key: string, i: nat)
    requires LeadsTo(tx, path, key) && i < |path|
    requires forall j :: 0 <= j < |path| ==> '|' !in tx.norm(path[j].artist)
    ensures tx.norm(path[i].artist) == tx.norm(path[0].artist)
  {
    if i > 0 {
      PathKeepsArtist(tx, path, key, i - 1);
      KeyExact(tx, path[i].artist, tx.bare(path[i].title), path[i - 1].artist, path[i - 1].title);
    }
  }

  // ---------------------------------------------------------------- resolving

  class Resolver {
    const tx: Text
    const cache: MemoryCache
    /** How long an entry lives; never zero or less in the program. */
    const cacheTtl: int
    /** The aggregation, as a function. */
    const vote: (string, string, seq<Answer>) -> Answer
    /** Backed, as a function. */
    ghost const backed: (seq<Made>, Origin, string, Answer) -> bool
    /** Every round made so far, and where each entry of the cache comes from. */
    ghost var rounds: seq<Made>
    ghost var origins: map<string, Origin>

    ghost predicate IsElection() {
      forall a, t, rs {:trigger Elect(tx, a, t, rs)} :: vote(a, t, rs) == Elect(tx, a, t, rs)
    }

    ghost predicate IsBacking() {
      forall rs, o, k, v {:trigger Backed(tx, vote, rs, o, k, v)} :: backed(rs, o, k, v) == Backed(tx, vote, rs, o, k, v)
    }

    ghost predicate Valid()
      reads this, cache, set key | key in cache.m :: cache.m[key].t
    {
      && IsElection() && IsBacking() && cacheTtl > 0
      && forall key :: key in cache.m ==> key in origins && backed(rounds, origins[key], key, cache.m[key].t.value)
    }

    ghost predicate Cached(t: Track)
      reads cache
    {
      exists key :: key in cache.m && cache.m[key].t == t
    }

    constructor (tx: Text, cache: MemoryCache, cacheTtl: int)
      requires cache.m == map[] && cacheTtl > 0
      ensures this.tx == tx && this.cache == cache && this.cacheTtl == cacheTtl && Valid() && rounds == []
    {
      this.tx, this.cache, this.cacheTtl := tx, cache, cacheTtl;
      var elect := (artist: string, title: string, rs: seq<Answer>) => Elect(tx, artist, title, rs);
      vote := elect;
      backed := (rs: seq<Made>, o: Origin, k: string, v: Answer) => Backed(tx, elect, rs, o, k, v);
      rounds, origins := [], map[];
    }

    /** Aggregate, known to the rest of the class by its outcome only. */
    method Aggregated(artist: string, title: string, results: seq<Answer>) returns (out: Answer)
      requires IsElection()
      ensures out == vote(artist, title, results)
    {
      out := Aggregate(tx, artist, title, results);
      assert vote(artist, title, results) == Elect(tx, artist, title, results);
    }

    /** Stores an object whose value has this origin. */
    method Store(key: string, out: Track, ghost origin: Origin, now: int)
      requires Valid() && backed(rounds, origin, key, out.value)
      modifies this`origins, cache
      ensures Valid() && cache.m == old(cache.m)[key := Entry(out, now + cacheTtl)]
      ensures origins == old(origins)[key := origin]
    {
      cache.Set(key, out, cacheTtl, now);
      origins := origins[key := origin];
    }

    method Lookup(key: string, now: int) returns (v: Track?)
      requires Valid()
      modifies cache
      ensures Valid()
      ensures if Fresh(old(cache.m), key, now) then v == old(cache.m)[key].t && cache.m == old(cache.m)
              else v == null && cache.m == old(cache.m) - {key}
    {
      v := cache.Get(key, now);
    }

    /** The vote over what a round collected: cached when it is over a quorum, handed out as a copy. */
    method Conclude(artist: string, title: string, results: seq<Answer>, now: int) returns (t: Track)
      requires Valid() && Key(tx, artist, title) !in cache.m
      requires |rounds| > 0 && rounds[|rounds| - 1] == Made(Search(artist, title), results)
      modifies this`origins, cache
      ensures Valid() && fresh(t) && !Cached(t) && t.value == vote(artist, title, results)
      ensures var key := Key(tx, artist, title);
        if |results| < QUORUM then cache.m == old(cache.m)
        else key in cache.m && cache.m == old(cache.m)[key := cache.m[key]]
             && cache.m[key].expires == now + cacheTtl && cache.m[key].t.value == t.value
    {
      var key := Key(tx, artist, title);
      var voted := Aggregated(artist, title, results);
      var out := new Track(voted);
      if |results| >= QUORUM {
        ghost var path := [Search(artist, title)];
        assert LeadsTo(tx, path, key);
        assert Backed(tx, vote, rounds, Origin(|rounds| - 1, path), key, out.value);
        Store(key, out, Origin(|rounds| - 1, path), now);
      }
      t := new Track(out.value);
    }

    /** A round has been made. */
    ghost method Record(made: Made)
      requires Valid()
      modifies this`rounds
      ensures Valid() && rounds == old(rounds) + [made]
    {
      rounds := rounds + [made];
      forall key | key in cache.m ensures backed(rounds, origins[key], key, cache.m[key].t.value) {
        assert Backed(tx, vote, old(rounds), origins[key], key, cache.m[key].t.value);
        BackedStays(tx, vote, old(rounds), made, origins[key], key, cache.m[key].t.value);
      }
    }

    /** What a round leaves in the cache `m` it found no answer in. */
    predicate RoundStores(m: map<string, Entry>, key: string, results: seq<Answer>, now: int, after: map<string, Entry>) {
      if |results| < QUORUM then after == m - {key}
      else key in after && after == m[key := after[key]] && after[key].expires == now + cacheTtl
    }

    /** One round for exactly this artist and title, unless the cache answers. */
    method ResolveOnce(artist: string, title: string, round: Round) returns (t: Track?)
      requires Valid()
      modifies this`rounds, this`origins, cache
      ensures Valid() && (t != null ==> fresh(t) && !Cached(t))
      ensures var key := Key(tx, artist, title); var m := old(cache.m);
        if Fresh(m, key, round.now) then
          rounds == old(rounds) && cache.m == m && t != null && t.value == old(cache.m[key].t.value)
        else
          && rounds == old(rounds) + [Made(Search(artist, title), Answers(round))]
          && (t == null <==> Answers(round) == []) && (t != null ==> t.value == vote(artist, title, Answers(round)))
          && RoundStores(m, key, Answers(round), round.now, cache.m)
          && (key in cache.m ==> t != null && cache.m[key].t.value == t.value)
    {
      var key := Key(tx, artist, title);
      var v := Lookup(key, round.now);
      if v != null {
        t := new Track(v.value);
        return;
      }
      ghost var without := cache.m;
      var results := Collect(round.arrivals, round.limit);
      Record(Made(Search(artist, title), results));
      if |results| == 0 { return null; }
      t := Conclude(artist, title, results, round.now);
      assert |results| >= QUORUM ==> cache.m == without[key := cache.m[key]] == old(cache.m)[key := cache.m[key]];
    }

    /** Points the full title's key at `t`, whose value the bare title's key has, when that is still cached. */
    method Alias(artist: string, title: string, t: Track, now: int)
      requires Valid() && !Cached(t) && Made(Search(artist, title), []) in rounds
      requires var bareKey := Key(tx, artist, tx.bare(title)); bareKey in cache.m ==> cache.m[bareKey].t.value == t.value
      modifies this`origins, cache
      ensures var key, bareKey := Key(tx, artist, title), Key(tx, artist, tx.bare(title));
        if Fresh(old(cache.m), bareKey, now) then cache.m == old(cache.m)[key := Entry(t, now + cacheTtl)]
        else cache.m == old(cache.m) - {bareKey}
      ensures Valid() && (Cached(t) <==> Fresh(old(cache.m), Key(tx, artist, tx.bare(title)), now))
    {
      var key, bareKey := Key(tx, artist, title), Key(tx, artist, tx.bare(title));
      var stored := Lookup(bareKey, now);
      if stored != null {
        ghost var o := origins[bareKey];
        assert Backed(tx, vote, rounds, o, bareKey, t.value);
        LeadsFurther(tx, o.path, Search(artist, title));
        assert (o.path + [Search(artist, title)])[0] == o.path[0];
        assert Backed(tx, vote, rounds, Origin(o.round, o.path + [Search(artist, title)]), key, t.value);
        Store(key, t, Origin(o.round, o.path + [Search(artist, title)]), now);
        assert cache.m[key].t == t;
      }
    }

    /** The caller's context is alive after a first round without result, and there is a bare title to try. */
    predicate Retries(artist: string, title: string, first: Round, alive: bool, m: map<string, Entry>) {
      && !Fresh(m, Key(tx, artist, title), first.now) && Answers(first) == []
      && alive && tx.bare(title) != "" && tx.bare(title) != title
    }

    /** The bare title is still cached when the retry looks it up. */
    predicate BareHit(artist: string, title: string, second: Round, m: map<string, Entry>) {
      var key, bareKey := Key(tx, artist, title), Key(tx, artist, tx.bare(title));
      bareKey != key && Fresh(m, bareKey, second.now)
    }

    /** Whether Resolve will store an alias, told from the cache before the call and the rounds. */
    predicate WillAlias(artist: string, title: string, first: Round, alive: bool, second: Round, later: int,
                        m: map<string, Entry>) {
      && Retries(artist, title, first, alive, m)
      && if BareHit(artist, title, second, m) then later <= m[Key(tx, artist, tx.bare(title))].expires
         else |Answers(second)| >= QUORUM && later <= second.now + cacheTtl
    }

    /** The second round of Resolve and its alias, for a title the cache does not hold. */
    method Retry(artist: string, title: string, second: Round, later: int) returns (t: Track?)
      requires Valid() && Key(tx, artist, title) !in cache.m && Made(Search(artist, title), []) in rounds
      modifies this`rounds, this`origins, cache
      ensures Valid() && old(rounds) <= rounds && (t != null ==> fresh(t))
      ensures var bareKey := Key(tx, artist, tx.bare(title)); var m := old(cache.m);
        if Fresh(m, bareKey, second.now) then t != null && t.value == old(cache.m[bareKey].t.value)
        else (t != null <==> Answers(second) != [])
             && (t != null ==> t.value == vote(artist, tx.bare(title), Answers(second)))
      ensures t != null ==> (Cached(t) <==> BareLasts(artist, title, second, later, old(cache.m)))
      ensures BareLasts(artist, title, second, later, old(cache.m)) ==> t != null && HoldsAlias(artist, title, t, later)
      ensures SameElsewhere(artist, title, old(cache.m), cache.m)
    {
      t := ResolveOnce(artist, tx.bare(title), second);
      if t == null { return; }
      Alias(artist, title, t, later);
    }

    /** The bare title's entry, found or made by the second round, is still there when the alias is looked up. */
    predicate BareLasts(artist: string, title: string, second: Round, later: int, m: map<string, Entry>) {
      var bareKey := Key(tx, artist, tx.bare(title));
      if Fresh(m, bareKey, second.now) then later <= m[bareKey].expires
      else |Answers(second)| >= QUORUM && later <= second.now + cacheTtl
    }

    predicate HoldsAlias(artist: string, title: string, t: Track, later: int)
      reads cache
    {
      var key := Key(tx, artist, title);
      key in cache.m && cache.m[key] == Entry(t, later + cacheTtl)
    }

    /** Only the entries of the two keys a call uses may differ. */
    ghost predicate SameElsewhere(artist: string, title: string, m: map<string, Entry>, after: map<string, Entry>) {
      forall k :: k != Key(tx, artist, title) && k != Key(tx, artist, tx.bare(title)) ==>
        (k in after <==> k in m) && (k in after ==> after[k] == m[k])
    }

    /** Resolve with its retry under the bare title, `later` being when the alias is looked up. The object it
        hands out is one the cache holds, and will hand out again, exactly when it stores the alias. */
    method Resolve(artist: string, title: string, first: Round, alive: bool, second: Round, later: int)
        returns (t: Track?)
      requires Valid()
      modifies this`rounds, this`origins, cache
      ensures Valid() && old(rounds) <= rounds && (t != null ==> fresh(t))
      ensures t != null ==> (Cached(t) <==> WillAlias(artist, title, first, alive, second, later, old(cache.m)))
      ensures WillAlias(artist, title, first, alive, second, later, old(cache.m)) ==>
        t != null && HoldsAlias(artist, title, t, later)
      ensures var m := old(cache.m); var key, bareKey := Key(tx, artist, title), Key(tx, artist, tx.bare(title));
        if Fresh(m, key, first.now) then t != null && t.value == old(cache.m[key].t.value)
        else if Answers(first) != [] then t != null && t.value == vote(artist, title, Answers(first))
        else if !Retries(artist, title, first, alive, m) then t == null
        else if BareHit(artist, title, second, m) then t != null && t.value == old(cache.m[bareKey].t.value)
        else if Answers(second) != [] then t != null && t.value == vote(artist, tx.bare(title), Answers(second))
        else t == null
      ensures SameElsewhere(artist, title, old(cache.m), cache.m)
      ensures InTime(first) > 0 && !Fresh(old(cache.m), Key(tx, artist, title), first.now) ==>
        var key := Key(tx, artist, title);
        if InTime(first) < 3 then t != null && t.value == vote(artist, title, first.arrivals[..InTime(first)]) && key !in cache.m
        else t != null && t.value == vote(artist, title, first.arrivals[..3])
             && key in cache.m && cache.m[key].expires == first.now + cacheTtl && cache.m[key].t.value == t.value
      ensures var m := old(cache.m);
        Retries(artist, title, first, alive, m) && !BareHit(artist, title, second, m) && InTime(second) >= 3 ==>
          t != null && t.value == vote(artist, tx.bare(title), second.arrivals[..3])
    {
      t := ResolveOnce(artist, title, first);
      if t != null || !alive { return; }
      var bare := tx.bare(title);
      if bare == "" || bare == title { return; }
      assert cache.m == old(cache.m) - {Key(tx, artist, title)};
      assert rounds[|rounds| - 1] == Made(Search(artist, title), []);
      t := Retry(artist, title, second, later);
    }

    /** A caller editing a result that is not a cached object leaves the cache sound. */
    method CallerEdits(t: Track, value: Answer)
      requires Valid() && !Cached(t)
      modifies t
      ensures Valid() && t.value == value
    {
      t.value := value;
    }
  }

  /** `value` is the majority vote over a quorum of what round `i` collected, for the search a path starts from. */
  ghost predicate VotedIn(tx: Text, rounds: seq<Made>, i: nat, path: seq<Search>, value: Answer) {
    && i < |rounds| && path != [] && path[0] == rounds[i].search && |rounds[i].results| >= QUORUM
    && CameUpEmpty(rounds, path)
    && IsVote(tx, path[0].artist, path[0].title, rounds[i].results, value)
  }

  /** Every entry, the aliases included, is the majority vote of a round that was made, over at least a quorum
      of the answers it collected, for the entry's own search, or for the bare title of searches that found
      nothing and led to it. */
  lemma EntriesAreVotes(r: Resolver, key: string)
    requires r.Valid() && key in r.cache.m
    ensures exists i, path :: VotedIn(r.tx, r.rounds, i, path, r.cache.m[key].t.value) && LeadsTo(r.tx, path, key)
  {
    var o := r.origins[key];
    assert Backed(r.tx, r.vote, r.rounds, o, key, r.cache.m[key].t.value);
    var made := r.rounds[o.round];
    ElectIsVote(r.tx, made.search.artist, made.search.title, made.results);
    assert r.vote(made.search.artist, made.search.title, made.results)
        == Elect(r.tx, made.search.artist, made.search.title, made.results);
    assert VotedIn(r.tx, r.rounds, o.round, o.path, r.cache.m[key].t.value);
  }
}
