/** The paced deck warmer of internal/cachewarm/cachewarm.go: per-deck cooldowns and a bounded queue,
    shared by any number of callers and one worker. Times are integer nanoseconds. */
module CacheWarm {
  import Runs

  const DROP_RETRY_AFTER := 600_000_000_000

  datatype Settings = Settings(rewarmAfter: int, capacity: nat)

  function Min(a: int, b: int): int { if a < b then a else b }

  predicate OnCooldown(nextAllowed: map<string, int>, deck: string, now: int) {
    deck in nextAllowed && now < nextAllowed[deck]
  }

  /** The ids TriggerDeck tries to queue. */
  function Wanted(cards: seq<string>): (ids: seq<string>)
    ensures "" !in ids && |ids| <= |cards|
  {
    if cards == [] then [] else
    var last := cards[|cards| - 1];
    Wanted(cards[..|cards| - 1]) + if last == "" then [] else [last]
  }

  lemma {:induction false} WantedPrefix(cards: seq<string>, i: nat)
    requires i <= |cards|
    ensures Wanted(cards[..i]) <= Wanted(cards)
  {
    if i < |cards| {
      WantedPrefix(cards[..|cards| - 1], i);
      assert cards[..|cards| - 1][..i] == cards[..i];
    } else {
      assert cards[..i] == cards;
    }
  }

  // ---------------------------------------------------------------- the warmer object

  class Warmer {
    const cfg: Settings
    var nextAllowed: map<string, int>
    var queue: seq<string>

    constructor (cfg: Settings)
      ensures this.cfg == cfg && nextAllowed == map[] && queue == []
    {
      this.cfg := cfg;
      nextAllowed, queue := map[], [];
    }

    method ShouldWarm(deck: string, now: int) returns (r: bool)
      ensures r == (deck != "" && !OnCooldown(nextAllowed, deck, now))
    {
      if deck == "" { return false; }
      r := !(deck in nextAllowed && now < nextAllowed[deck]);
    }

    /** TriggerDeck alone, at one moment; `cards` are the map's values in iteration order. A deck whose
        jobs all fit is held back for rewarmAfter, one that overflows the queue only for DROP_RETRY_AFTER,
        and then exactly the jobs there was room for have been queued. */
    method TriggerDeck(deck: string, cards: seq<string>, now: int)
      requires |queue| <= cfg.capacity
      modifies this
      ensures var ids := Wanted(cards); var room := cfg.capacity - |old(queue)|;
        if deck == "" || cards == [] || OnCooldown(old(nextAllowed), deck, now)
        then queue == old(queue) && nextAllowed == old(nextAllowed)
        else if |ids| <= room
        then queue == old(queue) + ids && nextAllowed == old(nextAllowed)[deck := now + cfg.rewarmAfter]
        else queue == old(queue) + ids[..room] && nextAllowed == old(nextAllowed)[deck := now + DROP_RETRY_AFTER]
    {
      if deck == "" || cards == [] { return; }
      if deck in nextAllowed && now < nextAllowed[deck] { return; }
      nextAllowed := nextAllowed[deck := now + cfg.rewarmAfter];
      var full := OfferAll(cards);
      if full {
        nextAllowed := nextAllowed[deck := now + DROP_RETRY_AFTER];
      }
    }

    /** The loop of non-blocking sends; stops at the first job that does not fit. */
    method OfferAll(cards: seq<string>) returns (full: bool)
      requires |queue| <= cfg.capacity
      modifies this`queue
      ensures var ids := Wanted(cards); var room := cfg.capacity - |old(queue)|;
        full == (|ids| > room) && queue == old(queue) + if full then ids[..room] else ids
    {
      var i := 0;
      while i < |cards|
        invariant 0 <= i <= |cards|
        invariant queue == old(queue) + Wanted(cards[..i]) && |queue| <= cfg.capacity
      {
        assert cards[..i + 1][..i] == cards[..i];
        WantedPrefix(cards, i + 1);
        if cards[i] != "" {
          if |queue| >= cfg.capacity {
            return true;
          }
          queue := queue + [cards[i]];
        }
        i := i + 1;
      }
      assert cards[..|cards|] == cards;
      full := false;
    }

    /** One tick of the worker. */
    method Next() returns (id: string)
      modifies this`queue
      ensures if old(queue) == [] then id == "" && queue == [] else old(queue) == [id] + queue
    {
      id := "";
      if queue != [] {
        id, queue := queue[0], queue[1..];
      }
    }
  }

  // ---------------------------------------------------------------- everybody at once

  /** A TriggerDeck call that has claimed its deck: cards still to offer, or about to shorten the cooldown.
      `claim` is the number of its claim. */
  datatype Call = Offering(deck: string, claim: nat, left: seq<string>) | Dropping(deck: string, claim: nat)

  /** A claim: its deck, when it was made, and the cards the call came with. */
  datatype Claim = Claim(deck: string, at: int, cards: seq<string>)

  /** A queued job, and the claim it was queued for. */
  datatype Job = Job(claim: nat, id: string)

  /** `claims`, `enqueued` and `resolved` record the history, as do `dropped`, the claims that found the queue
      full, and `through`, those whose cards have all been offered. */
  datatype State = State(cfg: Settings, now: int, nextAllowed: map<string, int>, queue: seq<Job>, calls: map<nat, Call>,
                         claims: seq<Claim>, enqueued: seq<Job>, resolved: seq<Job>, dropped: set<nat>, through: set<nat>)

  function Init(cfg: Settings, now: int): State { State(cfg, now, map[], [], map[], [], [], [], {}, {}) }

  datatype Event =
    | Wait(time: nat)
    | Trigger(call: nat, deck: string, cards: seq<string>, lag: nat)
    | Offer(call: nat)
    | Downgrade(call: nat)
    | Tick

  predicate Enabled(s: State, e: Event) {
    match e
    case Trigger(c, _, _, _) => c !in s.calls
    case Offer(c) => c in s.calls && s.calls[c].Offering?
    case Downgrade(c) => c in s.calls && s.calls[c].Dropping?
    case _ => true
  }

  /** The turns of the loop over the cards: none left, an empty id, a job that fits, one that does not. */
  function AllOffered(s: State, c: nat, me: Call): State {
    s.(calls := s.calls - {c}, through := s.through + {me.claim})
  }

  function Skipped(s: State, c: nat, me: Call): State
    requires me.Offering? && me.left != []
  {
    s.(calls := s.calls[c := me.(left := me.left[1..])])
  }

  function Queued(s: State, c: nat, me: Call): State
    requires me.Offering? && me.left != []
  {
    var job := Job(me.claim, me.left[0]);
    Skipped(s, c, me).(queue := s.queue + [job], enqueued := s.enqueued + [job])
  }

  function Refused(s: State, c: nat, me: Call): State {
    s.(calls := s.calls[c := Dropping(me.deck, me.claim)], dropped := s.dropped + {me.claim})
  }

  function StepOffer(s: State, c: nat): State
    requires c in s.calls && s.calls[c].Offering?
  {
    var me := s.calls[c];
    if me.left == [] then AllOffered(s, c, me)
    else if me.left[0] == "" then Skipped(s, c, me)
    else if |s.queue| < s.cfg.capacity then Queued(s, c, me)
    else Refused(s, c, me)
  }

  function Step(s: State, e: Event): State {
    if !Enabled(s, e) then s else
    match e
    case Wait(time) => s.(now := s.now + time)
    case Trigger(c, deck, cards, lag) =>
      // one lock section; the clock is read twice in it, `lag` apart
      if deck == "" || cards == [] || OnCooldown(s.nextAllowed, deck, s.now) then s else
      var t := s.now + lag;
      s.(now := t, nextAllowed := s.nextAllowed[deck := t + s.cfg.rewarmAfter],
         calls := s.calls[c := Offering(deck, |s.claims|, cards)], claims := s.claims + [Claim(deck, t, cards)])
    case Offer(c) => StepOffer(s, c)
    case Downgrade(c) =>
      s.(nextAllowed := s.nextAllowed[s.calls[c].deck := s.now + DROP_RETRY_AFTER], calls := s.calls - {c})
    case Tick =>
      if s.queue == [] then s else s.(queue := s.queue[1..], resolved := s.resolved + [s.queue[0]])
  }

  // ---------------------------------------------------------------- cooldowns and the queue

  function Gap(cfg: Settings): int { Min(cfg.rewarmAfter, DROP_RETRY_AFTER) }

  ghost predicate HeldBack(s: State, c: Claim) {
    c.deck in s.nextAllowed && s.nextAllowed[c.deck] >= c.at + Gap(s.cfg)
  }

  ghost predicate Inv(s: State) {
    && (forall i :: 0 <= i < |s.claims| ==> s.claims[i].at <= s.now)
    && (forall i :: 0 <= i < |s.claims| ==> HeldBack(s, s.claims[i]))
    && (forall i, j :: 0 <= i < j < |s.claims| && s.claims[i].deck == s.claims[j].deck ==>
          s.claims[j].at >= s.claims[i].at + Gap(s.cfg))
    && |s.queue| <= s.cfg.capacity && s.enqueued == s.resolved + s.queue
  }

  lemma StepKeepsInv(s: State, e: Event)
    requires Inv(s) && Enabled(s, e)
    ensures Inv(Step(s, e)) && Step(s, e).cfg == s.cfg
  {
    match e
    case Offer(c) => OfferKeepsInv(s, c);
    case _ =>
  }

  lemma OfferKeepsInv(s: State, c: nat)
    requires Inv(s) && Enabled(s, Offer(c))
    ensures Inv(StepOffer(s, c)) && StepOffer(s, c).cfg == s.cfg
  {
    var t := StepOffer(s, c);
    assert t.claims == s.claims && t.now == s.now && t.nextAllowed == s.nextAllowed;
    forall i | 0 <= i < |t.claims| ensures HeldBack(t, t.claims[i]) { assert HeldBack(s, s.claims[i]); }
  }

  // ---------------------------------------------------------------- what each claim has queued

  /** The ids queued for claim `c`, in order. */
  function QueuedFor(c: nat, jobs: seq<Job>): seq<string> {
    if jobs == [] then [] else
    var last := jobs[|jobs| - 1];
    QueuedFor(c, jobs[..|jobs| - 1]) + if last.claim == c then [last.id] else []
  }

  lemma QueuedSnoc(c: nat, jobs: seq<Job>, job: Job)
    ensures QueuedFor(c, jobs + [job]) == QueuedFor(c, jobs) + if job.claim == c then [job.id] else []
  {
    assert (jobs + [job])[..|jobs|] == jobs;
  }

  lemma {:induction false} WantedConcat(a: seq<string>, b: seq<string>)
    ensures Wanted(a + b) == Wanted(a) + Wanted(b)
  {
    if b == [] {
      assert a + b == a;
    } else {
      assert (a + b)[..|a + b| - 1] == a + b[..|b| - 1];
      WantedConcat(a, b[..|b| - 1]);
    }
  }

  lemma WantedCons(cards: seq<string>)
    requires cards != []
    ensures Wanted(cards) == (if cards[0] == "" then [] else [cards[0]]) + Wanted(cards[1..])
  {
    assert cards == [cards[0]] + cards[1..];
    WantedOne(cards[0]);
    WantedConcat([cards[0]], cards[1..]);
  }

  lemma WantedOne(card: string)
    ensures Wanted([card]) == if card == "" then [] else [card]
  {
    assert [card][..0] == [];
  }

  /** How cards and jobs are read: the ids cards ask for, and those queued for a claim. Kept as values, so
      that the bookkeeping below does not look into them. */
  datatype Reading = Reading(wanted: seq<string> -> seq<string>, queued: (nat, seq<Job>) -> seq<string>)

  function TheReading(): Reading { Reading((cards: seq<string>) => Wanted(cards), (c: nat, jobs: seq<Job>) => QueuedFor(c, jobs)) }

  /** What a call has queued so far, followed by what it has still to offer, is what its cards ask for. */
  ghost predicate CallKept(r: Reading, s: State, call: Call) {
    && call.claim < |s.claims| && call.claim !in s.through && (call.Offering? <==> call.claim !in s.dropped)
    && (call.Offering? ==>
          r.queued(call.claim, s.enqueued) + r.wanted(call.left) == r.wanted(s.claims[call.claim].cards))
  }

  /** Claim `c` has queued the first of its jobs: all of them once it is through, not all if it was refused. */
  ghost predicate ClaimKept(r: Reading, s: State, c: nat)
    requires c < |s.claims|
  {
    && r.queued(c, s.enqueued) <= r.wanted(s.claims[c].cards)
    && (c in s.dropped ==> r.queued(c, s.enqueued) != r.wanted(s.claims[c].cards))
    && (c in s.through ==> r.queued(c, s.enqueued) == r.wanted(s.claims[c].cards))
  }

  ghost predicate Jobs(r: Reading, s: State) {
    && (forall id :: id in s.calls ==> CallKept(r, s, s.calls[id]))
    && (forall i, j :: i in s.calls && j in s.calls && i != j ==> s.calls[i].claim != s.calls[j].claim)
    && (forall c :: 0 <= c < |s.claims| ==> ClaimKept(r, s, c))
    && (forall k :: 0 <= k < |s.enqueued| ==> s.enqueued[k].claim < |s.claims|)
    && (forall c :: c in s.dropped || c in s.through ==> c < |s.claims|)
  }

  lemma {:induction false} NothingYet(c: nat, jobs: seq<Job>)
    requires forall k :: 0 <= k < |jobs| ==> jobs[k].claim < c
    ensures QueuedFor(c, jobs) == []
  {
    if jobs != [] { NothingYet(c, jobs[..|jobs| - 1]); }
  }

  ghost predicate IsOffering(s: State, c: nat, me: Call) { c in s.calls && me == s.calls[c] && me.Offering? }

  lemma ClaimedKeepsJobs(r: Reading, s: State, c: nat, claim: Claim, t: State)
    requires Jobs(r, s) && c !in s.calls && r.queued(|s.claims|, s.enqueued) == []
    requires t == s.(now := t.now, nextAllowed := t.nextAllowed, claims := s.claims + [claim],
                     calls := s.calls[c := Offering(claim.deck, |s.claims|, claim.cards)])
    ensures Jobs(r, t)
  {
    forall id | id in t.calls ensures CallKept(r, t, t.calls[id]) {
      if id != c { assert CallKept(r, s, s.calls[id]); }
    }
    forall k | 0 <= k < |t.claims| ensures ClaimKept(r, t, k) {
      if k < |s.claims| { assert ClaimKept(r, s, k); }
    }
  }

  lemma AllOfferedKeepsJobs(r: Reading, s: State, c: nat, me: Call)
    requires Jobs(r, s) && IsOffering(s, c, me) && r.wanted(me.left) == []
    ensures Jobs(r, AllOffered(s, c, me))
  {
    var t := AllOffered(s, c, me);
    assert CallKept(r, s, me);
    forall id | id in t.calls ensures CallKept(r, t, t.calls[id]) { assert CallKept(r, s, s.calls[id]); }
    forall k | 0 <= k < |t.claims| ensures ClaimKept(r, t, k) { assert ClaimKept(r, s, k); }
  }

  lemma SkippedKeepsJobs(r: Reading, s: State, c: nat, me: Call)
    requires Jobs(r, s) && IsOffering(s, c, me) && me.left != [] && r.wanted(me.left) == r.wanted(me.left[1..])
    ensures Jobs(r, Skipped(s, c, me))
  {
    var t := Skipped(s, c, me);
    forall id | id in t.calls ensures CallKept(r, t, t.calls[id]) { assert CallKept(r, s, s.calls[id]); }
    forall k | 0 <= k < |t.claims| ensures ClaimKept(r, t, k) { assert ClaimKept(r, s, k); }
  }

  lemma MovedOver(queued: seq<string>, id: string, rest: seq<string>, all: seq<string>)
    requires queued + ([id] + rest) == all
    ensures queued + [id] + rest == all && queued + [id] <= all
  {
    assert queued + [id] + rest == queued + ([id] + rest);
  }

  lemma QueuedKeepsJobs(r: Reading, s: State, c: nat, me: Call)
    requires Jobs(r, s) && IsOffering(s, c, me) && me.left != []
    requires r.wanted(me.left) == [me.left[0]] + r.wanted(me.left[1..])
    requires forall k :: r.queued(k, s.enqueued + [Job(me.claim, me.left[0])])
                      == r.queued(k, s.enqueued) + if k == me.claim then [me.left[0]] else []
    ensures Jobs(r, Queued(s, c, me))
  {
    var t := Queued(s, c, me);
    assert CallKept(r, s, me);
    MovedOver(r.queued(me.claim, s.enqueued), me.left[0], r.wanted(me.left[1..]), r.wanted(s.claims[me.claim].cards));
    forall id | id in t.calls ensures CallKept(r, t, t.calls[id]) { assert CallKept(r, s, s.calls[id]); }
    forall k | 0 <= k < |t.claims| ensures ClaimKept(r, t, k) { assert ClaimKept(r, s, k); }
  }

  lemma RefusedKeepsJobs(r: Reading, s: State, c: nat, me: Call)
    requires Jobs(r, s) && IsOffering(s, c, me) && r.wanted(me.left) != []
    ensures Jobs(r, Refused(s, c, me))
  {
    var t := Refused(s, c, me);
    assert CallKept(r, s, me);
    forall id | id in t.calls ensures CallKept(r, t, t.calls[id]) { assert CallKept(r, s, s.calls[id]); }
    forall k | 0 <= k < |t.claims| ensures ClaimKept(r, t, k) { assert ClaimKept(r, s, k); }
  }

  lemma QuietKeepsJobs(r: Reading, s: State, e: Event)
    requires Jobs(r, s) && Enabled(s, e) && (e.Wait? || e.Tick? || e.Downgrade?)
    ensures Jobs(r, Step(s, e))
  {
    var t := Step(s, e);
    forall id | id in t.calls ensures CallKept(r, t, t.calls[id]) { assert CallKept(r, s, s.calls[id]); }
    forall k | 0 <= k < |t.claims| ensures ClaimKept(r, t, k) { assert ClaimKept(r, s, k); }
  }

  ghost predicate Reads(r: Reading) {
    && (forall cards :: r.wanted(cards) == Wanted(cards))
    && (forall c, jobs :: r.queued(c, jobs) == QueuedFor(c, jobs))
  }

  lemma TriggerKeepsJobs(r: Reading, s: State, e: Event)
    requires Jobs(r, s) && Enabled(s, e) && e.Trigger? && r.queued(|s.claims|, s.enqueued) == []
    ensures Jobs(r, Step(s, e))
  {
    var t := Step(s, e);
    if t != s { ClaimedKeepsJobs(r, s, e.call, Claim(e.deck, t.now, e.cards), t); }
  }

  lemma OfferKeepsJobs(r: Reading, s: State, c: nat)
    requires Reads(r) && Jobs(r, s) && Enabled(s, Offer(c))
    ensures Jobs(r, StepOffer(s, c))
  {
    var me := s.calls[c];
    if me.left == [] {
      AllOfferedKeepsJobs(r, s, c, me);
    } else {
      WantedCons(me.left);
      if me.left[0] == "" {
        SkippedKeepsJobs(r, s, c, me);
      } else if |s.queue| < s.cfg.capacity {
        var job := Job(me.claim, me.left[0]);
        forall k ensures r.queued(k, s.enqueued + [job]) == r.queued(k, s.enqueued) + if k == me.claim then [job.id] else [] {
          QueuedSnoc(k, s.enqueued, job);
        }
        QueuedKeepsJobs(r, s, c, me);
      } else {
        RefusedKeepsJobs(r, s, c, me);
      }
    }
  }

  lemma StepKeepsJobs(r: Reading, s: State, e: Event)
    requires Reads(r) && Jobs(r, s) && Enabled(s, e)
    ensures Jobs(r, Step(s, e))
  {
    match e
    case Trigger(_, _, _, _) =>
      NothingYet(|s.claims|, s.enqueued);
      TriggerKeepsJobs(r, s, e);
    case Offer(c) => OfferKeepsJobs(r, s, c);
    case _ => QuietKeepsJobs(r, s, e);
  }

  // ---------------------------------------------------------------- all runs

  ghost predicate Reachable(cfg: Settings, start: int, es: seq<Event>, s: State) {
    Runs.Legal(Enabled, Step, Init(cfg, start), es) && s == Runs.After(Step, Init(cfg, start), es)
  }

  ghost predicate InvFor(cfg: Settings, s: State) { Inv(s) && s.cfg == cfg }

  lemma ReachableInv(cfg: Settings, start: int, es: seq<Event>, s: State)
    requires Reachable(cfg, start, es, s)
    ensures InvFor(cfg, s)
  {
    var inv := (t: State) => InvFor(cfg, t);
    forall t, e | inv(t) && Enabled(t, e) ensures inv(Step(t, e)) { StepKeepsInv(t, e); }
    Runs.Keeps(inv, Enabled, Step, Init(cfg, start), es);
  }

  /** However calls, queue-full downgrades, the worker and the clock interleave, two claims of one deck are
      at least min(rewarmAfter, DROP_RETRY_AFTER) apart. */
  lemma ClaimsApart(cfg: Settings, start: int, es: seq<Event>, s: State, i: nat, j: nat)
    requires Reachable(cfg, start, es, s) && i < j < |s.claims| && s.claims[i].deck == s.claims[j].deck
    ensures s.claims[j].at - s.claims[i].at >= Min(cfg.rewarmAfter, DROP_RETRY_AFTER)
  {
    ReachableInv(cfg, start, es, s);
  }

  // ---------------------------------------------------------------- how long a deck is held back

  ghost predicate LastClaim(s: State, k: int, deck: string) {
    0 <= k < |s.claims| && s.claims[k].deck == deck && forall j :: k < j < |s.claims| ==> s.claims[j].deck != deck
  }

  /** The queue was full for some claim of the deck. */
  ghost predicate DeckDropped(s: State, deck: string) {
    exists m :: m in s.dropped && m < |s.claims| && s.claims[m].deck == deck
  }

  ghost predicate HeldSince(s: State, deck: string, k: int)
    requires deck in s.nextAllowed
  {
    && LastClaim(s, k, deck)
    && (s.nextAllowed[deck] == s.claims[k].at + s.cfg.rewarmAfter
        || (DeckDropped(s, deck) && s.nextAllowed[deck] <= s.now + DROP_RETRY_AFTER))
  }

  ghost predicate CallClaimed(s: State, c: nat)
    requires c in s.calls
  {
    var me := s.calls[c];
    me.claim < |s.claims| && s.claims[me.claim].deck == me.deck && me.deck in s.nextAllowed
    && (me.Dropping? ==> me.claim in s.dropped)
  }

  ghost predicate Cooldowns(s: State) {
    && (forall deck :: deck in s.nextAllowed ==> exists k :: HeldSince(s, deck, k))
    && (forall c :: c in s.calls ==> CallClaimed(s, c))
    && (forall i :: 0 <= i < |s.claims| ==> s.claims[i].at <= s.now)
  }

  /** Nothing a step does makes a cooldown wrong that it does not set. */
  lemma CooldownStays(s: State, t: State, deck: string, k: int)
    requires deck in s.nextAllowed && HeldSince(s, deck, k)
    requires t.cfg == s.cfg && t.now >= s.now && s.dropped <= t.dropped
    requires deck in t.nextAllowed && t.nextAllowed[deck] == s.nextAllowed[deck]
    requires s.claims <= t.claims && forall j :: |s.claims| <= j < |t.claims| ==> t.claims[j].deck != deck
    ensures HeldSince(t, deck, k)
  {
  }

  lemma TriggerHolds(s: State, e: Event, deck: string)
    requires Cooldowns(s) && e.Trigger? && Enabled(s, e) && deck in Step(s, e).nextAllowed
    ensures exists k :: HeldSince(Step(s, e), deck, k)
  {
    var t := Step(s, e);
    if t != s && deck == e.deck {
      assert HeldSince(t, deck, |s.claims|);
    } else {
      var k :| HeldSince(s, deck, k);
      CooldownStays(s, t, deck, k);
    }
  }

  lemma TriggerKeepsCooldowns(s: State, e: Event)
    requires Cooldowns(s) && e.Trigger? && Enabled(s, e)
    ensures Cooldowns(Step(s, e))
  {
    var t := Step(s, e);
    forall deck | deck in t.nextAllowed ensures exists k :: HeldSince(t, deck, k) { TriggerHolds(s, e, deck); }
    forall c | c in t.calls ensures CallClaimed(t, c) {
      if c in s.calls { assert CallClaimed(s, c); }
    }
  }

  /** A call goes on with the claim it has made. */
  ghost predicate GoesOn(s: State, t: State, c: nat)
    requires c in t.calls
  {
    && c in s.calls && t.calls[c].claim == s.calls[c].claim && t.calls[c].deck == s.calls[c].deck
    && (t.calls[c].Dropping? ==> t.calls[c].claim in t.dropped)
  }

  /** A step that claims nothing and sets no cooldown. */
  lemma SameCooldowns(s: State, t: State)
    requires Cooldowns(s) && t.claims == s.claims && t.cfg == s.cfg && t.nextAllowed == s.nextAllowed
    requires t.now >= s.now && s.dropped <= t.dropped && forall c :: c in t.calls ==> GoesOn(s, t, c)
    ensures Cooldowns(t)
  {
    forall deck | deck in t.nextAllowed ensures exists k :: HeldSince(t, deck, k) {
      var k :| HeldSince(s, deck, k);
      CooldownStays(s, t, deck, k);
    }
    forall c | c in t.calls ensures CallClaimed(t, c) { assert GoesOn(s, t, c) && CallClaimed(s, c); }
  }

  lemma OfferKeepsCooldowns(s: State, c: nat)
    requires Cooldowns(s) && Enabled(s, Offer(c))
    ensures Cooldowns(StepOffer(s, c))
  {
    var t := StepOffer(s, c);
    OfferChanges(s, c);
    forall x | x in t.calls ensures GoesOn(s, t, x) { assert SameClaim(s, t, x) && CallClaimed(s, x); }
    SameCooldowns(s, t);
  }

  ghost predicate SameClaim(s: State, t: State, c: nat)
    requires c in t.calls
  {
    && c in s.calls && t.calls[c].claim == s.calls[c].claim && t.calls[c].deck == s.calls[c].deck
    && (t.calls[c].Dropping? ==> s.calls[c].Dropping? || t.calls[c].claim in t.dropped)
  }

  lemma OfferChanges(s: State, c: nat)
    requires c in s.calls && s.calls[c].Offering?
    ensures var t := StepOffer(s, c);
      && t.claims == s.claims && t.cfg == s.cfg && t.nextAllowed == s.nextAllowed && t.now == s.now
      && s.dropped <= t.dropped && forall x :: x in t.calls ==> SameClaim(s, t, x)
  {
  }

  lemma DowngradeHolds(s: State, c: nat, deck: string)
    requires Cooldowns(s) && Enabled(s, Downgrade(c)) && deck in Step(s, Downgrade(c)).nextAllowed
    ensures exists k :: HeldSince(Step(s, Downgrade(c)), deck, k)
  {
    var t := Step(s, Downgrade(c));
    assert CallClaimed(s, c);
    var k :| HeldSince(s, deck, k);
    if deck == s.calls[c].deck {
      assert s.calls[c].claim in t.dropped;
      assert HeldSince(t, deck, k);
    } else {
      CooldownStays(s, t, deck, k);
    }
  }

  lemma DowngradeKeepsCooldowns(s: State, c: nat)
    requires Cooldowns(s) && Enabled(s, Downgrade(c))
    ensures Cooldowns(Step(s, Downgrade(c)))
  {
    var t := Step(s, Downgrade(c));
    forall deck | deck in t.nextAllowed ensures exists k :: HeldSince(t, deck, k) { DowngradeHolds(s, c, deck); }
    assert CallClaimed(s, c);
    forall x | x in t.calls ensures CallClaimed(t, x) { assert CallClaimed(s, x); }
  }

  lemma StepKeepsCooldowns(s: State, e: Event)
    requires Cooldowns(s) && Enabled(s, e)
    ensures Cooldowns(Step(s, e))
  {
    match e
    case Trigger(_, _, _, _) => TriggerKeepsCooldowns(s, e);
    case Offer(c) => OfferKeepsCooldowns(s, c);
    case Downgrade(c) => DowngradeKeepsCooldowns(s, c);
    case _ =>
      forall x | x in s.calls ensures GoesOn(s, Step(s, e), x) { assert CallClaimed(s, x); }
      SameCooldowns(s, Step(s, e));
  }

  lemma ReachableCooldowns(cfg: Settings, start: int, es: seq<Event>, s: State)
    requires Reachable(cfg, start, es, s)
    ensures Cooldowns(s) && s.cfg == cfg
  {
    ReachableInv(cfg, start, es, s);
    var inv := (t: State) => Cooldowns(t);
    forall t, e | inv(t) && Enabled(t, e) ensures inv(Step(t, e)) { StepKeepsCooldowns(t, e); }
    Runs.Keeps(inv, Enabled, Step, Init(cfg, start), es);
  }

  /** In every interleaving a deck whose cards have all found room so far is held back for exactly `rewarmAfter`
      from its last claim on. */
  lemma HeldExactly(cfg: Settings, start: int, es: seq<Event>, s: State, deck: string, k: int)
    requires Reachable(cfg, start, es, s) && LastClaim(s, k, deck) && !DeckDropped(s, deck)
    ensures OnCooldown(s.nextAllowed, deck, s.now) <==> s.now < s.claims[k].at + cfg.rewarmAfter
  {
    ReachableInv(cfg, start, es, s);
    ReachableCooldowns(cfg, start, es, s);
    assert HeldBack(s, s.claims[k]);
    var i :| HeldSince(s, deck, i);
  }

  /** And no deck is held back for good: one that was never claimed can be warmed at once, and any deck when both
      times have gone by. */
  lemma WarmsAgain(cfg: Settings, start: int, es: seq<Event>, s: State, c: nat, deck: string, cards: seq<string>,
                   wait: nat, lag: nat)
    requires Reachable(cfg, start, es, s) && deck != "" && cards != [] && c !in s.calls
    requires (wait >= cfg.rewarmAfter && wait >= DROP_RETRY_AFTER) || forall k :: !LastClaim(s, k, deck)
    ensures var t := Step(Step(s, Wait(wait)), Trigger(c, deck, cards, lag));
      t.claims == s.claims + [Claim(deck, s.now + wait + lag, cards)]
  {
    ReachableCooldowns(cfg, start, es, s);
    if deck in s.nextAllowed {
      var k :| HeldSince(s, deck, k);
    }
  }

  /** The queue never exceeds its capacity and jobs run in the order they were queued, none lost or repeated. */
  lemma QueueIsFifo(cfg: Settings, start: int, es: seq<Event>, s: State)
    requires Reachable(cfg, start, es, s)
    ensures |s.queue| <= cfg.capacity && s.enqueued == s.resolved + s.queue
    ensures s.queue != [] ==> Step(s, Tick).resolved == s.resolved + [s.queue[0]] && s.queue == [s.queue[0]] + Step(s, Tick).queue
  {
    ReachableInv(cfg, start, es, s);
  }

  lemma ReachableJobs(r: Reading, cfg: Settings, start: int, es: seq<Event>, s: State)
    requires Reads(r) && Reachable(cfg, start, es, s)
    ensures Jobs(r, s)
  {
    var jobs := (t: State) => Jobs(r, t);
    forall t, e | jobs(t) && Enabled(t, e) ensures jobs(Step(t, e)) { StepKeepsJobs(r, t, e); }
    Runs.Keeps(jobs, Enabled, Step, Init(cfg, start), es);
  }

  /** However calls interleave, each claim has queued a first part of the cards its call came with, in their
      order and each once: the whole of them when all have been offered, less when one found the queue full. */
  lemma ClaimsQueueTheirCards(cfg: Settings, start: int, es: seq<Event>, s: State, c: nat)
    requires Reachable(cfg, start, es, s) && c < |s.claims|
    ensures var queued, wanted := QueuedFor(c, s.enqueued), Wanted(s.claims[c].cards);
      queued <= wanted && (c in s.through ==> queued == wanted) && (c in s.dropped ==> queued != wanted)
  {
    ReachableJobs(TheReading(), cfg, start, es, s);
    assert ClaimKept(TheReading(), s, c);
  }
}
