/** The majority votes of internal/metadata/metadata.go: chooseMostCommon and chooseMostCommonInt, and
    what stopping the collection at a quorum may decide. */
module Vote {
  import opened Order

  /** `prefer(a, b)`: on a tie the vote prefers `b` over `a`. A strict total order. */
  ghost predicate StrictTotal<T(!new)>(prefer: (T, T) -> bool) {
    && (forall a, b :: a == b || prefer(a, b) || prefer(b, a))
    && (forall a, b :: !(prefer(a, b) && prefer(b, a)))
    && (forall a, b, c :: prefer(a, b) && prefer(b, c) ==> prefer(a, c))
  }

  ghost predicate Loses<T>(prefer: (T, T) -> bool, ballots: multiset<T>, x: T, w: T) {
    ballots[x] < ballots[w] || (ballots[x] == ballots[w] && prefer(x, w))
  }

  /** `w` has the most ballots, ties going to the preferred value. */
  ghost predicate IsWinner<T(!new)>(prefer: (T, T) -> bool, ballots: multiset<T>, w: T) {
    w in ballots && forall x :: x in ballots && x != w ==> Loses(prefer, ballots, x, w)
  }

  /** The winner depends on the ballots only, not on the order they came in. */
  lemma WinnerUnique<T(!new)>(prefer: (T, T) -> bool, ballots: multiset<T>, v: T, w: T)
    requires StrictTotal(prefer) && IsWinner(prefer, ballots, v) && IsWinner(prefer, ballots, w)
    ensures v == w
  {
  }

  method CountBallots<T(==)>(ss: seq<T>) returns (counts: map<T, nat>)
    ensures forall x :: x in counts <==> x in multiset(ss)
    ensures forall x :: x in counts ==> counts[x] == multiset(ss)[x]
  {
    counts := map[];
    var i := 0;
    while i < |ss|
      invariant 0 <= i <= |ss|
      invariant forall x :: x in counts <==> x in multiset(ss[..i])
      invariant forall x :: x in counts ==> counts[x] == multiset(ss[..i])[x]
    {
      assert ss[..i + 1] == ss[..i] + [ss[i]];
      counts := counts[ss[i] := if ss[i] in counts then counts[ss[i]] + 1 else 1];
      i := i + 1;
    }
    assert ss[..|ss|] == ss;
  }

  /** `best` leads among the values already visited. */
  ghost predicate Leads<T(!new)>(prefer: (T, T) -> bool, ballots: multiset<T>, visited: set<T>, best: T) {
    best in visited && forall x :: x in visited && x != best ==> Loses(prefer, ballots, x, best)
  }

  lemma LeadPasses<T(!new)>(prefer: (T, T) -> bool, ballots: multiset<T>, visited: set<T>, best: T, k: T)
    requires StrictTotal(prefer) && Leads(prefer, ballots, visited, best) && k !in visited
    ensures ballots[k] > ballots[best] || (ballots[k] == ballots[best] && prefer(best, k))
            ==> Leads(prefer, ballots, visited + {k}, k)
    ensures !(ballots[k] > ballots[best] || (ballots[k] == ballots[best] && prefer(best, k)))
            ==> Leads(prefer, ballots, visited + {k}, best)
  {
    if ballots[k] > ballots[best] || (ballots[k] == ballots[best] && prefer(best, k)) {
      forall x | x in visited && x != k ensures Loses(prefer, ballots, x, k) {
        assert x == best || Loses(prefer, ballots, x, best);
      }
    }
  }

  /** Both vote loops: count the ballots, then visit the counts in the map's arbitrary order. */
  method MostCommon<T(!new, ==)>(ss: seq<T>, prefer: (T, T) -> bool, none: T) returns (best: T)
    requires StrictTotal(prefer)
    ensures if ss == [] then best == none else IsWinner(prefer, multiset(ss), best)
  {
    if |ss| == 0 { return none; }
    var counts := CountBallots(ss);
    ghost var ballots := multiset(ss);
    assert ss[0] in ballots;
    best := none;
    var bestc := 0;
    var left := counts.Keys;
    ghost var visited: set<T> := {};
    while left != {}
      invariant visited !! left && visited + left == counts.Keys
      invariant if visited == {} then bestc == 0 else bestc == ballots[best] && Leads(prefer, ballots, visited, best)
      decreases left
    {
      var k :| k in left;
      var v := counts[k];
      if visited != {} { LeadPasses(prefer, ballots, visited, best, k); }
      if v > bestc || (v == bestc && prefer(best, k)) {
        best := k;
        bestc := v;
      }
      left := left - {k};
      visited := visited + {k};
    }
    assert visited == counts.Keys;
  }

  /** The leader among `ss`, going through it in order. */
  function Leader<T(!new, ==)>(prefer: (T, T) -> bool, ballots: multiset<T>, ss: seq<T>): (best: T)
    requires StrictTotal(prefer) && ss != []
    ensures best in ss && forall x :: x in ss && x != best ==> Loses(prefer, ballots, x, best)
  {
    var k := ss[|ss| - 1];
    if |ss| == 1 then k else
    var b := Leader(prefer, ballots, ss[..|ss| - 1]);
    assert ss == ss[..|ss| - 1] + [k];
    if ballots[k] > ballots[b] || (ballots[k] == ballots[b] && prefer(b, k)) then k else b
  }

  /** The same vote as a function. */
  function Winner<T(!new, ==)>(prefer: (T, T) -> bool, ss: seq<T>, none: T): (best: T)
    requires StrictTotal(prefer)
    ensures if ss == [] then best == none else IsWinner(prefer, multiset(ss), best)
  {
    if ss == [] then none else Leader(prefer, multiset(ss), ss)
  }

  // ---------------------------------------------------------------- the two instances

  lemma StringOrder()
    ensures StrictTotal(Less)
  {
    forall a, b ensures (a == b || Less(a, b) || Less(b, a)) && !(Less(a, b) && Less(b, a)) { Trichotomy(a, b); }
    forall a, b, c | Less(a, b) && Less(b, c) ensures Less(a, c) { Transitive(a, b, c); }
  }

  /** A tied year goes to the older one. */
  predicate OlderWins(a: int, b: int) { b < a }

  method ChooseMostCommon(ss: seq<string>) returns (best: string)
    ensures if ss == [] then best == "" else IsWinner(Less, multiset(ss), best)
    ensures forall s :: s in ss ==>
      multiset(ss)[s] < multiset(ss)[best] || (multiset(ss)[s] == multiset(ss)[best] && (s == best || Less(s, best)))
  {
    StringOrder();
    best := MostCommon(ss, Less, "");
  }

  method ChooseMostCommonInt(nums: seq<int>) returns (best: int)
    ensures if nums == [] then best == 0 else IsWinner(OlderWins, multiset(nums), best)
    ensures forall n :: n in nums ==>
      multiset(nums)[n] < multiset(nums)[best] || (multiset(nums)[n] == multiset(nums)[best] && best <= n)
  {
    assert StrictTotal(OlderWins);
    best := MostCommon(nums, OlderWins, 0);
  }

  // ---------------------------------------------------------------- stopping at a quorum

  function Quorum(providers: nat): nat { providers / 2 + 1 }

  /** `w` wins and keeps winning whatever up to `more` further ballots say. */
  ghost predicate Decided<T(!new)>(prefer: (T, T) -> bool, ballots: multiset<T>, w: T, more: nat) {
    forall later: multiset<T> :: |later| <= more ==> IsWinner(prefer, ballots + later, w)
  }

  lemma CountAtMost<T>(m: multiset<T>, x: T)
    ensures m[x] <= |m|
  {
    assert m == m[x := 0] + multiset{}[x := m[x]];
  }

  /** Stopping early is sound exactly when no rival, present or not yet named, could catch up with all the
      ballots still out. */
  lemma DecidedExactly<T(!new)>(prefer: (T, T) -> bool, ballots: multiset<T>, w: T, more: nat)
    requires w in ballots
    ensures Decided(prefer, ballots, w, more) <==>
      forall x :: x != w ==> ballots[x] + more < ballots[w] || (ballots[x] + more == ballots[w] && prefer(x, w))
  {
    if Decided(prefer, ballots, w, more) {
      forall x | x != w
        ensures ballots[x] + more < ballots[w] || (ballots[x] + more == ballots[w] && prefer(x, w))
      {
        var later: multiset<T> := multiset{}[x := more];
        assert IsWinner(prefer, ballots + later, w);
        assert (ballots + later)[x] == ballots[x] + more && (ballots + later)[w] == ballots[w];
      }
    }
    if forall x :: x != w ==> ballots[x] + more < ballots[w] || (ballots[x] + more == ballots[w] && prefer(x, w)) {
      forall later: multiset<T> | |later| <= more ensures IsWinner(prefer, ballots + later, w) {
        forall x | x in ballots + later && x != w ensures Loses(prefer, ballots + later, x, w) {
          CountAtMost(later, x);
          assert (ballots + later)[x] == ballots[x] + later[x] && (ballots + later)[w] >= ballots[w];
        }
      }
    }
  }

  /** A quorum of providers agreeing on a field decides it: the others cannot change the winner. */
  lemma UnanimousQuorumDecides<T(!new)>(prefer: (T, T) -> bool, providers: nat, v: T)
    requires providers > 0
    ensures Decided(prefer, multiset{}[v := Quorum(providers)], v, providers - Quorum(providers))
  {
    DecidedExactly(prefer, multiset{}[v := Quorum(providers)], v, providers - Quorum(providers));
  }

  /** Without unanimity it may not: two of three agreeing years are overturned by the last two of five. */
  lemma SplitQuorumUndecided(a: int, b: int)
    requires a != b
    ensures IsWinner(OlderWins, multiset{a, a, b}, a) && !Decided(OlderWins, multiset{a, a, b}, a, 2)
  {
    var ballots := multiset{a, a, b};
    assert ballots[a] == 2 && ballots[b] == 1;
    DecidedExactly(OlderWins, ballots, a, 2);
  }
}
