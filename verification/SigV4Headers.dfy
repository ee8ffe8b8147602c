/** The canonical headers of internal/deckstore/sigv4.go: which headers are signed, under what names and
    with what values, and when the result does not depend on the order a map is ranged over. */
module SigV4Headers {
  import opened Options
  import opened Order
  import opened Strings

  /** http.Header: a name maps to its values, the first of which is signed. */
  type Headers = map<string, seq<string>>

  datatype Pair = Pair(name: string, value: string)

  predicate IsSigned(name: string) { name == "host" || "x-amz-" <= name || name == "content-type" }

  /** No signed header is without values. Taking the first value of one that is panics. */
  ghost predicate Filled(lower: char -> char, hs: Headers) {
    forall k :: k in hs && IsSigned(Lowered(lower, k)) ==> hs[k] != []
  }

  /** The pair a header contributes, if it is signed. */
  function Given(lower: char -> char, hs: Headers, k: string): Option<Pair> {
    if k in hs && hs[k] != [] && IsSigned(Lowered(lower, k)) then Some(Pair(Lowered(lower, k), TrimSpace(hs[k][0])))
    else None
  }

  /** The headers of a request as the loops see them: names in the map, what each contributes, and the pair of
      the request's host, which comes after them. */
  datatype Source = Source(keys: set<string>, give: string -> Option<Pair>, host: Pair)

  function SourceOf(lower: char -> char, hs: Headers, host: string): Source {
    Source(hs.Keys, (k: string) => Given(lower, hs, k), Pair("host", host))
  }

  // ---------------------------------------------------------------- the result for one order of the headers

  /** `order` goes through the headers, each once. */
  ghost predicate IsOrder(order: seq<string>, keys: set<string>) {
    && (forall k :: k in order <==> k in keys)
    && (forall i, j :: 0 <= i < j < |order| ==> order[i] != order[j])
  }

  /** The pairs collected when the map is ranged over in this order. */
  function PairsIn(src: Source, order: seq<string>): seq<Pair> {
    if order == [] then [] else
    PairsIn(src, order[..|order| - 1])
      + match src.give(order[|order| - 1]) { case Some(p) => [p] case None => [] }
  }

  /** For each name the value of its first pair. */
  function FirstWins(ps: seq<Pair>): map<string, string> {
    if ps == [] then map[] else
    var before := FirstWins(ps[..|ps| - 1]);
    var p := ps[|ps| - 1];
    if p.name in before then before else before[p.name := p.value]
  }

  /** What is signed when the map is ranged over in this order. */
  function SignedValues(src: Source, order: seq<string>): map<string, string> {
    FirstWins(PairsIn(src, order) + [src.host])
  }

  // ---------------------------------------------------------------- rendering

  function Line(p: Pair): string { p.name + ":" + p.value }

  function Names(ps: seq<Pair>): seq<string> { seq(|ps|, i requires 0 <= i < |ps| => ps[i].name) }

  function Lines(ps: seq<Pair>): seq<string> { seq(|ps|, i requires 0 <= i < |ps| => Line(ps[i])) }

  ghost predicate ByName(ps: seq<Pair>) { forall i, j :: 0 <= i < j < |ps| ==> Less(ps[i].name, ps[j].name) }

  /** `ps` lists the names of `vals` in order. */
  ghost predicate Lists(ps: seq<Pair>, vals: map<string, string>) {
    ByName(ps) && forall p: Pair :: p in ps <==> p.name in vals && vals[p.name] == p.value
  }

  ghost predicate Renders(signed: string, canonical: string, vals: map<string, string>) {
    exists ps :: Lists(ps, vals) && signed == Join(Names(ps), ';') && canonical == Join(Lines(ps), '\n') + "\n"
  }

  // ---------------------------------------------------------------- the loops

  /** Range over the headers in whatever order the map gives. */
  method Collect(lower: char -> char, hs: Headers, ghost src: Source) returns (panics: bool, pairs: seq<Pair>)
    requires src.keys == hs.Keys && forall k :: k in hs ==> src.give(k) == Given(lower, hs, k)
    ensures panics <==> !Filled(lower, hs)
    ensures !panics ==> exists order :: IsOrder(order, hs.Keys) && pairs == PairsIn(src, order)
  {
    panics, pairs := false, [];
    var left := hs.Keys;
    ghost var order: seq<string> := [];
    while left != {}
      invariant left <= hs.Keys && IsOrder(order, hs.Keys - left) && pairs == PairsIn(src, order)
      invariant forall k :: k in hs && k !in left && IsSigned(Lowered(lower, k)) ==> hs[k] != []
      decreases left
    {
      var k :| k in left;
      left := left - {k};
      assert (order + [k])[..|order|] == order;
      order := order + [k];
      var lk := Lowered(lower, k);
      if IsSigned(lk) {
        if hs[k] == [] { return true, []; }
        pairs := pairs + [Pair(lk, TrimSpace(hs[k][0]))];
      }
    }
    assert hs.Keys - {} == hs.Keys;
  }

  /** `ps` are the entries of `vals`. */
  ghost predicate EntriesOf(ps: seq<Pair>, vals: map<string, string>) {
    forall p: Pair :: p in ps <==> p.name in vals && vals[p.name] == p.value
  }

  ghost predicate NamesDiffer(ps: seq<Pair>) { forall i, j :: 0 <= i < j < |ps| ==> ps[i].name != ps[j].name }

  method Deduplicate(pairs: seq<Pair>) returns (unique: seq<Pair>)
    ensures EntriesOf(unique, FirstWins(pairs)) && NamesDiffer(unique)
  {
    unique := [];
    var seen: set<string> := {};
    for i := 0 to |pairs|
      invariant seen == FirstWins(pairs[..i]).Keys
      invariant EntriesOf(unique, FirstWins(pairs[..i])) && NamesDiffer(unique)
    {
      var p := pairs[i];
      assert pairs[..i + 1][..i] == pairs[..i];
      if p.name !in seen {
        AddEntry(unique, FirstWins(pairs[..i]), p);
        seen := seen + {p.name};
        unique := unique + [p];
      }
    }
    assert pairs[..|pairs|] == pairs;
  }

  lemma AddEntry(ps: seq<Pair>, vals: map<string, string>, p: Pair)
    requires EntriesOf(ps, vals) && NamesDiffer(ps) && p.name !in vals
    ensures EntriesOf(ps + [p], vals[p.name := p.value]) && NamesDiffer(ps + [p])
  {
    forall i | 0 <= i < |ps| ensures ps[i].name != p.name { assert ps[i] in ps; }
  }

  function Insert(ps: seq<Pair>, p: Pair): (r: seq<Pair>)
    requires ByName(ps) && forall i :: 0 <= i < |ps| ==> ps[i].name != p.name
    ensures ByName(r) && forall q :: q in r <==> q in ps || q == p
  {
    if ps == [] then [p]
    else if Less(p.name, ps[0].name) then
      LeastInFront(p, ps);
      [p] + ps
    else
      var r := Insert(ps[1..], p);
      LaterBehind(ps, p, r);
      [ps[0]] + r
  }

  lemma LeastInFront(p: Pair, ps: seq<Pair>)
    requires ByName(ps) && ps != [] && Less(p.name, ps[0].name)
    ensures ByName([p] + ps)
  {
    forall j | 0 < j < |ps| ensures Less(p.name, ps[j].name) { Transitive(p.name, ps[0].name, ps[j].name); }
  }

  lemma LaterBehind(ps: seq<Pair>, p: Pair, r: seq<Pair>)
    requires ps != [] && ByName(ps) && p.name != ps[0].name && !Less(p.name, ps[0].name)
    requires ByName(r) && forall q :: q in r <==> q in ps[1..] || q == p
    ensures ByName([ps[0]] + r) && forall q :: q in [ps[0]] + r <==> q in ps || q == p
  {
    Trichotomy(p.name, ps[0].name);
    forall j | 0 <= j < |r| ensures Less(ps[0].name, r[j].name) {
      assert r[j] in r;
    }
    assert ps == [ps[0]] + ps[1..];
  }

  /** sort.Slice by name; the names differ, so there is one result. */
  method SortByName(unique: seq<Pair>) returns (r: seq<Pair>)
    requires NamesDiffer(unique)
    ensures ByName(r) && forall p :: p in r <==> p in unique
  {
    r := [];
    for i := 0 to |unique|
      invariant ByName(r) && forall p :: p in r <==> p in unique[..i]
    {
      forall j | 0 <= j < |r| ensures r[j].name != unique[i].name {
        assert r[j] in r;
      }
      assert unique[..i + 1] == unique[..i] + [unique[i]];
      r := Insert(r, unique[i]);
    }
    assert unique[..|unique|] == unique;
  }

  /** The result for the order the headers came in. */
  method BuildCanonicalHeaders(lower: char -> char, hs: Headers, reqHost: string, urlHost: string)
    returns (panics: bool, signed: string, canonical: string)
    ensures panics <==> !Filled(lower, hs)
    ensures !panics ==> LeadsTo(SourceOf(lower, hs, if reqHost == "" then urlHost else reqHost), signed, canonical)
  {
    var host := reqHost;
    if host == "" { host := urlHost; }
    ghost var src := SourceOf(lower, hs, host);
    var pairs;
    panics, pairs := Collect(lower, hs, src);
    if panics { return true, "", ""; }
    pairs := pairs + [Pair("host", host)];
    var unique := Deduplicate(pairs);
    var sorted := SortByName(unique);
    signed, canonical := Render(sorted);
    assert Lists(sorted, FirstWins(pairs));
    assert Renders(signed, canonical, FirstWins(pairs));
  }

  method Render(sorted: seq<Pair>) returns (signed: string, canonical: string)
    ensures signed == Join(Names(sorted), ';') && canonical == Join(Lines(sorted), '\n') + "\n"
  {
    var hdrs: seq<string>, keys: seq<string> := [], [];
    for i := 0 to |sorted|
      invariant hdrs == Lines(sorted[..i]) && keys == Names(sorted[..i])
    {
      hdrs := hdrs + [sorted[i].name + ":" + sorted[i].value];
      keys := keys + [sorted[i].name];
    }
    assert sorted[..|sorted|] == sorted;
    signed := JoinParts(keys, ';');
    canonical := JoinParts(hdrs, '\n');
    canonical := canonical + "\n";
  }

  /** Some order of the headers leads to this result. */
  ghost predicate LeadsTo(src: Source, signed: string, canonical: string) {
    exists order :: IsOrder(order, src.keys) && Renders(signed, canonical, SignedValues(src, order))
  }

  // ---------------------------------------------------------------- what one order signs

  ghost predicate Gives(src: Source, p: Pair) { exists k :: k in src.keys && src.give(k) == Some(p) }

  lemma {:induction false} FirstWinsTaken(ps: seq<Pair>)
    ensures forall n :: n in FirstWins(ps) ==> Pair(n, FirstWins(ps)[n]) in ps
    ensures forall p :: p in ps ==> p.name in FirstWins(ps)
  {
    if ps != [] {
      var init := ps[..|ps| - 1];
      FirstWinsTaken(init);
      assert ps == init + [ps[|ps| - 1]];
    }
  }

  lemma {:induction false} PairsInExact(src: Source, order: seq<string>, p: Pair)
    ensures p in PairsIn(src, order) <==> exists k :: k in order && src.give(k) == Some(p)
  {
    if order != [] {
      var init, last := order[..|order| - 1], order[|order| - 1];
      PairsInExact(src, init, p);
      assert order == init + [last];
      if src.give(last) == Some(p) { assert last in order; }
      if k :| k in init && src.give(k) == Some(p) { assert k in order; }
    }
  }

  lemma WholeOrder(src: Source, order: seq<string>, p: Pair)
    requires IsOrder(order, src.keys)
    ensures p in PairsIn(src, order) <==> Gives(src, p)
  {
    PairsInExact(src, order, p);
  }

  lemma HostLast(ps: seq<Pair>, host: Pair)
    ensures FirstWins(ps + [host]) == if host.name in FirstWins(ps) then FirstWins(ps) else FirstWins(ps)[host.name := host.value]
  {
    assert (ps + [host])[..|ps|] == ps;
  }

  /** In whatever order the headers come: each name some header gives is signed with a value given for it, and
      "host" with the request's host when no header gives one. Nothing else is signed. */
  lemma SignedExact(src: Source, order: seq<string>, n: string)
    requires IsOrder(order, src.keys)
    ensures var vals := SignedValues(src, order);
      && (n in vals <==> n == src.host.name || exists v :: Gives(src, Pair(n, v)))
      && (n in vals && !Gives(src, Pair(n, vals[n])) ==> Pair(n, vals[n]) == src.host && forall v :: !Gives(src, Pair(n, v)))
  {
    var ps := PairsIn(src, order);
    HostLast(ps, src.host);
    FirstWinsTaken(ps);
    if n in FirstWins(ps) { WholeOrder(src, order, Pair(n, FirstWins(ps)[n])); }
    forall v ensures Gives(src, Pair(n, v)) ==> n in FirstWins(ps) { WholeOrder(src, order, Pair(n, v)); }
  }

  /** Which headers are signed, in whatever order they come: those that are called content-type, host or x-amz- and
      something, in any case, and have a value; and "host" always. */
  lemma SignedNames(lower: char -> char, hs: Headers, host: string, order: seq<string>, n: string)
    requires IsOrder(order, hs.Keys)
    ensures n in SignedValues(SourceOf(lower, hs, host), order) <==>
      n == "host" || ((n == "content-type" || "x-amz-" <= n) && exists k :: k in hs && hs[k] != [] && Lowered(lower, k) == n)
  {
    var src := SourceOf(lower, hs, host);
    SignedExact(src, order, n);
    if k :| k in hs && hs[k] != [] && Lowered(lower, k) == n && IsSigned(n) {
      assert src.give(k) == Some(Pair(n, TrimSpace(hs[k][0])));
      assert Gives(src, Pair(n, TrimSpace(hs[k][0])));
    }
    if v :| Gives(src, Pair(n, v)) {
      var k :| k in src.keys && src.give(k) == Some(Pair(n, v));
      assert Lowered(lower, k) == n && hs[k] != [];
    }
  }

  // ---------------------------------------------------------------- when the order does not matter

  /** Two headers of one name, up to case, with different values. */
  ghost predicate Conflict(src: Source) {
    exists p, q :: Gives(src, p) && Gives(src, q) && p.name == q.name && p != q
  }

  lemma OrdersAgree(src: Source, a: seq<string>, b: seq<string>)
    requires IsOrder(a, src.keys) && IsOrder(b, src.keys) && !Conflict(src)
    ensures SignedValues(src, a) == SignedValues(src, b)
  {
    var v, w := SignedValues(src, a), SignedValues(src, b);
    forall n ensures n in v <==> n in w { SignedExact(src, a, n); SignedExact(src, b, n); }
    forall n | n in v ensures v[n] == w[n] { SignedExact(src, a, n); SignedExact(src, b, n); }
  }

  /** The elements of a set, one after the other. */
  ghost function Listed(keys: set<string>): (order: seq<string>)
    ensures IsOrder(order, keys)
    decreases keys
  {
    if keys == {} then [] else
    var k :| k in keys;
    Listed(keys - {k}) + [k]
  }

  /** The order that begins with header `k`. */
  ghost function StartingWith(keys: set<string>, k: string): (order: seq<string>)
    requires k in keys
    ensures IsOrder(order, keys) && order != [] && order[0] == k
  {
    var rest := Listed(keys - {k});
    assert forall i :: 0 <= i < |rest| ==> rest[i] in rest;
    [k] + rest
  }

  lemma {:induction false} FirstStays(p: Pair, ps: seq<Pair>)
    ensures p.name in FirstWins([p] + ps) && FirstWins([p] + ps)[p.name] == p.value
  {
    if ps == [] {
      assert [p] + ps == [p] && [p][..0] == [];
    } else {
      assert ([p] + ps)[..|ps|] == [p] + ps[..|ps| - 1];
      FirstStays(p, ps[..|ps| - 1]);
    }
  }

  lemma {:induction false} FirstCollected(src: Source, order: seq<string>, p: Pair)
    requires order != [] && src.give(order[0]) == Some(p)
    ensures PairsIn(src, order) != [] && PairsIn(src, order)[0] == p
  {
    if |order| == 1 {
      assert order[..0] == [];
    } else {
      FirstCollected(src, order[..|order| - 1], p);
    }
  }

  /** An order beginning with a header signs the value of that header. */
  lemma FirstIsSigned(src: Source, k: string, p: Pair)
    requires k in src.keys && src.give(k) == Some(p)
    ensures var vals := SignedValues(src, StartingWith(src.keys, k)); p.name in vals && vals[p.name] == p.value
  {
    var order := StartingWith(src.keys, k);
    FirstCollected(src, order, p);
    var rest := PairsIn(src, order)[1..];
    assert PairsIn(src, order) + [src.host] == [p] + (rest + [src.host]);
    FirstStays(p, rest + [src.host]);
  }

  lemma {:induction false} ListingUnique(ps: seq<Pair>, qs: seq<Pair>, vals: map<string, string>)
    requires Lists(ps, vals) && Lists(qs, vals)
    ensures ps == qs
    decreases |ps|
  {
    assert |qs| > 0 ==> qs[0] in qs && qs[0] in ps;
    if ps != [] {
      assert ps[0] in ps && ps[0] in qs;
      Trichotomy(ps[0].name, qs[0].name);
      assert ps[0] == qs[0];
      RestListed(ps, vals);
      RestListed(qs, vals);
      ListingUnique(ps[1..], qs[1..], vals - {ps[0].name});
      assert ps == [ps[0]] + ps[1..] && qs == [qs[0]] + qs[1..];
    }
  }

  lemma RestListed(ps: seq<Pair>, vals: map<string, string>)
    requires ps != [] && Lists(ps, vals)
    ensures Lists(ps[1..], vals - {ps[0].name})
  {
    assert ps == [ps[0]] + ps[1..];
    forall p: Pair ensures p in ps[1..] <==> p.name in vals - {ps[0].name} && (vals - {ps[0].name})[p.name] == p.value {
      if p in ps[1..] {
        Trichotomy(ps[0].name, p.name);
      }
    }
  }

  // ---------------------------------------------------------------- the result tells what is signed

  /** Header names and values as HTTP allows them: no line break, and no colon in a name. */
  predicate Clean(p: Pair) { ':' !in p.name && '\n' !in p.name && '\n' !in p.value }

  ghost predicate WellFormed(vals: map<string, string>) { forall n :: n in vals ==> Clean(Pair(n, vals[n])) }

  lemma NameIsFirstPiece(p: Pair)
    requires ':' !in p.name
    ensures Split(Line(p), ':')[0] == p.name
  {
    var rest := ":" + p.value;
    assert Line(p) == p.name + rest;
    SplitPiece(p.name, rest, ':');
    assert Split(rest, ':')[0] == "";
    assert p.name + "" == p.name;
  }

  lemma LineInjective(p: Pair, q: Pair)
    requires ':' !in p.name && ':' !in q.name && Line(p) == Line(q)
    ensures p == q
  {
    NameIsFirstPiece(p);
    NameIsFirstPiece(q);
    assert p.value == Line(p)[|p.name| + 1..] && q.value == Line(q)[|q.name| + 1..];
  }

  lemma JoinedLinesTell(ps: seq<Pair>, qs: seq<Pair>)
    requires forall p :: p in ps + qs ==> Clean(p)
    requires ps != [] && qs != [] && Join(Lines(ps), '\n') == Join(Lines(qs), '\n')
    ensures ps == qs
  {
    forall i | 0 <= i < |ps| ensures '\n' !in Lines(ps)[i] { assert ps[i] in ps + qs; }
    forall i | 0 <= i < |qs| ensures '\n' !in Lines(qs)[i] { assert qs[i] in ps + qs; }
    SplitJoin(Lines(ps), '\n');
    SplitJoin(Lines(qs), '\n');
    forall i | 0 <= i < |ps| ensures ps[i] == qs[i] {
      assert Lines(ps)[i] == Lines(qs)[i];
      assert ps[i] in ps + qs && qs[i] in ps + qs;
      LineInjective(ps[i], qs[i]);
    }
  }

  /** The canonical headers tell exactly which names are signed with which values. */
  lemma RenderingExact(s: string, c: string, a: map<string, string>, t: string, d: string, b: map<string, string>,
                       n: string)
    requires Renders(s, c, a) && Renders(t, d, b) && WellFormed(a) && WellFormed(b) && n in a && n in b
    ensures c == d <==> a == b
    ensures a == b ==> s == t
  {
    var ps :| Lists(ps, a) && s == Join(Names(ps), ';') && c == Join(Lines(ps), '\n') + "\n";
    var qs :| Lists(qs, b) && t == Join(Names(qs), ';') && d == Join(Lines(qs), '\n') + "\n";
    if a == b { ListingUnique(ps, qs, a); }
    if c == d {
      assert Join(Lines(ps), '\n') == c[..|c| - 1] && Join(Lines(qs), '\n') == d[..|d| - 1];
      assert Pair(n, a[n]) in ps && Pair(n, b[n]) in qs;
      JoinedLinesTell(ps, qs);
      SameLists(ps, a, b);
    }
  }

  lemma SameLists(ps: seq<Pair>, a: map<string, string>, b: map<string, string>)
    requires Lists(ps, a) && Lists(ps, b)
    ensures a == b
  {
    forall n ensures n in a <==> n in b {
      if n in a { assert Pair(n, a[n]) in ps; }
      if n in b { assert Pair(n, b[n]) in ps; }
    }
    forall n | n in a ensures a[n] == b[n] { assert Pair(n, a[n]) in ps; }
  }

  lemma EveryChoiceRenders(vals: map<string, string>)
    ensures exists s, c :: Renders(s, c, vals)
  {
    var ps := Listing(vals);
    assert Renders(Join(Names(ps), ';'), Join(Lines(ps), '\n') + "\n", vals);
  }

  ghost function Listing(vals: map<string, string>): (ps: seq<Pair>)
    ensures Lists(ps, vals)
    decreases |vals|
  {
    if vals == map[] then [] else
    var n :| n in vals;
    var rest := vals - {n};
    assert vals.Keys == rest.Keys + {n};
    var ps := Listing(rest);
    assert forall i :: 0 <= i < |ps| ==> ps[i] in ps;
    Insert(ps, Pair(n, vals[n]))
  }

  /** Header names and values that HTTP allows. */
  ghost predicate AllClean(src: Source) { Clean(src.host) && forall p :: Gives(src, p) ==> Clean(p) }

  lemma SignedIsClean(src: Source, order: seq<string>)
    requires IsOrder(order, src.keys) && AllClean(src)
    ensures WellFormed(SignedValues(src, order)) && src.host.name in SignedValues(src, order)
  {
    var vals := SignedValues(src, order);
    forall n | n in vals ensures Clean(Pair(n, vals[n])) { SignedExact(src, order, n); }
    SignedExact(src, order, src.host.name);
  }

  lemma SameResult(src: Source, p: seq<string>, q: seq<string>, s: string, c: string, t: string, d: string)
    requires IsOrder(p, src.keys) && IsOrder(q, src.keys) && AllClean(src)
    requires Renders(s, c, SignedValues(src, p)) && Renders(t, d, SignedValues(src, q))
    ensures c == d <==> SignedValues(src, p) == SignedValues(src, q)
  {
    SignedIsClean(src, p);
    SignedIsClean(src, q);
    RenderingExact(s, c, SignedValues(src, p), t, d, SignedValues(src, q), src.host.name);
  }

  lemma ConflictShows(src: Source)
    requires AllClean(src) && Conflict(src)
    ensures exists s, t, c, d :: LeadsTo(src, s, c) && LeadsTo(src, t, d) && c != d
  {
    var p, q :| Gives(src, p) && Gives(src, q) && p.name == q.name && p != q;
    var k :| k in src.keys && src.give(k) == Some(p);
    var l :| l in src.keys && src.give(l) == Some(q);
    FirstIsSigned(src, k, p);
    FirstIsSigned(src, l, q);
    var a, b := StartingWith(src.keys, k), StartingWith(src.keys, l);
    assert SignedValues(src, a)[p.name] != SignedValues(src, b)[p.name];
    EveryChoiceRenders(SignedValues(src, a));
    EveryChoiceRenders(SignedValues(src, b));
    var s, c :| Renders(s, c, SignedValues(src, a));
    var t, d :| Renders(t, d, SignedValues(src, b));
    SameResult(src, a, b, s, c, t, d);
    assert LeadsTo(src, s, c) && LeadsTo(src, t, d);
  }

  /** The canonical headers do not depend on map order exactly when no two headers of one name, up to
      case, disagree on the value. */
  lemma OrderFreeExact(lower: char -> char, hs: Headers, host: string)
    requires AllClean(SourceOf(lower, hs, host))
    ensures var src := SourceOf(lower, hs, host);
      (forall s, t, c, d :: LeadsTo(src, s, c) && LeadsTo(src, t, d) ==> c == d) <==> !Conflict(src)
  {
    var src := SourceOf(lower, hs, host);
    if Conflict(src) {
      ConflictShows(src);
    } else {
      forall s, t, c, d | LeadsTo(src, s, c) && LeadsTo(src, t, d) ensures c == d {
        var p :| IsOrder(p, src.keys) && Renders(s, c, SignedValues(src, p));
        var q :| IsOrder(q, src.keys) && Renders(t, d, SignedValues(src, q));
        OrdersAgree(src, p, q);
        SameResult(src, p, q, s, c, t, d);
      }
    }
  }

  /** One header in two spellings, as assigning to the map directly makes it. */
  const TWO_SPELLINGS: Headers := map["X-Amz-Acl" := ["a"], "x-amz-acl" := ["b"]]

  lemma AclGiven(lower: char -> char, k: string, v: char)
    requires IsLowering(lower) && (k == "X-Amz-Acl" || k == "x-amz-acl") && !IsSpace(v)
    ensures Lowered(lower, k) == "x-amz-acl" && IsSigned("x-amz-acl") && TrimSpace([v]) == [v]
  {
    assert Lowered(lower, k) == "x-amz-acl";
    assert "x-amz-" == "x-amz-acl"[..6];
    assert [v][1..] == [];
  }

  lemma SpellingsGiven(lower: char -> char)
    requires IsLowering(lower)
    ensures Given(lower, TWO_SPELLINGS, "X-Amz-Acl") == Some(Pair("x-amz-acl", "a"))
    ensures Given(lower, TWO_SPELLINGS, "x-amz-acl") == Some(Pair("x-amz-acl", "b"))
  {
    AclGiven(lower, "X-Amz-Acl", 'a');
    AclGiven(lower, "x-amz-acl", 'b');
  }

  lemma SpellingsClean(lower: char -> char, host: string)
    requires IsLowering(lower) && '\n' !in host
    ensures AllClean(SourceOf(lower, TWO_SPELLINGS, host))
  {
    var src := SourceOf(lower, TWO_SPELLINGS, host);
    SpellingsGiven(lower);
    CleanPairs(host);
    forall p | Gives(src, p) ensures Clean(p) {
      var k :| k in src.keys && src.give(k) == Some(p);
      assert k == "X-Amz-Acl" || k == "x-amz-acl";
    }
  }

  lemma CleanPairs(host: string)
    requires '\n' !in host
    ensures Clean(Pair("x-amz-acl", "a")) && Clean(Pair("x-amz-acl", "b")) && Clean(Pair("host", host))
  {
  }

  /** A header map with two results. */
  lemma TwoResults(lower: char -> char, host: string)
    requires IsLowering(lower) && '\n' !in host
    ensures var src := SourceOf(lower, TWO_SPELLINGS, host);
      exists s, t, c, d :: LeadsTo(src, s, c) && LeadsTo(src, t, d) && c != d
  {
    var src := SourceOf(lower, TWO_SPELLINGS, host);
    SpellingsGiven(lower);
    SpellingsClean(lower, host);
    var p, q := Pair("x-amz-acl", "a"), Pair("x-amz-acl", "b");
    assert src.give("X-Amz-Acl") == Some(p) && src.give("x-amz-acl") == Some(q);
    assert Gives(src, p) && Gives(src, q) && p.value[0] != q.value[0];
    ConflictShows(src);
  }
}
