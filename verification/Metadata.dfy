/** Metadata resolution of internal/metadata/metadata.go: collecting provider answers up to a quorum, the
    votes over their fields, and exactly when stopping at the quorum is safe. */
module Metadata {
  import opened MetadataText
  import opened Order
  import opened Strings
  import Vote

  /** What a provider answers, and what a Track holds. */
  datatype Answer = Answer(artist: string, title: string, year: int, apple: string, artwork: string)

  const PROVIDERS := 5
  const QUORUM := PROVIDERS / 2 + 1

  // ---------------------------------------------------------------- collecting

  function Min(a: nat, b: nat): nat { if a < b then a else b }

  /** What is collected of `arrivals`, in the order they come in, the context ending after `limit` of them: the
      first ones, as many as make a majority of the providers unless answers or time run out before. */
  function Collected(arrivals: seq<Answer>, limit: nat): (rs: seq<Answer>)
    ensures rs <= arrivals && |rs| <= PROVIDERS / 2 + 1 && |rs| <= limit
    ensures |rs| == PROVIDERS / 2 + 1 || |rs| == |arrivals| || |rs| == limit
  {
    arrivals[..Min(Min(QUORUM, limit), |arrivals|)]
  }

  method Collect(arrivals: seq<Answer>, limit: nat) returns (results: seq<Answer>)
    ensures results <= arrivals && |results| <= PROVIDERS / 2 + 1 && |results| <= limit
    ensures |results| == PROVIDERS / 2 + 1 || |results| == |arrivals| || |results| == limit
    ensures results == Collected(arrivals, limit)
  {
    results := [];
    while |results| < |arrivals| && |results| < limit
      invariant |results| <= Min(Min(QUORUM - 1, limit), |arrivals|) && results == arrivals[..|results|]
    {
      results := arrivals[..|results| + 1];
      if |results| >= QUORUM { return; }
    }
  }

  // ---------------------------------------------------------------- the fields to vote on

  type Field = Answer -> string

  function ArtistOf(a: Answer): string { a.artist }

  function TitleOf(a: Answer): string { a.title }

  /** The normal forms of a field, where it is not empty. */
  function Normals(tx: Text, field: Field, rs: seq<Answer>): seq<string> {
    if rs == [] then [] else
    var last := field(rs[|rs| - 1]);
    Normals(tx, field, rs[..|rs| - 1]) + if last != "" then [tx.norm(last)] else []
  }

  function Years(rs: seq<Answer>): seq<int> {
    if rs == [] then [] else
    var last := rs[|rs| - 1].year;
    Years(rs[..|rs| - 1]) + if last != 0 then [last] else []
  }

  function Apples(rs: seq<Answer>): seq<string> {
    if rs == [] then [] else
    var last := rs[|rs| - 1].apple;
    Apples(rs[..|rs| - 1]) + if last != "" then [last] else []
  }

  function Artworks(rs: seq<Answer>): seq<string> {
    if rs == [] then [] else
    var last := rs[|rs| - 1].artwork;
    Artworks(rs[..|rs| - 1]) + if last != "" then [last] else []
  }

  /** The first url holding one of `marks`, or "". */
  function FirstHolding(urls: seq<string>, marks: seq<string>): string {
    if urls == [] then ""
    else if HoldsAny(urls[0], marks) then urls[0]
    else FirstHolding(urls[1..], marks)
  }

  function PreferredArtwork(urls: seq<string>): string {
    var a := FirstHolding(urls, ["coverartarchive.org"]);
    var b := FirstHolding(urls, ["discogs"]);
    var c := FirstHolding(urls, ["deezer", "cover_big"]);
    if urls == [] then "" else if a != "" then a else if b != "" then b else if c != "" then c else urls[0]
  }

  /** What an artwork url is worth: Cover Art Archive first, then Discogs, then Deezer. */
  function Rank(url: string): nat {
    if Contains(url, "coverartarchive.org") then 0
    else if Contains(url, "discogs") then 1
    else if Contains(url, "deezer") || Contains(url, "cover_big") then 2
    else 3
  }

  predicate HoldsAny(url: string, marks: seq<string>) { exists m :: m in marks && Contains(url, m) }

  ghost predicate FirstAt(urls: seq<string>, marks: seq<string>, i: int) {
    0 <= i < |urls| && HoldsAny(urls[i], marks) && forall j :: 0 <= j < i ==> !HoldsAny(urls[j], marks)
  }

  lemma {:induction false} FirstHoldingExact(urls: seq<string>, marks: seq<string>) returns (i: int)
    requires "" !in marks
    ensures FirstHolding(urls, marks) == "" ==> forall j :: 0 <= j < |urls| ==> !HoldsAny(urls[j], marks)
    ensures FirstHolding(urls, marks) != "" ==> FirstAt(urls, marks, i) && FirstHolding(urls, marks) == urls[i]
  {
    i := 0;
    if urls != [] && !HoldsAny(urls[0], marks) {
      var k := FirstHoldingExact(urls[1..], marks);
      i := k + 1;
    }
  }

  lemma RankMarks(url: string)
    ensures HoldsAny(url, ["coverartarchive.org"]) <==> Rank(url) == 0
    ensures HoldsAny(url, ["discogs"]) ==> Rank(url) <= 1
    ensures Rank(url) == 1 ==> HoldsAny(url, ["discogs"])
    ensures HoldsAny(url, ["deezer", "cover_big"]) ==> Rank(url) <= 2
    ensures Rank(url) == 2 ==> HoldsAny(url, ["deezer", "cover_big"])
  {
    assert "deezer" in ["deezer", "cover_big"] && "cover_big" in ["deezer", "cover_big"];
    assert "discogs" in ["discogs"] && "coverartarchive.org" in ["coverartarchive.org"];
  }

  ghost predicate FirstOfBestRank(urls: seq<string>, i: int) {
    && 0 <= i < |urls|
    && (forall j :: 0 <= j < |urls| ==> Rank(urls[i]) <= Rank(urls[j]))
    && (forall j :: 0 <= j < i ==> Rank(urls[i]) < Rank(urls[j]))
  }

  /** The preferred artwork is the first of the best rank, and none when none is given. */
  lemma ArtworkPreferred(urls: seq<string>)
    ensures if urls == [] then PreferredArtwork(urls) == ""
            else exists i :: FirstOfBestRank(urls, i) && PreferredArtwork(urls) == urls[i]
  {
    if urls == [] { return; }
    var a := FirstHoldingExact(urls, ["coverartarchive.org"]);
    var b := FirstHoldingExact(urls, ["discogs"]);
    var c := FirstHoldingExact(urls, ["deezer", "cover_big"]);
    forall j | 0 <= j < |urls|
      ensures (HoldsAny(urls[j], ["coverartarchive.org"]) <==> Rank(urls[j]) == 0)
           && (HoldsAny(urls[j], ["discogs"]) ==> Rank(urls[j]) <= 1) && (Rank(urls[j]) == 1 ==> HoldsAny(urls[j], ["discogs"]))
           && (HoldsAny(urls[j], ["deezer", "cover_big"]) ==> Rank(urls[j]) <= 2)
           && (Rank(urls[j]) == 2 ==> HoldsAny(urls[j], ["deezer", "cover_big"]))
    {
      RankMarks(urls[j]);
    }
    var i := if FirstHolding(urls, ["coverartarchive.org"]) != "" then a
             else if FirstHolding(urls, ["discogs"]) != "" then b
             else if FirstHolding(urls, ["deezer", "cover_big"]) != "" then c else 0;
    assert FirstOfBestRank(urls, i);
  }

  /** The first value among `vals` whose normal form is `key`, or "". */
  function PickOriginal(tx: Text, vals: seq<string>, key: string): string {
    if vals == [] then "" else if tx.norm(vals[0]) == key then vals[0] else PickOriginal(tx, vals[1..], key)
  }

  function Originals(field: Field, rs: seq<Answer>): seq<string> { seq(|rs|, i requires 0 <= i < |rs| => field(rs[i])) }

  function OrElse(s: string, fallback: string): string { if s != "" then s else fallback }

  // ---------------------------------------------------------------- the vote

  ghost predicate WinsAmong(ss: seq<string>, w: string) {
    if ss == [] then w == "" else Vote.IsWinner(Less, multiset(ss), w)
  }

  ghost predicate WinsAmongYears(ys: seq<int>, w: int) {
    if ys == [] then w == 0 else Vote.IsWinner(Vote.OlderWins, multiset(ys), w)
  }

  /** `out` is the first field whose normal form won among the normal forms `ss`, or what was searched for. */
  ghost predicate NamedByVote(tx: Text, ss: seq<string>, fields: seq<string>, searched: string, out: string) {
    exists w :: WinsAmong(ss, w) && out == OrElse(PickOriginal(tx, fields, w), searched)
  }

  /** `out` is the majority vote over `rs` for this search. */
  ghost predicate IsVote(tx: Text, artist: string, title: string, rs: seq<Answer>, out: Answer) {
    && WinsAmongYears(Years(rs), out.year)
    && NamedByVote(tx, Normals(tx, ArtistOf, rs), Originals(ArtistOf, rs), artist, out.artist)
    && NamedByVote(tx, Normals(tx, TitleOf, rs), Originals(TitleOf, rs), title, out.title)
    && out.apple == (if Apples(rs) == [] then "" else Apples(rs)[0])
    && out.artwork == PreferredArtwork(Artworks(rs))
  }

  // ---------------------------------------------------------------- what the vote means, answer by answer

  /** The answers that say something. */
  ghost function Voters(rs: seq<Answer>, says: Answer -> bool): set<int> { set i | 0 <= i < |rs| && says(rs[i]) }

  lemma VotersSnoc(rs: seq<Answer>, a: Answer, says: Answer -> bool)
    ensures |Voters(rs + [a], says)| == |Voters(rs, says)| + if says(a) then 1 else 0
  {
    var v, w := Voters(rs, says), Voters(rs + [a], says);
    assert forall i :: i in w <==> i in v || (i == |rs| && says(a));
    assert w == if says(a) then v + {|rs|} else v;
  }

  function GivesYear(y: int): Answer -> bool { (a: Answer) => a.year == y }

  /** The field is not empty and has this normal form. */
  function GivesName(tx: Text, field: Field, n: string): Answer -> bool {
    (a: Answer) => field(a) != "" && tx.norm(field(a)) == n
  }

  lemma {:induction false} YearsCounted(rs: seq<Answer>, y: int)
    ensures multiset(Years(rs))[y] == if y == 0 then 0 else |Voters(rs, GivesYear(y))|
  {
    if rs != [] {
      var n := |rs| - 1;
      YearsCounted(rs[..n], y);
      VotersSnoc(rs[..n], rs[n], GivesYear(y));
      assert rs == rs[..n] + [rs[n]];
    }
  }

  lemma {:induction false} NamesCounted(tx: Text, field: Field, rs: seq<Answer>, w: string)
    ensures multiset(Normals(tx, field, rs))[w] == |Voters(rs, GivesName(tx, field, w))|
  {
    if rs != [] {
      var n := |rs| - 1;
      NamesCounted(tx, field, rs[..n], w);
      VotersSnoc(rs[..n], rs[n], GivesName(tx, field, w));
      assert rs == rs[..n] + [rs[n]];
    }
  }

  /** The elected year is given by at least as many answers as any other, by more than any older one; 0 means that no
      answer gives a year. */
  lemma YearIsMajority(rs: seq<Answer>, year: int, y: int)
    requires WinsAmongYears(Years(rs), year) && y != 0
    ensures year == 0 ==> Voters(rs, GivesYear(y)) == {}
    ensures year != 0 ==> Voters(rs, GivesYear(year)) != {}
    ensures var votes, most := |Voters(rs, GivesYear(y))|, |Voters(rs, GivesYear(year))|;
      year != 0 ==> votes < most || (votes == most && year <= y)
  {
    YearsCounted(rs, y);
    YearsCounted(rs, year);
    YearsCounted(rs, 0);
  }

  /** The elected name is given by at least as many answers as any other, by more than any that is larger. */
  lemma NameIsMajority(tx: Text, field: Field, rs: seq<Answer>, w: string, n: string)
    requires WinsAmong(Normals(tx, field, rs), w)
    ensures Voters(rs, GivesName(tx, field, w)) == {} ==> Voters(rs, GivesName(tx, field, n)) == {}
    ensures var votes, most := |Voters(rs, GivesName(tx, field, n))|, |Voters(rs, GivesName(tx, field, w))|;
      n != w && votes > 0 ==> votes < most || (votes == most && Less(n, w))
  {
    NamesCounted(tx, field, rs, n);
    NamesCounted(tx, field, rs, w);
  }

  /** The spelling handed out is the first one given that has the elected normal form; with none, what was searched
      for. */
  lemma {:induction false} SpellingIsFirst(tx: Text, vals: seq<string>, key: string)
    ensures var r := PickOriginal(tx, vals, key);
      || (r == "" && forall i :: 0 <= i < |vals| ==> tx.norm(vals[i]) != key)
      || exists i :: 0 <= i < |vals| && r == vals[i] && tx.norm(vals[i]) == key && forall j :: 0 <= j < i ==> tx.norm(vals[j]) != key
  {
    if vals != [] && tx.norm(vals[0]) != key {
      var rest := vals[1..];
      SpellingIsFirst(tx, rest, key);
      if i :| 0 <= i < |rest| && PickOriginal(tx, rest, key) == rest[i] && tx.norm(rest[i]) == key
              && forall j :: 0 <= j < i ==> tx.norm(rest[j]) != key {
        assert vals[i + 1] == rest[i] && forall j :: 0 < j < i + 1 ==> vals[j] == rest[j - 1];
      }
    }
  }

  /** The name handed out is one of those given or what was searched for, and empty only if that is. */
  lemma NameFallsBack(tx: Text, ss: seq<string>, fields: seq<string>, searched: string, out: string)
    requires NamedByVote(tx, ss, fields, searched, out)
    ensures out in fields || out == searched
    ensures out == "" ==> searched == ""
  {
    var w :| WinsAmong(ss, w) && out == OrElse(PickOriginal(tx, fields, w), searched);
    SpellingIsFirst(tx, fields, w);
  }

  /** The Apple Music link is the first one given. */
  lemma {:induction false} AppleIsFirst(rs: seq<Answer>)
    ensures Apples(rs) == [] ==> forall i :: 0 <= i < |rs| ==> rs[i].apple == ""
    ensures Apples(rs) != [] ==>
      exists i :: 0 <= i < |rs| && Apples(rs)[0] == rs[i].apple != "" && forall j :: 0 <= j < i ==> rs[j].apple == ""
  {
    if rs != [] {
      var n := |rs| - 1;
      AppleIsFirst(rs[..n]);
      if Apples(rs[..n]) != [] {
        var i :| 0 <= i < n && Apples(rs[..n])[0] == rs[i].apple != "" && forall j :: 0 <= j < i ==> rs[j].apple == "";
        assert Apples(rs)[0] == rs[i].apple;
      }
    }
  }

  lemma {:induction false} ArtworksGiven(rs: seq<Answer>, url: string)
    ensures url in Artworks(rs) <==> url != "" && exists i :: 0 <= i < |rs| && rs[i].artwork == url
  {
    if rs != [] {
      var n := |rs| - 1;
      ArtworksGiven(rs[..n], url);
      if i :| 0 <= i < n && rs[i].artwork == url { assert rs[..n][i].artwork == url; }
      if i :| 0 <= i < n && rs[..n][i].artwork == url { assert rs[i].artwork == url; }
    }
  }

  function Elected(ss: seq<string>): (w: string)
    ensures WinsAmong(ss, w)
  {
    Vote.StringOrder();
    Vote.Winner(Less, ss, "")
  }

  function ElectedYear(ys: seq<int>): (w: int)
    ensures WinsAmongYears(ys, w)
  {
    assert Vote.StrictTotal(Vote.OlderWins);
    Vote.Winner(Vote.OlderWins, ys, 0)
  }

  function ElectName(tx: Text, field: Field, searched: string, rs: seq<Answer>): string {
    OrElse(PickOriginal(tx, Originals(field, rs), Elected(Normals(tx, field, rs))), searched)
  }

  /** The vote as a function of the answers. */
  function Elect(tx: Text, artist: string, title: string, rs: seq<Answer>): Answer {
    var apples := Apples(rs);
    Answer(ElectName(tx, ArtistOf, artist, rs), ElectName(tx, TitleOf, title, rs), ElectedYear(Years(rs)),
           if apples == [] then "" else apples[0], PreferredArtwork(Artworks(rs)))
  }

  lemma ElectIsVote(tx: Text, artist: string, title: string, rs: seq<Answer>)
    ensures IsVote(tx, artist, title, rs, Elect(tx, artist, title, rs))
  {
    assert WinsAmong(Normals(tx, ArtistOf, rs), Elected(Normals(tx, ArtistOf, rs)));
    assert WinsAmong(Normals(tx, TitleOf, rs), Elected(Normals(tx, TitleOf, rs)));
  }

  lemma WinsAmongUnique(ss: seq<string>, v: string, w: string)
    requires WinsAmong(ss, v) && WinsAmong(ss, w)
    ensures v == w
  {
    Vote.StringOrder();
    if ss != [] { Vote.WinnerUnique(Less, multiset(ss), v, w); }
  }

  lemma NameDetermined(tx: Text, ss: seq<string>, fields: seq<string>, searched: string, a: string, b: string)
    requires NamedByVote(tx, ss, fields, searched, a) && NamedByVote(tx, ss, fields, searched, b)
    ensures a == b
  {
    var v :| WinsAmong(ss, v) && a == OrElse(PickOriginal(tx, fields, v), searched);
    var w :| WinsAmong(ss, w) && b == OrElse(PickOriginal(tx, fields, w), searched);
    WinsAmongUnique(ss, v, w);
  }

  lemma YearDetermined(ys: seq<int>, a: int, b: int)
    requires WinsAmongYears(ys, a) && WinsAmongYears(ys, b)
    ensures a == b
  {
    assert Vote.StrictTotal(Vote.OlderWins);
    if ys != [] { Vote.WinnerUnique(Vote.OlderWins, multiset(ys), a, b); }
  }

  /** The vote is determined by the answers: no map iteration order shows through. */
  lemma VoteDetermined(tx: Text, artist: string, title: string, rs: seq<Answer>, a: Answer, b: Answer)
    requires IsVote(tx, artist, title, rs, a) && IsVote(tx, artist, title, rs, b)
    ensures a == b
  {
    NameDetermined(tx, Normals(tx, ArtistOf, rs), Originals(ArtistOf, rs), artist, a.artist, b.artist);
    NameDetermined(tx, Normals(tx, TitleOf, rs), Originals(TitleOf, rs), title, a.title, b.title);
    YearDetermined(Years(rs), a.year, b.year);
  }

  /** The aggregation loop. */
  method Gather(tx: Text, rs: seq<Answer>)
    returns (artists: seq<string>, titles: seq<string>, years: seq<int>, apples: seq<string>, artworks: seq<string>)
    ensures artists == Normals(tx, ArtistOf, rs) && titles == Normals(tx, TitleOf, rs) && years == Years(rs)
    ensures apples == Apples(rs) && artworks == Artworks(rs)
  {
    artists, titles, years, apples, artworks := [], [], [], [], [];
    var i := 0;
    while i < |rs|
      invariant 0 <= i <= |rs|
      invariant artists == Normals(tx, ArtistOf, rs[..i]) && titles == Normals(tx, TitleOf, rs[..i])
      invariant years == Years(rs[..i]) && apples == Apples(rs[..i]) && artworks == Artworks(rs[..i])
    {
      var r := rs[i];
      assert rs[..i + 1][..i] == rs[..i];
      if r.artist != "" { artists := artists + [tx.norm(r.artist)]; }
      if r.title != "" { titles := titles + [tx.norm(r.title)]; }
      if r.year != 0 { years := years + [r.year]; }
      if r.apple != "" { apples := apples + [r.apple]; }
      if r.artwork != "" { artworks := artworks + [r.artwork]; }
      i := i + 1;
    }
    assert rs[..|rs|] == rs;
  }

  /** The aggregation and its votes over maps in arbitrary order: the result is the one vote there is. */
  method Aggregate(tx: Text, artist: string, title: string, rs: seq<Answer>) returns (out: Answer)
    ensures out == Elect(tx, artist, title, rs)
  {
    var artists, titles, years, apples, artworks := Gather(tx, rs);
    var artistFinal := Vote.ChooseMostCommon(artists);
    var titleFinal := Vote.ChooseMostCommon(titles);
    var yearFinal := Vote.ChooseMostCommonInt(years);
    var artistOut := PickOriginal(tx, Originals(ArtistOf, rs), artistFinal);
    if artistOut == "" { artistOut := artist; }
    var titleOut := PickOriginal(tx, Originals(TitleOf, rs), titleFinal);
    if titleOut == "" { titleOut := title; }
    out := Answer(artistOut, titleOut, yearFinal, if apples == [] then "" else apples[0], PreferredArtwork(artworks));
    WinsAmongUnique(artists, artistFinal, Elected(artists));
    WinsAmongUnique(titles, titleFinal, Elected(titles));
    YearDetermined(years, yearFinal, ElectedYear(years));
  }

  // ---------------------------------------------------------------- the order of arrival

  lemma {:induction false} NormalsConcat(tx: Text, field: Field, rs: seq<Answer>, more: seq<Answer>)
    ensures Normals(tx, field, rs + more) == Normals(tx, field, rs) + Normals(tx, field, more)
  {
    if more == [] {
      assert rs + more == rs;
    } else {
      assert (rs + more)[..|rs + more| - 1] == rs + more[..|more| - 1];
      NormalsConcat(tx, field, rs, more[..|more| - 1]);
    }
  }

  lemma {:induction false} YearsConcat(rs: seq<Answer>, more: seq<Answer>)
    ensures Years(rs + more) == Years(rs) + Years(more)
  {
    if more == [] {
      assert rs + more == rs;
    } else {
      assert (rs + more)[..|rs + more| - 1] == rs + more[..|more| - 1];
      YearsConcat(rs, more[..|more| - 1]);
    }
  }

  /** Moving one answer to the end. */
  lemma OneMoved(tx: Text, field: Field, a: seq<Answer>, x: Answer, b: seq<Answer>)
    ensures multiset(Normals(tx, field, a + [x] + b)) == multiset(Normals(tx, field, a + b + [x]))
    ensures multiset(Years(a + [x] + b)) == multiset(Years(a + b + [x]))
  {
    NormalsConcat(tx, field, a + [x], b);
    NormalsConcat(tx, field, a, [x]);
    NormalsConcat(tx, field, a + b, [x]);
    NormalsConcat(tx, field, a, b);
    YearsConcat(a + [x], b);
    YearsConcat(a, [x]);
    YearsConcat(a + b, [x]);
    YearsConcat(a, b);
  }

  lemma OneLess<T>(init: seq<T>, x: T, a: seq<T>, b: seq<T>)
    requires multiset(init + [x]) == multiset(a + [x] + b)
    ensures multiset(init) == multiset(a + b)
  {
    assert multiset(init + [x]) == multiset(init) + multiset{x};
    assert multiset(a + [x] + b) == multiset(a + b) + multiset{x};
    assert multiset(init) == multiset(init + [x]) - multiset{x};
  }

  lemma {:induction false} SameBallots(tx: Text, field: Field, rs: seq<Answer>, qs: seq<Answer>)
    requires multiset(rs) == multiset(qs)
    ensures multiset(Normals(tx, field, rs)) == multiset(Normals(tx, field, qs)) && multiset(Years(rs)) == multiset(Years(qs))
    decreases |rs|
  {
    assert |multiset(rs)| == |rs| && |multiset(qs)| == |qs|;
    if rs != [] {
      var init, x := rs[..|rs| - 1], rs[|rs| - 1];
      assert rs == init + [x];
      assert x in multiset(qs);
      var i :| 0 <= i < |qs| && qs[i] == x;
      var a, b := qs[..i], qs[i + 1..];
      assert qs == a + [x] + b;
      OneLess(init, x, a, b);
      SameBallots(tx, field, init, a + b);
      OneMoved(tx, field, a, x, b);
      NormalsConcat(tx, field, init, [x]);
      NormalsConcat(tx, field, a + b, [x]);
      YearsConcat(init, [x]);
      YearsConcat(a + b, [x]);
    }
  }

  lemma ElectedByBallots(ss: seq<string>, ts: seq<string>)
    requires multiset(ss) == multiset(ts)
    ensures Elected(ss) == Elected(ts)
  {
    assert |multiset(ss)| == |ss| && |multiset(ts)| == |ts|;
    assert WinsAmong(ts, Elected(ss));
    WinsAmongUnique(ts, Elected(ss), Elected(ts));
  }

  lemma ElectedYearByBallots(ys: seq<int>, zs: seq<int>)
    requires multiset(ys) == multiset(zs)
    ensures ElectedYear(ys) == ElectedYear(zs)
  {
    assert |multiset(ys)| == |ys| && |multiset(zs)| == |zs|;
    assert WinsAmongYears(zs, ElectedYear(ys));
    YearDetermined(zs, ElectedYear(ys), ElectedYear(zs));
  }

  /** The order in which the providers answer does not change which normal form or which year is elected. */
  lemma ArrivalOrderFree(tx: Text, rs: seq<Answer>, qs: seq<Answer>)
    requires multiset(rs) == multiset(qs)
    ensures Elected(Normals(tx, ArtistOf, rs)) == Elected(Normals(tx, ArtistOf, qs))
    ensures Elected(Normals(tx, TitleOf, rs)) == Elected(Normals(tx, TitleOf, qs))
    ensures ElectedYear(Years(rs)) == ElectedYear(Years(qs))
  {
    SameBallots(tx, ArtistOf, rs, qs);
    SameBallots(tx, TitleOf, rs, qs);
    ElectedByBallots(Normals(tx, ArtistOf, rs), Normals(tx, ArtistOf, qs));
    ElectedByBallots(Normals(tx, TitleOf, rs), Normals(tx, TitleOf, qs));
    ElectedYearByBallots(Years(rs), Years(qs));
  }

  // ---------------------------------------------------------------- stopping at the quorum

  function Repeated<T>(x: T, n: nat): (xs: seq<T>)
    ensures |xs| == n && forall i :: 0 <= i < n ==> xs[i] == x
  {
    if n == 0 then [] else Repeated(x, n - 1) + [x]
  }

  lemma {:induction false} RepeatedCounts<T>(x: T, n: nat)
    ensures multiset(Repeated(x, n)) == multiset{}[x := n]
  {
    if n > 0 { RepeatedCounts(x, n - 1); }
  }

  lemma {:induction false} AtMostOneEach(tx: Text, field: Field, rs: seq<Answer>)
    ensures |Normals(tx, field, rs)| <= |rs|
  {
    if rs != [] { AtMostOneEach(tx, field, rs[..|rs| - 1]); }
  }

  lemma {:induction false} YearsAtMostOneEach(rs: seq<Answer>)
    ensures |Years(rs)| <= |rs|
  {
    if rs != [] { YearsAtMostOneEach(rs[..|rs| - 1]); }
  }

  lemma QuorumElects(n: string, more: seq<string>)
    requires |more| <= PROVIDERS - QUORUM
    ensures Elected(Repeated(n, QUORUM) + more) == n
  {
    var ss := Repeated(n, QUORUM) + more;
    Vote.StringOrder();
    Vote.UnanimousQuorumDecides(Less, PROVIDERS, n);
    RepeatedCounts(n, QUORUM);
    assert |multiset(more)| == |more|;
    assert Vote.IsWinner(Less, multiset{}[n := QUORUM] + multiset(more), n);
    WinsAmongUnique(ss, n, Elected(ss));
  }

  lemma QuorumElectsYear(n: int, more: seq<int>)
    requires |more| <= PROVIDERS - QUORUM
    ensures ElectedYear(Repeated(n, QUORUM) + more) == n
  {
    var ys := Repeated(n, QUORUM) + more;
    Vote.UnanimousQuorumDecides(Vote.OlderWins, PROVIDERS, n);
    RepeatedCounts(n, QUORUM);
    assert |multiset(more)| == |more|;
    assert Vote.IsWinner(Vote.OlderWins, multiset{}[n := QUORUM] + multiset(more), n);
    YearDetermined(ys, n, ElectedYear(ys));
  }

  lemma {:induction false} AllGive(tx: Text, field: Field, rs: seq<Answer>)
    requires |Normals(tx, field, rs)| == |rs|
    ensures forall i :: 0 <= i < |rs| ==> field(rs[i]) != "" && Normals(tx, field, rs)[i] == tx.norm(field(rs[i]))
  {
    if rs != [] {
      AtMostOneEach(tx, field, rs[..|rs| - 1]);
      AllGive(tx, field, rs[..|rs| - 1]);
      assert forall i :: 0 <= i < |rs| - 1 ==> rs[..|rs| - 1][i] == rs[i];
    }
  }

  /** A quorum that agrees on a name, whatever it says of the rest, settles it: no answer still to come could
      have changed the normal form elected, nor the spelling handed out. */
  lemma NameSettled(tx: Text, field: Field, rs: seq<Answer>, more: seq<Answer>, n: string, searched: string)
    requires |rs| == QUORUM && Normals(tx, field, rs) == Repeated(n, QUORUM) && |more| <= PROVIDERS - QUORUM
    ensures Elected(Normals(tx, field, rs + more)) == n == Elected(Normals(tx, field, rs))
    ensures ElectName(tx, field, searched, rs + more) == field(rs[0]) == ElectName(tx, field, searched, rs)
  {
    NormalsConcat(tx, field, rs, more);
    AtMostOneEach(tx, field, more);
    QuorumElects(n, Normals(tx, field, more));
    QuorumElects(n, []);
    assert Repeated(n, QUORUM) + [] == Repeated(n, QUORUM);
    AllGive(tx, field, rs);
    FirstPicked(tx, field, rs + more, n);
    FirstPicked(tx, field, rs, n);
  }

  lemma FirstPicked(tx: Text, field: Field, rs: seq<Answer>, n: string)
    requires rs != [] && tx.norm(field(rs[0])) == n
    ensures PickOriginal(tx, Originals(field, rs), n) == field(rs[0])
  {
  }

  /** A quorum that agrees on the year settles the year. */
  lemma YearSettled(rs: seq<Answer>, more: seq<Answer>, y: int)
    requires Years(rs) == Repeated(y, QUORUM) && |more| <= PROVIDERS - QUORUM
    ensures ElectedYear(Years(rs + more)) == y == ElectedYear(Years(rs))
  {
    YearsConcat(rs, more);
    YearsAtMostOneEach(more);
    QuorumElectsYear(y, Years(more));
    QuorumElectsYear(y, []);
    assert Repeated(y, QUORUM) + [] == Repeated(y, QUORUM);
  }

  /** There is always a normal form the vote would prefer on a tie. */
  ghost predicate Unbounded(tx: Text) {
    forall w :: w == "" || tx.norm(w) == w ==> Beaten(tx, w)
  }

  ghost predicate Beaten(tx: Text, w: string) { exists v :: v != "" && Less(w, tx.norm(v)) }

  lemma {:induction false} LongerIsLarger(w: string, c: char)
    ensures Less(w, w + [c])
  {
    if w != "" {
      assert (w + [c])[1..] == w[1..] + [c];
      LongerIsLarger(w[1..], c);
    }
  }

  /** normalizeKey has that property. */
  lemma NormalizeKeyUnbounded(lower: char -> char)
    requires IsLowering(lower)
    ensures Unbounded(TextOf(lower))
  {
    var tx := TextOf(lower);
    forall w | w == "" || tx.norm(w) == w ensures Beaten(tx, w) {
      var v := w + ['a'];
      LongerIsLarger(w, 'a');
      if w != "" { NormalExact(lower, w); }
      forall i | 0 <= i < |v| ensures TidyAt(lower, v, i) {
        if i < |w| { assert TidyAt(lower, w, i) && v[i] == w[i]; }
      }
      NormalExact(lower, v);
      assert tx.norm(v) == v;
    }
  }

  lemma CountsMissing<T>(ss: seq<T>, w: T)
    requires |ss| <= QUORUM && ss != Repeated(w, QUORUM)
    ensures multiset(ss)[w] < QUORUM
  {
    if |ss| == QUORUM {
      var i :| 0 <= i < QUORUM && ss[i] != w;
      var rest := ss[..i] + ss[i + 1..];
      assert ss == ss[..i] + [ss[i]] + ss[i + 1..];
      assert multiset(ss) == multiset(rest) + multiset{ss[i]};
      Vote.CountAtMost(multiset(rest), w);
      assert |multiset(rest)| == |rest|;
    } else {
      Vote.CountAtMost(multiset(ss), w);
      assert |multiset(ss)| == |ss|;
    }
  }

  /** Two more votes for a larger name overturn a name that not the whole quorum gave. */
  lemma Overturned(ss: seq<string>, x: string)
    requires |ss| <= QUORUM && ss != Repeated(Elected(ss), QUORUM) && Less(Elected(ss), x)
    ensures Elected(ss + [x, x]) != Elected(ss)
  {
    var w := Elected(ss);
    CountsMissing(ss, w);
    Vote.StringOrder();
    Trichotomy(w, x);
    var ballots := multiset(ss + [x, x]);
    assert ballots == multiset(ss) + multiset{x, x};
    assert ballots[x] >= 2 >= ballots[w];
    if ballots[w] > 0 { assert !Vote.Loses(Less, ballots, x, w); }
  }

  /** Whatever two more providers say of a field, the normal form elected for it stays the same. */
  ghost predicate SafeToStop(tx: Text, ss: seq<string>) {
    forall more: seq<string> :: |more| <= PROVIDERS - QUORUM && (forall m :: m in more ==> IsNormalForm(tx, m)) ==>
      Elected(ss + more) == Elected(ss)
  }

  /** What some provider can say, normalised. */
  ghost predicate IsNormalForm(tx: Text, m: string) { exists v :: v != "" && tx.norm(v) == m }

  lemma AgreedIsSafe(tx: Text, ss: seq<string>, n: string)
    requires ss == Repeated(n, QUORUM)
    ensures SafeToStop(tx, ss)
  {
    QuorumElects(n, []);
    assert ss + [] == ss;
    forall more: seq<string> | |more| <= PROVIDERS - QUORUM ensures Elected(ss + more) == Elected(ss) {
      QuorumElects(n, more);
    }
  }

  lemma SplitIsUnsafe(tx: Text, ss: seq<string>)
    requires |ss| <= QUORUM && ss != Repeated(Elected(ss), QUORUM) && Beaten(tx, Elected(ss))
    ensures !SafeToStop(tx, ss)
  {
    var v :| v != "" && Less(Elected(ss), tx.norm(v));
    var x := tx.norm(v);
    Overturned(ss, x);
    var more := [x, x];
    assert IsNormalForm(tx, x);
    assert forall m :: m in more ==> m == x;
  }

  /** Exactly when stopping at the quorum is safe for a name: when the whole quorum gives it. */
  lemma SafeToStopExactly(tx: Text, field: Field, rs: seq<Answer>)
    requires |rs| == QUORUM && Idempotent(tx) && Unbounded(tx)
    ensures var ss := Normals(tx, field, rs); SafeToStop(tx, ss) <==> ss == Repeated(Elected(ss), QUORUM)
  {
    var ss := Normals(tx, field, rs);
    AtMostOneEach(tx, field, rs);
    if ss == Repeated(Elected(ss), QUORUM) {
      AgreedIsSafe(tx, ss, Elected(ss));
    } else {
      WinnerIsNormal(tx, field, rs);
      SplitIsUnsafe(tx, ss);
    }
  }

  /** Whatever years two more providers give, the year elected stays the same. */
  ghost predicate YearSafeToStop(ys: seq<int>) {
    forall more: seq<int> :: |more| <= PROVIDERS - QUORUM && 0 !in more ==> ElectedYear(ys + more) == ElectedYear(ys)
  }

  lemma YearOverturned(ys: seq<int>, x: int)
    requires |ys| <= QUORUM && ys != Repeated(ElectedYear(ys), QUORUM) && x < ElectedYear(ys)
    ensures ElectedYear(ys + [x, x]) != ElectedYear(ys)
  {
    var y := ElectedYear(ys);
    CountsMissing(ys, y);
    var ballots := multiset(ys + [x, x]);
    assert ballots == multiset(ys) + multiset{x, x};
    assert ballots[x] >= 2 >= ballots[y];
    if ballots[y] > 0 { assert !Vote.Loses(Vote.OlderWins, ballots, x, y); }
  }

  lemma AgreedYearIsSafe(ys: seq<int>, y: int)
    requires ys == Repeated(y, QUORUM)
    ensures YearSafeToStop(ys)
  {
    QuorumElectsYear(y, []);
    assert ys + [] == ys;
    forall more: seq<int> | |more| <= PROVIDERS - QUORUM ensures ElectedYear(ys + more) == ElectedYear(ys) {
      QuorumElectsYear(y, more);
    }
  }

  lemma SplitYearIsUnsafe(ys: seq<int>)
    requires |ys| <= QUORUM && ys != Repeated(ElectedYear(ys), QUORUM)
    ensures !YearSafeToStop(ys)
  {
    var x := if ElectedYear(ys) == 1 then -1 else ElectedYear(ys) - 1;
    YearOverturned(ys, x);
    var more := [x, x];
    assert 0 !in more;
  }

  /** Exactly when stopping at the quorum is safe for the year: when the whole quorum gives it. */
  lemma YearSafeToStopExactly(rs: seq<Answer>)
    requires |rs| == QUORUM
    ensures var ys := Years(rs); YearSafeToStop(ys) <==> ys == Repeated(ElectedYear(ys), QUORUM)
  {
    var ys := Years(rs);
    YearsAtMostOneEach(rs);
    if ys == Repeated(ElectedYear(ys), QUORUM) {
      AgreedYearIsSafe(ys, ElectedYear(ys));
    } else {
      SplitYearIsUnsafe(ys);
    }
  }

  lemma {:induction false} NormalsAreNormal(tx: Text, field: Field, rs: seq<Answer>)
    ensures forall m :: m in Normals(tx, field, rs) ==> IsNormalForm(tx, m)
  {
    if rs != [] { NormalsAreNormal(tx, field, rs[..|rs| - 1]); }
  }

  lemma WinnerIsNormal(tx: Text, field: Field, rs: seq<Answer>)
    requires Idempotent(tx)
    ensures var ss := Normals(tx, field, rs); ss == [] || tx.norm(Elected(ss)) == Elected(ss)
  {
    var ss := Normals(tx, field, rs);
    NormalsAreNormal(tx, field, rs);
    if ss != [] {
      assert Elected(ss) in multiset(ss);
      assert Elected(ss) in ss;
      var v :| v != "" && tx.norm(v) == Elected(ss);
    }
  }
}
