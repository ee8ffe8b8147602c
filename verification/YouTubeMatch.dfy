/** The video search of internal/youtube/youtube.go: scoring a search result against a track, picking
    the best one, and the two passes with their cache. */
module YouTubeMatch {
  import opened Strings
  import opened TitleText

  /** filters.json, comments stripped. */
  datatype Filters = Filters(unwanted: seq<string>, suffixes: seq<string>, markers: seq<string>)

  /** What both passes know: normalize, normalizeForMatch and the filters. */
  datatype Matcher = Matcher(norm: string -> string, fold: string -> string, filters: Filters)

  function MatcherOf(lower: char -> char, filters: Filters): Matcher {
    Matcher((s: string) => Normalize(lower, s), (s: string) => NormalizeForMatch(lower, s), filters)
  }

  /** Normal forms are free of the separator of the cache keys. */
  ghost predicate NoBars(m: Matcher) { forall s :: '|' !in m.norm(s) }

  lemma MatcherHasNoBars(lower: char -> char, filters: Filters)
    requires IsLowering(lower)
    ensures NoBars(MatcherOf(lower, filters))
  {
    forall s ensures '|' !in Normalize(lower, s) {
      NormalizeSettles(lower, s);
      assert Unpunctuated('|') == " ";
    }
  }

  datatype Item = Item(kind: string, id: string, title: string)

  const CONFIDENT := 7

  // ---------------------------------------------------------------- the title without its version

  function CoreTitle(s: string): string {
    if Index(s, " (") > 0 then s[..Index(s, " (")]
    else if Index(s, " [") > 0 then s[..Index(s, " [")]
    else if Index(s, " - ") > 0 then s[..Index(s, " - ")]
    else s
  }

  const SEPARATORS := [" (", " [", " - "]

  /** Nothing to cut: no separator, unless the title begins with it. */
  ghost predicate Uncut(s: string) {
    forall i :: 0 <= i < |SEPARATORS| ==> !Contains(s, SEPARATORS[i]) || SEPARATORS[i] <= s
  }

  ghost predicate NoSeparator(s: string) { forall i :: 0 <= i < |SEPARATORS| ==> !Contains(s, SEPARATORS[i]) }

  /** `sep` occurs in `s` where it can be cut. */
  ghost predicate CutsAt(s: string, sep: string) { Contains(s, sep) && !(sep <= s) }

  /** Which titles are left alone, and what is cut off the others: everything from the first occurrence of the first
      kind of separator that occurs, a leading one not counting. */
  lemma CoreTitleExact(s: string)
    ensures CoreTitle(s) == s <==> Uncut(s)
    ensures forall k :: 0 <= k < 3 && CutsAt(s, SEPARATORS[k]) && (forall j :: 0 <= j < k ==> !CutsAt(s, SEPARATORS[j])) ==>
      var n := |CoreTitle(s)|;
      0 < n && CoreTitle(s) == s[..n] && OccursAt(s, SEPARATORS[k], n) && forall i :: 0 <= i < n ==> !OccursAt(s, SEPARATORS[k], i)
  {
    IndexIsFirst(s, " (");
    IndexIsFirst(s, " [");
    IndexIsFirst(s, " - ");
    assert s[0..] == s;
    assert SEPARATORS[0] == " (" && SEPARATORS[1] == " [" && SEPARATORS[2] == " - ";
    assert forall k :: 0 <= k < 3 ==> (SEPARATORS[k] <= s <==> OccursAt(s, SEPARATORS[k], 0));
    assert forall k :: 0 <= k < 3 ==> (CutsAt(s, SEPARATORS[k]) <==> Index(s, SEPARATORS[k]) > 0);
  }

  /** What is cut off a text `t` without separators: all that is put behind it in round brackets, in square brackets
      when no round one follows, and behind a dash when no bracket follows and `t` does not end in another dash. */
  lemma VersionCut(t: string, x: string)
    requires t != "" && NoSeparator(t)
    ensures CoreTitle(t) == t && CoreTitle(t + " (" + x) == t
    ensures CoreTitle(t + " [" + x) == t <==> !Contains(x, " (")
    ensures CoreTitle(t + " - " + x) == t <==> DashCuts(t, x)
  {
    assert SEPARATORS[0] == " (" && SEPARATORS[1] == " [" && SEPARATORS[2] == " - ";
    PairBehind(t, ' ', '(', x);
    SquareCut(t, x);
    DashCut(t, x);
  }

  lemma SquareCut(t: string, x: string)
    requires t != "" && !Contains(t, " (") && !Contains(t, " [")
    ensures CoreTitle(t + " [" + x) == t <==> !Contains(x, " (")
  {
    PairBehind(t, ' ', '[', x);
    BracketSeen(t, x, '(');
    CutsElsewhere(t, t + " [" + x, " (");
  }

  lemma DashCut(t: string, x: string)
    requires t != "" && NoSeparator(t)
    ensures CoreTitle(t + " - " + x) == t <==> DashCuts(t, x)
  {
    assert SEPARATORS[0] == " (" && SEPARATORS[1] == " [" && SEPARATORS[2] == " - ";
    DashSeen(t, x, '(');
    DashSeen(t, x, '[');
    DashBehind(t, x);
    var s := t + " - " + x;
    CutsElsewhere(t, s, " (");
    CutsElsewhere(t, s, " [");
  }

  /** Where something else stands behind `t`, no separator is found right behind it. */
  lemma CutsElsewhere(t: string, s: string, sep: string)
    requires t < s && |sep| == 2 && !Contains(t, sep) && (|s| < |t| + 2 || s[|t| + 1] != sep[1])
    ensures Index(s, sep) != |t|
  {
    IndexIsFirst(s, sep);
    assert |s| >= |t| + 2 ==> s[|t|..][1] == s[|t| + 1];
  }

  predicate DashCuts(t: string, x: string) {
    !HasSuffix(t, " -") && !Contains(" " + x, " (") && !Contains(" " + x, " [")
  }

  lemma BracketSeen(t: string, x: string, b: char)
    requires b == '(' && !Contains(t, [' ', b])
    ensures Contains(t + " [" + x, [' ', b]) <==> Contains(x, [' ', b])
  {
    PairInSum(t, " [" + x, ' ', b);
    PairInSum(" [", x, ' ', b);
    IndexIsFirst(" [", [' ', b]);
    assert t + " [" + x == t + (" [" + x);
  }

  lemma DashSeen(t: string, x: string, b: char)
    requires b != ' ' && b != '-' && !Contains(t, [' ', b])
    ensures Contains(t + " - " + x, [' ', b]) <==> Contains(" " + x, [' ', b])
  {
    var y, z := " - " + x, " " + x;
    assert y == " -" + z && t + " - " + x == t + y;
    PairInSum(t, y, ' ', b);
    PairInSum(" -", z, ' ', b);
    PairOccurs(" -", ' ', b);
  }

  // ---------------------------------------------------------------- scoring

  /** The words of more than two characters. */
  function Long(ws: seq<string>): seq<string> {
    if ws == [] then [] else
    Long(ws[..|ws| - 1]) + if |ws[|ws| - 1]| > 2 then [ws[|ws| - 1]] else []
  }

  function Matched(ws: seq<string>, video: set<string>): (n: nat)
    ensures n <= |ws|
  {
    if ws == [] then 0 else
    Matched(ws[..|ws| - 1], video) + if ws[|ws| - 1] in video then 1 else 0
  }

  function Held(video: string, markers: seq<string>): nat {
    if markers == [] then 0 else
    Held(video, markers[..|markers| - 1]) + if Contains(video, markers[|markers| - 1]) then 1 else 0
  }

  function WordSet(s: string): set<string> { set w | w in Fields(s) }

  predicate Foreign(video: string, title: string, artist: string, mark: string) {
    Contains(video, mark) && !Contains(title, mark) && !Contains(artist, mark)
  }

  /** The video says it is a version the track does not ask for. */
  predicate Disqualified(f: Filters, video: string, title: string, artist: string) {
    || (exists i :: 0 <= i < |f.unwanted| && Foreign(video, title, artist, f.unwanted[i]))
    || (exists i, j :: 0 <= i < |Fields(video)| && 0 <= j < |f.suffixes|
                       && MixWord(f.suffixes[j], Fields(video)[i], title, artist))
  }

  predicate MixWord(suffix: string, w: string, title: string, artist: string) {
    HasSuffix(w, suffix) && !Contains(title, w) && !Contains(artist, w)
  }

  /** How much of the title the video covers, in tenths, nothing below seven. */
  function Coverage(matched: nat, n: nat): (c: nat)
    requires matched <= n
    ensures c == 0 || CONFIDENT <= c <= 10
  {
    if n == 0 || 10 * matched < 7 * n then 0 else Tenths(matched, n)
  }

  function Tenths(matched: nat, n: nat): (t: nat)
    requires n > 0 && 7 * n <= 10 * matched <= 10 * n
    ensures CONFIDENT <= t <= 10
  {
    TenthsInRange(10 * matched, n);
    10 * matched / n
  }

  lemma TenthsInRange(x: nat, n: nat)
    requires n > 0 && CONFIDENT * n <= x <= 10 * n
    ensures CONFIDENT <= x / n <= 10
  {
    var q := x / n;
    assert q * n <= x < (q + 1) * n;
    if q > 10 { Grows(11, q, n); }
    if q < CONFIDENT { Grows(q + 1, CONFIDENT, n); }
  }

  lemma Grows(a: nat, b: nat, n: nat)
    requires a <= b
    ensures a * n <= b * n
  {
    assert b * n == a * n + (b - a) * n;
  }

  function Bonus(f: Filters, video: string, artist: string): (b: nat)
    ensures b <= 5
  {
    var held := Held(video, f.markers);
    (if Matched(Long(Fields(artist)), WordSet(video)) > 0 then 2 else 0) + if held > 3 then 3 else held
  }

  /** The score of normalised texts with no version ruled out. */
  function Relaxed(f: Filters, video: string, core: string, artist: string): nat {
    var words := Long(Fields(core));
    var c := Coverage(Matched(words, WordSet(video)), |words|);
    if c == 0 then 0 else c + Bonus(f, video, artist)
  }

  function Score(m: Matcher, videoTitle: string, artist: string, title: string, relaxed: bool): nat {
    var video := m.fold(videoTitle);
    var t := m.fold(title);
    var a := m.fold(artist);
    if !relaxed && Disqualified(m.filters, video, t, a) then 0
    else Relaxed(m.filters, video, m.fold(CoreTitle(title)), a)
  }

  /** Exactly the words of more than two characters, as often and in the order they come. */
  lemma {:induction false} LongConcat(a: seq<string>, b: seq<string>)
    ensures Long(a + b) == Long(a) + Long(b)
  {
    if b == [] {
      assert a + b == a;
    } else {
      var n := |b| - 1;
      LongConcat(a, b[..n]);
      assert (a + b)[..|a + b| - 1] == a + b[..n] && (a + b)[|a + b| - 1] == b[n];
    }
  }

  lemma LongOne(w: string)
    ensures Long([w]) == if |w| > 2 then [w] else []
  {
    assert [w][..0] == [];
  }

  lemma {:induction false} LongMember(ws: seq<string>, w: string)
    ensures w in Long(ws) <==> w in ws && |w| > 2
  {
    if ws != [] {
      LongMember(ws[..|ws| - 1], w);
      assert ws == ws[..|ws| - 1] + [ws[|ws| - 1]];
    }
  }

  method MeaningfulWords(s: string) returns (out: seq<string>)
    ensures out == Long(Fields(s))
    ensures forall w :: w in out <==> w in Fields(s) && |w| > 2
  {
    var ws := Fields(s);
    out := [];
    for i := 0 to |ws|
      invariant out == Long(ws[..i])
    {
      assert ws[..i + 1][..i] == ws[..i];
      if |ws[i]| > 2 { out := out + [ws[i]]; }
    }
    assert ws[..|ws|] == ws;
    forall w ensures w in out <==> w in ws && |w| > 2 { LongMember(ws, w); }
  }

  method WordSetOf(s: string) returns (words: set<string>)
    ensures words == WordSet(s) && forall w :: w in words <==> w in Fields(s)
  {
    var ws := Fields(s);
    words := {};
    for i := 0 to |ws|
      invariant words == set w | w in ws[..i]
    {
      words := words + {ws[i]};
    }
    assert ws[..|ws|] == ws;
  }

  /** What disqualifies a video: an unwanted mark, or a word with a mix suffix, that neither title nor artist holds. */
  lemma DisqualifiedExactly(f: Filters, video: string, title: string, artist: string)
    ensures Disqualified(f, video, title, artist) <==>
      || (exists mark :: mark in f.unwanted && Contains(video, mark) && !Contains(title, mark) && !Contains(artist, mark))
      || (exists w, x :: w in Fields(video) && x in f.suffixes && HasSuffix(w, x) && !Contains(title, w) && !Contains(artist, w))
  {
    if i :| 0 <= i < |f.unwanted| && Foreign(video, title, artist, f.unwanted[i]) { assert f.unwanted[i] in f.unwanted; }
    if i, j :| 0 <= i < |Fields(video)| && 0 <= j < |f.suffixes| && MixWord(f.suffixes[j], Fields(video)[i], title, artist) {
      assert f.suffixes[j] in f.suffixes && Fields(video)[i] in Fields(video);
    }
  }

  method SaysOtherVersion(f: Filters, video: string, title: string, artist: string) returns (yes: bool)
    ensures yes == Disqualified(f, video, title, artist)
  {
    for i := 0 to |f.unwanted|
      invariant forall k :: 0 <= k < i ==> !Foreign(video, title, artist, f.unwanted[k])
    {
      if Foreign(video, title, artist, f.unwanted[i]) { return true; }
    }
    var ws := Fields(video);
    for i := 0 to |ws|
      invariant forall k, j :: 0 <= k < i && 0 <= j < |f.suffixes| ==> !MixWord(f.suffixes[j], ws[k], title, artist)
    {
      for j := 0 to |f.suffixes|
        invariant forall k :: 0 <= k < j ==> !MixWord(f.suffixes[k], ws[i], title, artist)
      {
        if MixWord(f.suffixes[j], ws[i], title, artist) { return true; }
      }
    }
    return false;
  }

  method ScoreMatch(m: Matcher, videoTitle: string, artist: string, title: string, relaxed: bool) returns (score: nat)
    ensures score == Score(m, videoTitle, artist, title, relaxed)
  {
    var video := m.fold(videoTitle);
    var t := m.fold(title);
    var a := m.fold(artist);
    var core := m.fold(CoreTitle(title));
    if !relaxed {
      var other := SaysOtherVersion(m.filters, video, t, a);
      if other { return 0; }
    }
    score := RelaxedScore(m.filters, video, core, a);
  }

  method CountMatched(ws: seq<string>, video: set<string>) returns (matched: nat)
    ensures matched == Matched(ws, video)
  {
    matched := 0;
    for i := 0 to |ws|
      invariant matched == Matched(ws[..i], video)
    {
      assert ws[..i + 1][..i] == ws[..i];
      if ws[i] in video { matched := matched + 1; }
    }
    assert ws[..|ws|] == ws;
  }

  method CountHeld(video: string, markers: seq<string>) returns (held: nat)
    ensures held == Held(video, markers)
  {
    held := 0;
    for i := 0 to |markers|
      invariant held == Held(video, markers[..i])
    {
      assert markers[..i + 1][..i] == markers[..i];
      if Contains(video, markers[i]) { held := held + 1; }
    }
    assert markers[..|markers|] == markers;
  }

  method RelaxedScore(f: Filters, video: string, core: string, artist: string) returns (score: nat)
    ensures score == Relaxed(f, video, core, artist)
  {
    var vidWords := WordSetOf(video);
    var titleWords := MeaningfulWords(core);
    var artistWords := MeaningfulWords(artist);
    if |titleWords| == 0 { return 0; }
    var matched := CountMatched(titleWords, vidWords);
    if 10 * matched < 7 * |titleWords| { return 0; }
    score := Tenths(matched, |titleWords|);
    var met := AnyIn(artistWords, vidWords);
    if met { score := score + 2; }
    var bonus := CountHeld(video, f.markers);
    if bonus > 3 { bonus := 3; }
    score := score + bonus;
  }

  method AnyIn(ws: seq<string>, video: set<string>) returns (met: bool)
    ensures met <==> Matched(ws, video) > 0
  {
    for i := 0 to |ws|
      invariant Matched(ws[..i], video) == 0
    {
      assert ws[..i + 1][..i] == ws[..i];
      if ws[i] in video {
        MatchedGrows(ws, video, i + 1);
        return true;
      }
    }
    assert ws[..|ws|] == ws;
    return false;
  }

  lemma {:induction false} MatchedGrows(ws: seq<string>, video: set<string>, i: nat)
    requires i <= |ws|
    ensures Matched(ws[..i], video) <= Matched(ws, video)
  {
    if i < |ws| {
      MatchedGrows(ws[..|ws| - 1], video, i);
      assert ws[..|ws| - 1][..i] == ws[..i];
    } else {
      assert ws[..i] == ws;
    }
  }

  /** Ruling versions out only ever lowers a score to zero, and a score that is not zero is a
      confident one: between 7 and 15. */
  lemma StrictOrNothing(m: Matcher, videoTitle: string, artist: string, title: string)
    ensures var strict := Score(m, videoTitle, artist, title, false);
      var relaxed := Score(m, videoTitle, artist, title, true);
      && (strict == 0 || strict == relaxed)
      && (relaxed == 0 || CONFIDENT <= relaxed <= 15)
  {
  }

  /** The words of the title, wherever they stand in it, that the video has too. */
  ghost function Hits(ws: seq<string>, video: string): set<int> {
    set i | 0 <= i < |ws| && ws[i] in Fields(video)
  }

  lemma {:induction false} MatchedCountsHits(ws: seq<string>, video: string)
    ensures Matched(ws, WordSet(video)) == |Hits(ws, video)|
  {
    if ws != [] {
      var n := |ws| - 1;
      MatchedCountsHits(ws[..n], video);
      assert Hits(ws, video) == Hits(ws[..n], video) + if ws[n] in Fields(video) then {n} else {};
    }
  }

  /** When a video scores at all: the title has a word to look for, seven tenths of its words occur in
      the video's title, and a strict comparison does not rule the video out. */
  lemma ScoresExactly(m: Matcher, videoTitle: string, artist: string, title: string, relaxed: bool)
    ensures var video := m.fold(videoTitle);
      var words := Long(Fields(m.fold(CoreTitle(title))));
      Score(m, videoTitle, artist, title, relaxed) > 0 <==>
        && words != [] && 10 * |Hits(words, video)| >= 7 * |words|
        && (relaxed || !Disqualified(m.filters, video, m.fold(title), m.fold(artist)))
  {
    var video := m.fold(videoTitle);
    var words := Long(Fields(m.fold(CoreTitle(title))));
    MatchedCountsHits(words, video);
    CoverageExactly(Matched(words, WordSet(video)), |words|);
  }

  lemma CoverageExactly(matched: nat, n: nat)
    requires matched <= n
    ensures Coverage(matched, n) > 0 <==> n > 0 && 10 * matched >= 7 * n
  {
  }

  /** Without ruling versions out, a video scores for a title as for the title without what it says in brackets or
      behind a dash. */
  lemma VersionsDoNotCount(m: Matcher, video: string, artist: string, t: string, x: string)
    requires t != "" && NoSeparator(t)
    ensures Score(m, video, artist, t + " (" + x + ")", true) == Score(m, video, artist, t, true)
    ensures !Contains(x, " (") ==> Score(m, video, artist, t + " [" + x + "]", true) == Score(m, video, artist, t, true)
    ensures DashCuts(t, x) ==> Score(m, video, artist, t + " - " + x, true) == Score(m, video, artist, t, true)
  {
    RoundCore(t, x);
    if !Contains(x, " (") { SquareCore(t, x); }
    VersionCut(t, x);
    SameCore(m, video, artist, t + " (" + x + ")", t);
    if !Contains(x, " (") { SameCore(m, video, artist, t + " [" + x + "]", t); }
    if DashCuts(t, x) { SameCore(m, video, artist, t + " - " + x, t); }
  }

  lemma SameCore(m: Matcher, video: string, artist: string, a: string, b: string)
    requires CoreTitle(a) == CoreTitle(b)
    ensures Score(m, video, artist, a, true) == Score(m, video, artist, b, true)
  {
  }

  lemma RoundCore(t: string, x: string)
    requires t != "" && NoSeparator(t)
    ensures CoreTitle(t + " (" + x + ")") == t
  {
    VersionCut(t, x + ")");
    assert t + " (" + x + ")" == t + " (" + (x + ")");
  }

  lemma SquareCore(t: string, x: string)
    requires t != "" && NoSeparator(t) && !Contains(x, " (")
    ensures CoreTitle(t + " [" + x + "]") == t
  {
    PairInSum(x, "]", ' ', '(');
    PairOccurs("]", ' ', '(');
    VersionCut(t, x + "]");
    assert t + " [" + x + "]" == t + " [" + (x + "]");
  }

  /** The markers, wherever they stand in the list, that the video's title holds. */
  ghost function MarkersIn(video: string, markers: seq<string>): set<int> {
    set i | 0 <= i < |markers| && Contains(video, markers[i])
  }

  lemma {:induction false} HeldCounts(video: string, markers: seq<string>)
    ensures Held(video, markers) == |MarkersIn(video, markers)|
  {
    if markers != [] {
      var n := |markers| - 1;
      HeldCounts(video, markers[..n]);
      assert MarkersIn(video, markers) == MarkersIn(video, markers[..n]) + if Contains(video, markers[n]) then {n} else {};
    }
  }

  ghost predicate ArtistNamed(video: string, artist: string) {
    exists w :: w in Fields(artist) && |w| > 2 && w in Fields(video)
  }

  lemma ArtistMatched(video: string, artist: string)
    ensures Matched(Long(Fields(artist)), WordSet(video)) > 0 <==> ArtistNamed(video, artist)
  {
    SomeMatched(Long(Fields(artist)), WordSet(video));
    forall w ensures w in Long(Fields(artist)) <==> w in Fields(artist) && |w| > 2 { LongMember(Fields(artist), w); }
    assert forall w :: w in WordSet(video) <==> w in Fields(video);
  }

  lemma {:induction false} SomeMatched(ws: seq<string>, video: set<string>)
    ensures Matched(ws, video) > 0 <==> exists w :: w in ws && w in video
  {
    if ws != [] {
      var n := |ws| - 1;
      SomeMatched(ws[..n], video);
      assert ws == ws[..n] + [ws[n]];
    }
  }

  lemma BonusValue(f: Filters, video: string, artist: string)
    ensures var n := |MarkersIn(video, f.markers)|;
      Bonus(f, video, artist) == (if ArtistNamed(video, artist) then 2 else 0) + if n > 3 then 3 else n
  {
    HeldCounts(video, f.markers);
    ArtistMatched(video, artist);
  }

  lemma TenthsValue(matched: nat, n: nat)
    requires matched <= n && Coverage(matched, n) > 0
    ensures Coverage(matched, n) * n <= 10 * matched < (Coverage(matched, n) + 1) * n
  {
    var q := 10 * matched / n;
    assert q * n <= 10 * matched < (q + 1) * n;
  }

  lemma RelaxedValue(f: Filters, video: string, core: string, artist: string) returns (tenths: nat)
    requires Relaxed(f, video, core, artist) > 0
    ensures var words := Long(Fields(core));
      && Relaxed(f, video, core, artist) == tenths + Bonus(f, video, artist)
      && tenths * |words| <= 10 * |Hits(words, video)| < (tenths + 1) * |words|
  {
    var words := Long(Fields(core));
    var n := |words|;
    MatchedCountsHits(words, video);
    var matched := Matched(words, WordSet(video));
    tenths := Coverage(matched, n);
    TenthsValue(matched, n);
  }

  /** What a score that is not zero is made of: the share of the title's words the video has, in tenths rounded down,
      two for a word of the artist, and one for each marker up to three. */
  lemma ScoreValue(m: Matcher, videoTitle: string, artist: string, title: string, relaxed: bool) returns (tenths: nat)
    requires Score(m, videoTitle, artist, title, relaxed) > 0
    ensures var video := m.fold(videoTitle); var words := Long(Fields(m.fold(CoreTitle(title))));
      tenths * |words| <= 10 * |Hits(words, video)| < (tenths + 1) * |words|
    ensures var video := m.fold(videoTitle); var markers := |MarkersIn(video, m.filters.markers)|;
      Score(m, videoTitle, artist, title, relaxed)
      == tenths + (if ArtistNamed(video, m.fold(artist)) then 2 else 0) + if markers > 3 then 3 else markers
  {
    var video := m.fold(videoTitle);
    BonusValue(m.filters, video, m.fold(artist));
    tenths := RelaxedValue(m.filters, video, m.fold(CoreTitle(title)), m.fold(artist));
  }

  /** A title of short words only is matched by no video at all. */
  lemma ShortTitlesNeverMatch(m: Matcher, videoTitle: string, artist: string, title: string, relaxed: bool)
    requires forall w :: w in Fields(m.fold(CoreTitle(title))) ==> |w| <= 2
    ensures Score(m, videoTitle, artist, title, relaxed) == 0
  {
    NothingLong(Fields(m.fold(CoreTitle(title))));
  }

  lemma {:induction false} NothingLong(ws: seq<string>)
    requires forall w :: w in ws ==> |w| <= 2
    ensures Long(ws) == []
  {
    if ws != [] {
      NothingLong(ws[..|ws| - 1]);
      assert ws[|ws| - 1] in ws;
    }
  }

  // ---------------------------------------------------------------- the best match

  datatype Choice = Choice(id: string, score: nat)

  /** What an item is worth in the comparison; channels, playlists and items without id are worth nothing. */
  function Worth(m: Matcher, artist: string, title: string, relaxed: bool): Item -> nat {
    (item: Item) =>
      if item.kind != "video" || item.id == "" then 0 else Score(m, item.title, artist, title, relaxed)
  }

  function Best(worth: Item -> nat, items: seq<Item>): Choice {
    if items == [] then Choice("", 0) else
    var before := Best(worth, items[..|items| - 1]);
    var last := items[|items| - 1];
    if worth(last) > before.score then Choice(last.id, worth(last)) else before
  }

  /** `c` is the first item of highest worth, or nothing when none is worth anything. */
  ghost predicate FirstBest(worth: Item -> nat, items: seq<Item>, c: Choice) {
    if c.score == 0 then c.id == "" && forall i :: 0 <= i < |items| ==> worth(items[i]) == 0
    else exists k :: 0 <= k < |items| && FirstBestAt(worth, items, k, c)
  }

  ghost predicate FirstBestAt(worth: Item -> nat, items: seq<Item>, k: nat, c: Choice)
    requires k < |items|
  {
    && c == Choice(items[k].id, worth(items[k]))
    && (forall i :: 0 <= i < k ==> worth(items[i]) < c.score)
    && (forall i :: k < i < |items| ==> worth(items[i]) <= c.score)
  }

  lemma {:induction false} BestIsFirstBest(worth: Item -> nat, items: seq<Item>)
    ensures FirstBest(worth, items, Best(worth, items))
  {
    if items != [] {
      var n := |items| - 1;
      var c := Best(worth, items);
      var before := Best(worth, items[..n]);
      BestIsFirstBest(worth, items[..n]);
      assert forall i :: 0 <= i < n ==> items[..n][i] == items[i];
      if worth(items[n]) > before.score {
        assert FirstBestAt(worth, items, n, c);
      } else if before.score > 0 {
        var k :| 0 <= k < n && FirstBestAt(worth, items[..n], k, before);
        assert FirstBestAt(worth, items, k, c);
      }
    }
  }

  /** There is one first best choice. */
  lemma FirstBestUnique(worth: Item -> nat, items: seq<Item>, c: Choice, d: Choice)
    requires FirstBest(worth, items, c) && FirstBest(worth, items, d)
    ensures c == d
  {
    if c.score > 0 && d.score > 0 {
      var k :| 0 <= k < |items| && FirstBestAt(worth, items, k, c);
      var l :| 0 <= l < |items| && FirstBestAt(worth, items, l, d);
      assert k == l;
    }
  }

  method BestMatch(m: Matcher, artist: string, title: string, relaxed: bool, items: seq<Item>) returns (c: Choice)
    ensures FirstBest(Worth(m, artist, title, relaxed), items, c)
    ensures c == Best(Worth(m, artist, title, relaxed), items)
  {
    ghost var worth := Worth(m, artist, title, relaxed);
    c := Choice("", 0);
    for i := 0 to |items|
      invariant c == Best(worth, items[..i])
    {
      assert items[..i + 1][..i] == items[..i];
      if items[i].kind != "video" || items[i].id == "" { continue; }
      var s := ScoreMatch(m, items[i].title, artist, title, relaxed);
      if s > c.score { c := Choice(items[i].id, s); }
    }
    assert items[..|items|] == items;
    BestIsFirstBest(worth, items);
  }

  // ---------------------------------------------------------------- the search

  datatype Outcome = Found(id: string) | NoMatch | SearchFailed

  /** What yt-dlp answers. */
  datatype Listing = Listed(items: seq<Item>) | Broken

  /** One call: the track, whether other versions are welcome, and what yt-dlp would answer. */
  datatype Call = Call(artist: string, title: string, variants: bool, listing: Listing)

  function StrictWorth(m: Matcher, c: Call): Item -> nat { Worth(m, c.artist, c.title, false) }

  function RelaxedWorth(m: Matcher, c: Call): Item -> nat { Worth(m, c.artist, c.title, true) }

  /** The item is a video with an id, and its title has seven tenths of the words to look for. */
  ghost predicate Covers(m: Matcher, c: Call, item: Item) {
    var words := Long(Fields(m.fold(CoreTitle(c.title))));
    item.kind == "video" && item.id != "" && words != [] && 10 * |Hits(words, m.fold(item.title))| >= 7 * |words|
  }

  /** Which items count in each of the two passes, and for how much. */
  lemma WorthExactly(m: Matcher, c: Call, item: Item)
    ensures RelaxedWorth(m, c)(item) > 0 <==> Covers(m, c, item)
    ensures StrictWorth(m, c)(item) > 0 <==>
      Covers(m, c, item) && !Disqualified(m.filters, m.fold(item.title), m.fold(c.title), m.fold(c.artist))
    ensures Covers(m, c, item) ==>
      && RelaxedWorth(m, c)(item) == Score(m, item.title, c.artist, c.title, true)
      && StrictWorth(m, c)(item) == Score(m, item.title, c.artist, c.title, false)
  {
    ScoresExactly(m, item.title, c.artist, c.title, false);
    ScoresExactly(m, item.title, c.artist, c.title, true);
  }

  /** A call that finds nothing in the cache. */
  function Search(m: Matcher, c: Call): Outcome {
    if c.listing.Broken? then SearchFailed else
    var strict := Best(StrictWorth(m, c), c.listing.items);
    if strict.score >= CONFIDENT then Found(strict.id) else
    var relaxed := Best(RelaxedWorth(m, c), c.listing.items);
    if c.variants && relaxed.score >= CONFIDENT then Found(relaxed.id) else NoMatch
  }

  /** No score lies strictly between nothing and confident. */
  ghost predicate AllOrNothing(worth: Item -> nat) { forall item :: worth(item) == 0 || worth(item) >= CONFIDENT }

  /** Some item of the listing is worth something. */
  ghost predicate Offers(worth: Item -> nat, c: Call) {
    c.listing.Listed? && exists i :: 0 <= i < |c.listing.items| && worth(c.listing.items[i]) > 0
  }

  lemma BestIsConfident(worth: Item -> nat, c: Call)
    requires AllOrNothing(worth) && c.listing.Listed?
    ensures Best(worth, c.listing.items).score >= CONFIDENT <==> Offers(worth, c)
  {
    var items := c.listing.items;
    BestIsFirstBest(worth, items);
    var best := Best(worth, items);
    if best.score > 0 {
      var k :| 0 <= k < |items| && FirstBestAt(worth, items, k, best);
      assert worth(items[k]) >= CONFIDENT;
    }
  }

  lemma WorthIsAllOrNothing(m: Matcher, artist: string, title: string, relaxed: bool)
    ensures AllOrNothing(Worth(m, artist, title, relaxed))
  {
    forall item: Item
      ensures Worth(m, artist, title, relaxed)(item) == 0 || Worth(m, artist, title, relaxed)(item) >= CONFIDENT
    {
      StrictOrNothing(m, item.title, artist, title);
    }
  }

  /** Exactly which searches succeed, and with what: the first best original whenever there is an
      original at all, and otherwise, only when versions are welcome, the first best version. */
  lemma SearchExact(m: Matcher, c: Call)
    ensures Search(m, c).Found? <==> Offers(StrictWorth(m, c), c) || (c.variants && Offers(RelaxedWorth(m, c), c))
    ensures Search(m, c).SearchFailed? <==> c.listing.Broken?
    ensures Search(m, c).Found? ==>
      exists best :: FirstBest(if Offers(StrictWorth(m, c), c) then StrictWorth(m, c) else RelaxedWorth(m, c),
                               c.listing.items, best)
        && best.score >= CONFIDENT && Search(m, c).id == best.id
  {
    if c.listing.Listed? {
      WorthIsAllOrNothing(m, c.artist, c.title, false);
      WorthIsAllOrNothing(m, c.artist, c.title, true);
      BestIsConfident(StrictWorth(m, c), c);
      BestIsConfident(RelaxedWorth(m, c), c);
      BestIsFirstBest(StrictWorth(m, c), c.listing.items);
      BestIsFirstBest(RelaxedWorth(m, c), c.listing.items);
    }
  }

  /** The video calls itself a version that neither title nor artist of the track mentions. */
  ghost predicate Ruled(m: Matcher, c: Call, item: Item) {
    Disqualified(m.filters, m.fold(item.title), m.fold(c.title),
                 m.fold(c.artist))
  }

  lemma RuledOut(m: Matcher, c: Call, item: Item)
    requires StrictWorth(m, c)(item) == 0 && RelaxedWorth(m, c)(item) > 0
    ensures Ruled(m, c, item)
  {
  }

  lemma BestOfRest(strict: Item -> nat, relaxed: Item -> nat, c: Call)
    requires c.listing.Listed? && !Offers(strict, c) && Best(relaxed, c.listing.items).score > 0
    ensures exists item ::
      item in c.listing.items && strict(item) == 0 && relaxed(item) > 0 && Best(relaxed, c.listing.items).id == item.id
  {
    var items := c.listing.items;
    BestIsFirstBest(relaxed, items);
    var best := Best(relaxed, items);
    var k :| 0 <= k < |items| && FirstBestAt(relaxed, items, k, best);
    assert items[k] in items;
  }

  /** Welcoming versions changes no answer that a strict search gives, and adds an answer only where the
      strict search finds nothing: the video it picks is then one that the strict search ruled out. */
  lemma VariantsOnlyFillGaps(m: Matcher, c: Call, d: Call)
    requires !c.variants && d == c.(variants := true)
    ensures Search(m, c).Found? ==> Search(m, d) == Search(m, c)
    ensures Search(m, d) != Search(m, c) ==> Search(m, c) == NoMatch && Search(m, d).Found?
    ensures Search(m, d) != Search(m, c) ==>
      exists item :: item in c.listing.items && Ruled(m, c, item) && Search(m, d) == Found(item.id)
  {
    if Search(m, d) != Search(m, c) {
      var items := c.listing.items;
      WorthIsAllOrNothing(m, c.artist, c.title, false);
      BestIsConfident(StrictWorth(m, c), c);
      BestOfRest(StrictWorth(m, c), RelaxedWorth(m, c), c);
      var item :| item in items && StrictWorth(m, c)(item) == 0 && RelaxedWorth(m, c)(item) > 0
        && Best(RelaxedWorth(m, c), items).id == item.id;
      RuledOut(m, c, item);
    }
  }

  // ---------------------------------------------------------------- the cache

  function Mode(c: Call): string { if c.variants then "1" else "0" }

  function CacheKey(m: Matcher, c: Call): string {
    m.norm(c.artist) + "|" + m.norm(c.title) + "|" + Mode(c)
  }

  /** The same track in its normal form, asked for in the same mode. */
  ghost predicate SameQuestion(m: Matcher, c: Call, d: Call) {
    && m.norm(c.artist) == m.norm(d.artist)
    && m.norm(c.title) == m.norm(d.title)
    && c.variants == d.variants
  }

  /** Two calls share a cache entry exactly when they ask the same question. */
  lemma CacheKeyExact(m: Matcher, c: Call, d: Call)
    requires NoBars(m)
    ensures CacheKey(m, c) == CacheKey(m, d) <==> SameQuestion(m, c, d)
  {
    if CacheKey(m, c) == CacheKey(m, d) {
      KeyPieces(m, c);
      KeyPieces(m, d);
    }
  }

  lemma KeyPieces(m: Matcher, c: Call)
    requires NoBars(m)
    ensures Split(CacheKey(m, c), '|') == [m.norm(c.artist), m.norm(c.title), Mode(c)]
  {
    SplitThree(m.norm(c.artist), m.norm(c.title), Mode(c), '|');
  }

  lemma SplitThree(a: string, b: string, c: string, sep: char)
    requires sep !in a && sep !in b && sep !in c
    ensures Split(a + [sep] + b + [sep] + c, sep) == [a, b, c]
  {
    assert a + [sep] + b + [sep] + c == Join([a, b, c], sep) by {
      assert Join([c], sep) == c;
      assert [b, c][1..] == [c] && Join([b, c], sep) == b + [sep] + c;
      assert [a, b, c][1..] == [b, c] && Join([a, b, c], sep) == a + [sep] + (b + [sep] + c);
    }
    SplitJoin([a, b, c], sep);
  }

  /** What a caching front end needs to know of the search behind it. */
  datatype Backend = Backend(key: Call -> string, search: Call -> Outcome)

  function BackendOf(m: Matcher): Backend { Backend((c: Call) => CacheKey(m, c), (c: Call) => Search(m, c)) }

  function Cached(b: Backend, cache: map<string, string>, c: Call): Outcome {
    if b.key(c) in cache then Found(cache[b.key(c)]) else b.search(c)
  }

  function CacheAfter(b: Backend, cache: map<string, string>, c: Call): map<string, string> {
    if b.key(c) !in cache && b.search(c).Found? then cache[b.key(c) := b.search(c).id] else cache
  }

  /** The package with a cache installed. */
  class Searcher {
    const m: Matcher
    var cache: map<string, string>

    constructor (m: Matcher)
      ensures this.m == m && cache == map[]
    {
      this.m, cache := m, map[];
    }

    /** A failed search leaves no trace, so that it is tried again. */
    method SearchVideoID(c: Call) returns (r: Outcome)
      modifies this
      ensures r == Cached(BackendOf(m), old(cache), c)
      ensures cache == CacheAfter(BackendOf(m), old(cache), c)
    {
      var key := CacheKey(m, c);
      if key in cache { return Found(cache[key]); }
      if c.listing.Broken? { return SearchFailed; }
      var best := BestMatch(m, c.artist, c.title, false, c.listing.items);
      if best.score >= CONFIDENT {
        cache := cache[key := best.id];
        return Found(best.id);
      }
      if c.variants {
        best := BestMatch(m, c.artist, c.title, true, c.listing.items);
        if best.score >= CONFIDENT {
          cache := cache[key := best.id];
          return Found(best.id);
        }
      }
      return NoMatch;
    }
  }

  /** The cache after a run of calls that starts with none. */
  function RunCache(b: Backend, calls: seq<Call>): map<string, string> {
    if calls == [] then map[] else CacheAfter(b, RunCache(b, calls[..|calls| - 1]), calls[|calls| - 1])
  }

  lemma {:induction false} EntriesWereFound(b: Backend, calls: seq<Call>, key: string)
    requires key in RunCache(b, calls)
    ensures exists d :: d in calls && b.key(d) == key && b.search(d) == Found(RunCache(b, calls)[key])
  {
    var n := |calls| - 1;
    if key in RunCache(b, calls[..n]) {
      EntriesWereFound(b, calls[..n], key);
      var d :| d in calls[..n] && b.key(d) == key && b.search(d) == Found(RunCache(b, calls[..n])[key]);
      assert d in calls;
    } else {
      assert calls[n] in calls && b.key(calls[n]) == key;
    }
  }

  /** What call `c` is answered with after the run `calls`. */
  function Answered(m: Matcher, calls: seq<Call>, c: Call): Outcome {
    Cached(BackendOf(m), RunCache(BackendOf(m), calls), c)
  }

  /** In every run, whatever a call is answered with was found by a search, its own or an earlier one,
      for the same normalised track in the same mode: a version never answers a strict call. */
  lemma AnswersFitTheQuestion(m: Matcher, calls: seq<Call>, c: Call)
    requires NoBars(m)
    requires Answered(m, calls, c).Found?
    ensures exists d :: d in calls + [c] && SameQuestion(m, c, d) && Search(m, d) == Answered(m, calls, c)
  {
    var b := BackendOf(m);
    if b.key(c) in RunCache(b, calls) {
      EntriesWereFound(b, calls, b.key(c));
      var d :| d in calls && b.key(d) == b.key(c) && b.search(d) == Found(RunCache(b, calls)[b.key(c)]);
      CacheKeyExact(m, c, d);
      assert d in calls + [c];
    } else {
      assert c in calls + [c];
    }
  }

  /** Once a question has been answered it keeps that answer, whatever yt-dlp lists later. */
  lemma {:induction false} AnswersStay(b: Backend, calls: seq<Call>, c: Call, later: seq<Call>)
    requires Cached(b, RunCache(b, calls), c).Found?
    ensures b.key(c) in RunCache(b, calls + [c] + later)
    ensures RunCache(b, calls + [c] + later)[b.key(c)] == Cached(b, RunCache(b, calls), c).id
  {
    var run := calls + [c] + later;
    if later == [] {
      assert run == calls + [c];
      assert run[..|run| - 1] == calls;
    } else {
      AnswersStay(b, calls, c, later[..|later| - 1]);
      assert run[..|run| - 1] == calls + [c] + later[..|later| - 1];
    }
  }
}
