/** Title normalisation of internal/youtube/youtube.go: normalize, which builds the cache keys, and
    normalizeForMatch, which compares a video title with a track. A char is a rune. */
module TitleText {
  import opened Strings

  /** A strings.Replacer whose patterns are single characters. */
  function Replace(table: char -> string, s: string): string {
    if s == "" then "" else table(s[0]) + Replace(table, s[1..])
  }

  /** The diacritics table. */
  function Plainly(c: char): string {
    if c in "ąàáâäã" then "a" else if c in "ćç" then "c" else if c in "ęèéêë" then "e"
    else if c == 'ł' then "l" else if c in "ńñ" then "n" else if c in "óòôöõ" then "o"
    else if c == 'ś' then "s" else if c in "źż" then "z" else if c in "ìíîï" then "i"
    else if c in "ùúûü" then "u" else if c == 'ß' then "ss" else [c]
  }

  /** The punct table. */
  function Unpunctuated(c: char): string {
    if c in "-_.,:;()[]{}&/\\|+=" then " " else if c in "'\"!?" then "" else [c]
  }

  /** The apostrophes table. */
  function Straight(c: char): string {
    if c in "\U{2019}\U{2BC}\U{2018}`\U{B4}" then "'" else [c]
  }

  function Normalize(lower: char -> char, s: string): string {
    Join(Fields(Replace(Unpunctuated, Replace(Plainly, Lowered(lower, s)))), ' ')
  }

  // ---------------------------------------------------------------- dotted acronyms and elisions

  predicate AsciiLetter(c: char) { 'a' <= c <= 'z' }

  /** The word characters of Go's `\b`. */
  predicate WordChar(c: char) { AsciiLetter(c) || 'A' <= c <= 'Z' || '0' <= c <= '9' || c == '_' }

  predicate Boundary(s: string, i: nat)
    requires i <= |s|
  {
    (i > 0 && WordChar(s[i - 1])) != (i < |s| && WordChar(s[i]))
  }

  /** How far a run of `\.[a-z]` from `i` reaches. */
  function DottedEnd(s: string, i: nat): (e: nat)
    requires i <= |s|
    ensures i <= e <= |s| && (e - i) % 2 == 0 && (e > i ==> s[i] == '.')
    decreases |s| - i
  {
    if i + 1 < |s| && s[i] == '.' && AsciiLetter(s[i + 1]) then DottedEnd(s, i + 2) else i
  }

  /** The end of the match of `\b[a-z](?:\.[a-z])+\b\.?` at `i`, or `i` when there is none. The run is
      as long as it can be; a letter after it gives back its last letter and dot. */
  function AcronymEnd(s: string, i: nat): (e: nat)
    requires i < |s|
    ensures i <= e <= |s| && (e > i ==> i + 1 < |s| && s[i + 1] == '.')
  {
    if !AsciiLetter(s[i]) || !Boundary(s, i) then i else
    var run := DottedEnd(s, i + 1);
    var last := if Boundary(s, run) then run else run - 2;
    if last <= i + 1 then i
    else if last < |s| && s[last] == '.' then last + 1 else last
  }

  function DropDots(s: string): string { Replace(c => if c == '.' then "" else [c], s) }

  /** dottedAcronym.ReplaceAllStringFunc from position `i` on. */
  function JoinAcronyms(s: string, i: nat): string
    requires i <= |s|
    decreases |s| - i
  {
    if i == |s| then ""
    else
      var e := AcronymEnd(s, i);
      if e > i then DropDots(s[i..e]) + JoinAcronyms(s, e) else [s[i]] + JoinAcronyms(s, i + 1)
  }

  /** A match of `\b[dljmnstc]'([aeiouyh])` at `i`. */
  predicate ElidedAt(s: string, i: nat) {
    i + 2 < |s| && Boundary(s, i) && s[i] in "dljmnstc" && s[i + 1] == '\'' && s[i + 2] in "aeiouyh"
  }

  /** elision.ReplaceAllString from position `i` on. */
  function DropElisions(s: string, i: nat): string
    requires i <= |s|
    decreases |s| - i
  {
    if i == |s| then ""
    else if ElidedAt(s, i) then [s[i + 2]] + DropElisions(s, i + 3)
    else [s[i]] + DropElisions(s, i + 1)
  }

  function NormalizeForMatch(lower: char -> char, s: string): string {
    var straight := Replace(Straight, Replace(Plainly, Lowered(lower, s)));
    Normalize(lower, DropElisions(JoinAcronyms(straight, 0), 0))
  }

  // ---------------------------------------------------------------- both are idempotent

  /** Normalising leaves such a character where it is. */
  ghost predicate Settled(lower: char -> char, c: char) {
    lower(c) == c && Plainly(c) == [c] && Unpunctuated(c) == [c]
  }

  lemma {:induction false} ReplaceFixed(table: char -> string, s: string)
    requires forall c :: c in s ==> table(c) == [c]
    ensures Replace(table, s) == s
  {
    if s != "" {
      assert s == [s[0]] + s[1..];
      ReplaceFixed(table, s[1..]);
    }
  }

  /** Every character of the result comes from some character of `s`. */
  lemma {:induction false} ReplacedChars(table: char -> string, s: string)
    ensures forall d :: d in Replace(table, s) ==> exists c :: c in s && d in table(c)
  {
    if s != "" {
      ReplacedChars(table, s[1..]);
      forall d | d in Replace(table, s) ensures exists c :: c in s && d in table(c) {
        if d in table(s[0]) {
          assert s[0] in s;
        } else {
          assert d in Replace(table, s[1..]);
          var c :| c in s[1..] && d in table(c);
          assert c in s;
        }
      }
    }
  }

  /** What the first two steps leave: lower-case and without diacritics. */
  ghost predicate Folded(lower: char -> char, c: char) { lower(c) == c && Plainly(c) == [c] }

  lemma FoldedOnce(lower: char -> char, s: string)
    requires IsLowering(lower)
    ensures forall d :: d in Replace(Plainly, Lowered(lower, s)) ==> Folded(lower, d)
  {
    var low := Lowered(lower, s);
    ReplacedChars(Plainly, low);
    forall d | d in Replace(Plainly, low) ensures Folded(lower, d) {
      var c :| c in low && d in Plainly(c);
      var i :| 0 <= i < |low| && low[i] == c;
      assert lower(c) == c;
      PlainLetters(c, d);
    }
  }

  lemma PlainLetters(c: char, d: char)
    requires d in Plainly(c)
    ensures Plainly(d) == [d]
    ensures d == c || 'a' <= d <= 'z'
  {
  }

  lemma FoldedStays(lower: char -> char, s: string)
    requires forall c :: c in s ==> Folded(lower, c)
    ensures Replace(Plainly, Lowered(lower, s)) == s
  {
    assert Lowered(lower, s) == s by {
      forall i | 0 <= i < |s| ensures lower(s[i]) == s[i] { assert s[i] in s; }
    }
    ReplaceFixed(Plainly, s);
  }

  lemma WordChars(table: char -> string, s: string)
    ensures forall c :: c in Join(Fields(Replace(table, s)), ' ') ==> c == ' ' || exists d :: d in s && c in table(d)
  {
    var ws := Fields(Replace(table, s));
    ReplacedChars(table, s);
    JoinedChars(ws, ' ');
    forall c | c in Join(ws, ' ') && c != ' ' ensures exists d :: d in s && c in table(d) {
      var i :| 0 <= i < |ws| && c in ws[i];
      assert c in Replace(table, s);
    }
  }

  lemma BareChar(lower: char -> char, d: char, c: char)
    requires Folded(lower, d) && c in Unpunctuated(d)
    ensures c == ' ' || (c == d && Settled(lower, c))
  {
  }

  lemma SpaceSettled(lower: char -> char)
    requires IsLowering(lower)
    ensures Settled(lower, ' ')
  {
  }

  /** A normal form is made of words that normalising leaves alone, one space between them. */
  lemma NormalizeSettles(lower: char -> char, s: string)
    requires IsLowering(lower)
    ensures forall c :: c in Normalize(lower, s) ==> Settled(lower, c)
    ensures forall c :: c in Normalize(lower, s) ==> c == ' ' || c in Replace(Plainly, Lowered(lower, s))
  {
    var folded := Replace(Plainly, Lowered(lower, s));
    FoldedOnce(lower, s);
    WordChars(Unpunctuated, folded);
    SpaceSettled(lower);
    forall c | c in Normalize(lower, s) && c != ' ' ensures Settled(lower, c) && c in folded {
      var d :| d in folded && c in Unpunctuated(d);
      BareChar(lower, d, c);
    }
  }

  lemma NormalizeSettled(lower: char -> char, s: string)
    requires forall c :: c in s ==> Settled(lower, c)
    ensures Normalize(lower, s) == Join(Fields(s), ' ')
  {
    FoldedStays(lower, s);
    ReplaceFixed(Unpunctuated, s);
  }

  /** Normalising a normal form changes nothing. */
  lemma NormalizeIdempotent(lower: char -> char, s: string)
    requires IsLowering(lower)
    ensures Normalize(lower, Normalize(lower, s)) == Normalize(lower, s)
  {
    NormalizeSettles(lower, s);
    NormalizeSettled(lower, Normalize(lower, s));
    FieldsJoin(Fields(Replace(Unpunctuated, Replace(Plainly, Lowered(lower, s)))));
  }

  lemma {:induction false} DropDotsChars(s: string)
    ensures forall c :: c in DropDots(s) ==> c in s
  {
    ReplacedChars(c => if c == '.' then "" else [c], s);
  }

  lemma {:induction false} JoinAcronymsChars(s: string, i: nat)
    requires i <= |s|
    ensures forall c :: c in JoinAcronyms(s, i) ==> c in s
    ensures '.' !in s ==> JoinAcronyms(s, i) == s[i..]
    decreases |s| - i
  {
    if i < |s| {
      var e := AcronymEnd(s, i);
      if e > i {
        DropDotsChars(s[i..e]);
        JoinAcronymsChars(s, e);
      } else {
        JoinAcronymsChars(s, i + 1);
        assert s[i..] == [s[i]] + s[i + 1..];
      }
    }
  }

  lemma {:induction false} DropElisionsChars(s: string, i: nat)
    requires i <= |s|
    ensures forall c :: c in DropElisions(s, i) ==> c in s
    ensures '\'' !in s ==> DropElisions(s, i) == s[i..]
    decreases |s| - i
  {
    if i < |s| {
      if ElidedAt(s, i) {
        DropElisionsChars(s, i + 3);
      } else {
        DropElisionsChars(s, i + 1);
        assert s[i..] == [s[i]] + s[i + 1..];
      }
    }
  }

  /** A title without dots and apostrophes once folded is matched by the form its cache key uses. */
  lemma MatchFormIsKeyForm(lower: char -> char, s: string)
    requires IsLowering(lower)
    requires forall c :: c in Replace(Plainly, Lowered(lower, s)) ==> c != '.' && c != '\'' && Straight(c) == [c]
    ensures NormalizeForMatch(lower, s) == Normalize(lower, s)
  {
    var folded := Replace(Plainly, Lowered(lower, s));
    ReplaceFixed(Straight, folded);
    JoinAcronymsChars(folded, 0);
    DropElisionsChars(folded, 0);
    assert folded[0..] == folded;
    FoldedOnce(lower, s);
    FoldedStays(lower, folded);
  }

  /** What a match form consists of: nothing any of its steps would still change. */
  lemma MatchFormSettles(lower: char -> char, s: string)
    requires IsLowering(lower)
    ensures forall c :: c in NormalizeForMatch(lower, s) ==> Settled(lower, c) && Straight(c) == [c]
  {
    var folded := Replace(Plainly, Lowered(lower, s));
    var straight := Replace(Straight, folded);
    var cut := DropElisions(JoinAcronyms(straight, 0), 0);
    ReplacedChars(Straight, folded);
    JoinAcronymsChars(straight, 0);
    DropElisionsChars(JoinAcronyms(straight, 0), 0);
    FoldedOnce(lower, s);
    NormalizeSettles(lower, cut);
    forall c | c in cut ensures Folded(lower, c) && Straight(c) == [c] {
      assert c in straight;
      var d :| d in folded && c in Straight(d);
      StraightChar(d, c);
    }
    FoldedStays(lower, cut);
  }

  lemma StraightChar(d: char, c: char)
    requires c in Straight(d)
    ensures Straight(c) == [c] && (c == d || c == '\'')
    ensures Plainly('\'') == "'"
  {
  }

  /** A title already folded for comparison compares as itself. */
  lemma MatchFormIdempotent(lower: char -> char, s: string)
    requires IsLowering(lower)
    ensures NormalizeForMatch(lower, NormalizeForMatch(lower, s)) == NormalizeForMatch(lower, s)
  {
    var m := NormalizeForMatch(lower, s);
    MatchFormSettles(lower, s);
    FoldedStays(lower, m);
    MatchFormIsKeyForm(lower, m);
    var straight := Replace(Straight, Replace(Plainly, Lowered(lower, s)));
    NormalizeIdempotent(lower, DropElisions(JoinAcronyms(straight, 0), 0));
  }

  // ---------------------------------------------------------------- what the forms make alike

  lemma {:induction false} ReplaceConcat(table: char -> string, a: string, b: string)
    ensures Replace(table, a + b) == Replace(table, a) + Replace(table, b)
  {
    if a == "" {
      assert a + b == b;
    } else {
      assert (a + b)[1..] == a[1..] + b;
      ReplaceConcat(table, a[1..], b);
    }
  }

  /** The text before it is cut into words. */
  function Bare(lower: char -> char, s: string): string { Replace(Unpunctuated, Replace(Plainly, Lowered(lower, s))) }

  lemma BareConcat(lower: char -> char, a: string, b: string)
    ensures Bare(lower, a + b) == Bare(lower, a) + Bare(lower, b)
  {
    assert Lowered(lower, a + b) == Lowered(lower, a) + Lowered(lower, b);
    ReplaceConcat(Plainly, Lowered(lower, a), Lowered(lower, b));
    ReplaceConcat(Unpunctuated, Replace(Plainly, Lowered(lower, a)), Replace(Plainly, Lowered(lower, b)));
  }

  lemma BareChars(lower: char -> char, c: char)
    ensures Bare(lower, [c]) == Replace(Unpunctuated, Plainly(lower(c)))
  {
    var x := lower(c);
    assert Lowered(lower, [c]) == [x] && [x][1..] == "";
    assert Replace(Plainly, [x]) == Plainly(x) + "" == Plainly(x);
  }

  /** Texts that read alike in one place have the same normal form. */
  lemma AlikeInside(lower: char -> char, a: string, x: string, y: string, b: string)
    requires Bare(lower, x) == Bare(lower, y)
    ensures Normalize(lower, a + x + b) == Normalize(lower, a + y + b)
  {
    BareConcat(lower, a, x);
    BareConcat(lower, a, y);
    BareConcat(lower, a + x, b);
    BareConcat(lower, a + y, b);
  }

  lemma OneChar(table: char -> string, c: char)
    ensures Replace(table, [c]) == table(c)
  {
    assert [c][1..] == "" && table(c) + "" == table(c);
  }

  lemma AsciiStays(lower: char -> char, c: char)
    requires IsLowering(lower) && c < '\U{80}' && !('A' <= c <= 'Z')
    ensures Bare(lower, [c]) == Unpunctuated(c)
  {
    BareChars(lower, c);
    OneChar(Unpunctuated, c);
    PlainAscii(c);
  }

  lemma PlainAscii(c: char)
    requires c < '\U{80}'
    ensures Plainly(c) == [c]
  {
  }

  /** Punctuation separates words as a space does. */
  lemma PunctuationSeparates(lower: char -> char, a: string, c: char, b: string)
    requires IsLowering(lower) && c in "-_.,:;()[]{}&/\\|+="
    ensures Normalize(lower, a + [c] + b) == Normalize(lower, a + " " + b)
  {
    AsciiStays(lower, c);
    AsciiStays(lower, ' ');
    AlikeInside(lower, a, [c], " ", b);
  }

  /** Quotes, question and exclamation marks do not count. */
  lemma MarksVanish(lower: char -> char, a: string, c: char, b: string)
    requires IsLowering(lower) && c in "'\"!?"
    ensures Normalize(lower, a + [c] + b) == Normalize(lower, a + b)
  {
    AsciiStays(lower, c);
    AlikeInside(lower, a, [c], "", b);
    assert a + "" == a;
  }

  /** Capitals read like small letters. */
  lemma CapitalsRead(lower: char -> char, a: string, c: char, b: string)
    requires IsLowering(lower) && 'A' <= c <= 'Z'
    ensures Normalize(lower, a + [c] + b) == Normalize(lower, a + [(c as int + 32) as char] + b)
  {
    var d := (c as int + 32) as char;
    BareChars(lower, c);
    BareChars(lower, d);
    AlikeInside(lower, a, [c], [d], b);
  }

  /** The letter under the diacritic. */
  predicate Under(c: char, d: char) {
    (c in "ąàáâäã" && d == 'a') || (c in "ćç" && d == 'c') || (c in "ęèéêë" && d == 'e') || (c == 'ł' && d == 'l')
    || (c in "ńñ" && d == 'n') || (c in "óòôöõ" && d == 'o') || (c == 'ś' && d == 's') || (c in "źż" && d == 'z')
    || (c in "ìíîï" && d == 'i') || (c in "ùúûü" && d == 'u')
  }

  lemma UnderPlainly(c: char, d: char)
    requires Under(c, d)
    ensures Plainly(c) == [d] && 'a' <= d <= 'z'
  {
  }

  /** Letters with diacritics read like those without, and a sharp s like two. */
  lemma DiacriticsRead(lower: char -> char, a: string, c: char, d: char, b: string)
    requires IsLowering(lower) && lower(c) == c && Under(c, d)
    ensures Normalize(lower, a + [c] + b) == Normalize(lower, a + [d] + b)
  {
    UnderPlainly(c, d);
    BareChars(lower, c);
    OneChar(Unpunctuated, d);
    AsciiStays(lower, d);
    AlikeInside(lower, a, [c], [d], b);
  }

  lemma SharpSRead(lower: char -> char, a: string, b: string)
    requires IsLowering(lower) && lower('ß') == 'ß'
    ensures Normalize(lower, a + "ß" + b) == Normalize(lower, a + "ss" + b)
  {
    SharpBare(lower);
    DoubleBare(lower);
    AlikeInside(lower, a, "ß", "ss", b);
  }

  lemma DoubleBare(lower: char -> char)
    requires IsLowering(lower)
    ensures Bare(lower, "ss") == "ss"
  {
    BareConcat(lower, "s", "s");
    AsciiStays(lower, 's');
    assert "s" + "s" == "ss" && "s" == ['s'];
  }

  lemma SharpBare(lower: char -> char)
    requires lower('ß') == 'ß'
    ensures Bare(lower, "ß") == "ss"
  {
    BareChars(lower, 'ß');
    ReplaceConcat(Unpunctuated, "s", "s");
    OneChar(Unpunctuated, 's');
    assert "s" + "s" == "ss" && Plainly('ß') == "ss" && ['ß'] == "ß";
  }

  /** Every other character is left as it is. */
  lemma OthersStay(lower: char -> char, c: char)
    requires lower(c) == c && c !in "-_.,:;()[]{}&/\\|+=" && c !in "'\"!?" && c != 'ß' && forall d :: !Under(c, d)
    ensures Bare(lower, [c]) == [c]
  {
    BareChars(lower, c);
    assert !Under(c, 'a') && !Under(c, 'c') && !Under(c, 'e') && !Under(c, 'l') && !Under(c, 'n') && !Under(c, 'o')
        && !Under(c, 's') && !Under(c, 'z') && !Under(c, 'i') && !Under(c, 'u');
    assert Plainly(c) == [c];
    OneChar(Unpunctuated, c);
  }

  /** Any of the look-alike apostrophes compares like the straight one. */
  lemma ApostrophesAlike(lower: char -> char, a: string, c: char, b: string)
    requires IsLowering(lower) && lower(c) == c && c in "\U{2019}\U{2BC}\U{2018}`\U{B4}"
    ensures NormalizeForMatch(lower, a + [c] + b) == NormalizeForMatch(lower, a + "'" + b)
  {
    StraightConcat(lower, a, [c]);
    StraightConcat(lower, a + [c], b);
    StraightConcat(lower, a, "'");
    StraightConcat(lower, a + "'", b);
    StraightOne(lower, c);
    StraightOne(lower, '\'');
  }

  function Straightened(lower: char -> char, s: string): string { Replace(Straight, Replace(Plainly, Lowered(lower, s))) }

  lemma StraightConcat(lower: char -> char, a: string, b: string)
    ensures Straightened(lower, a + b) == Straightened(lower, a) + Straightened(lower, b)
  {
    assert Lowered(lower, a + b) == Lowered(lower, a) + Lowered(lower, b);
    ReplaceConcat(Plainly, Lowered(lower, a), Lowered(lower, b));
    ReplaceConcat(Straight, Replace(Plainly, Lowered(lower, a)), Replace(Plainly, Lowered(lower, b)));
  }

  lemma StraightOne(lower: char -> char, c: char)
    requires lower(c) == c && (c == '\'' || c in "\U{2019}\U{2BC}\U{2018}`\U{B4}")
    ensures Straightened(lower, [c]) == "'"
  {
    assert Lowered(lower, [c]) == [c] && Plainly(c) == [c];
    OneChar(Plainly, c);
    OneChar(Straight, c);
  }

  // ---------------------------------------------------------------- acronyms and elisions

  /** Each letter followed by a dot. */
  function Dotted(letters: string): string { if letters == "" then "" else [letters[0], '.'] + Dotted(letters[1..]) }

  ghost predicate Letters(s: string) { forall i :: 0 <= i < |s| ==> AsciiLetter(s[i]) }

  lemma {:induction false} DottedAt(letters: string, k: nat)
    requires k < |letters|
    ensures |Dotted(letters)| == 2 * |letters| && Dotted(letters)[2 * k] == letters[k] && Dotted(letters)[2 * k + 1] == '.'
  {
    if k > 0 { DottedAt(letters[1..], k - 1); }
    else if |letters| > 1 { DottedAt(letters[1..], 0); }
    else { assert Dotted(letters[1..]) == ""; }
  }

  lemma {:induction false} DottedRun(letters: string, k: nat)
    requires Letters(letters) && k < |letters| && |Dotted(letters)| == 2 * |letters|
    ensures DottedEnd(Dotted(letters), 2 * k + 1) == 2 * |letters| - 1
    decreases |letters| - k
  {
    DottedAt(letters, k);
    if k + 1 < |letters| {
      DottedAt(letters, k + 1);
      DottedRun(letters, k + 1);
    }
  }

  lemma {:induction false} UndottedLetters(letters: string)
    requires Letters(letters)
    ensures DropDots(Dotted(letters)) == letters
  {
    if letters != "" {
      UndottedLetters(letters[1..]);
      var l := letters[0];
      ReplaceConcat(c => if c == '.' then "" else [c], [l, '.'], Dotted(letters[1..]));
      assert [l, '.'][1..] == "." && "."[1..] == "" && l != '.';
      assert letters == [l] + letters[1..];
    }
  }

  lemma AcronymIsAll(letters: string)
    requires Letters(letters) && |letters| >= 2
    ensures |Dotted(letters)| == 2 * |letters| && AcronymEnd(Dotted(letters), 0) == 2 * |letters|
  {
    var s, n := Dotted(letters), |letters|;
    DottedAt(letters, 0);
    DottedAt(letters, n - 1);
    DottedRun(letters, 0);
    assert s[2 * n - 2] == letters[n - 1] && s[2 * n - 1] == '.';
    assert Boundary(s, 0) && Boundary(s, 2 * n - 1);
  }

  /** An acronym of two letters or more loses its dots: r.e.m. is compared as rem. */
  lemma AcronymsJoin(letters: string)
    requires Letters(letters) && |letters| >= 2
    ensures JoinAcronyms(Dotted(letters), 0) == letters
  {
    var s := Dotted(letters);
    UndottedLetters(letters);
    AcronymIsAll(letters);
    assert s[0..|s|] == s;
    assert JoinAcronyms(s, |s|) == "" && letters + "" == letters;
  }

  /** Where one side is a letter, digit or underscore and the other is not. */
  ghost predicate AtEdge(s: string, i: nat)
    requires i <= |s|
  {
    var before := i > 0 && ('a' <= s[i - 1] <= 'z' || 'A' <= s[i - 1] <= 'Z' || '0' <= s[i - 1] <= '9' || s[i - 1] == '_');
    var behind := i < |s| && ('a' <= s[i] <= 'z' || 'A' <= s[i] <= 'Z' || '0' <= s[i] <= '9' || s[i] == '_');
    before != behind
  }

  /** From `i` on there are `k + 1` small letters with dots between them, cut off from any word at both ends. */
  ghost predicate AcronymAt(s: string, i: nat, k: int) {
    && k >= 1 && i + 2 * k + 1 <= |s| && AtEdge(s, i) && AtEdge(s, i + 2 * k + 1)
    && (forall j :: 0 <= j <= k ==> 'a' <= s[i + 2 * j] <= 'z') && (forall j :: 0 <= j < k ==> s[i + 2 * j + 1] == '.')
  }

  /** How far the letters and dots behind a letter at `i` go. */
  lemma {:induction false} DottedEndExact(s: string, i: nat)
    requires i <= |s|
    ensures var n := (DottedEnd(s, i) - i) / 2;
      && DottedEnd(s, i) == i + 2 * n && (forall j :: 0 <= j < n ==> s[i + 2 * j] == '.' && 'a' <= s[i + 2 * j + 1] <= 'z')
      && !(i + 2 * n + 1 < |s| && s[i + 2 * n] == '.' && 'a' <= s[i + 2 * n + 1] <= 'z')
    decreases |s| - i
  {
    if i + 1 < |s| && s[i] == '.' && AsciiLetter(s[i + 1]) {
      DottedEndExact(s, i + 2);
      var n := (DottedEnd(s, i) - i) / 2;
      forall j | 0 <= j < n ensures s[i + 2 * j] == '.' && 'a' <= s[i + 2 * j + 1] <= 'z' {
        if j > 0 { assert s[i + 2 + 2 * (j - 1)] == '.'; }
      }
    }
  }

  ghost predicate LongestAt(s: string, i: nat, k: int) {
    AcronymAt(s, i, k) && forall m :: AcronymAt(s, i, m) ==> m <= k
  }

  function DotAt(s: string, i: nat): nat { if i < |s| && s[i] == '.' then 1 else 0 }

  lemma EndOfRun(s: string, i: nat, n: nat)
    requires i < |s| && AsciiLetter(s[i]) && Boundary(s, i) && DottedEnd(s, i + 1) == i + 2 * n + 1
    ensures var k := if Boundary(s, i + 2 * n + 1) then n else n - 1;
      AcronymEnd(s, i) == if k <= 0 then i else i + 2 * k + 1 + DotAt(s, i + 2 * k + 1)
  {
  }

  lemma NoneAt(s: string, i: nat)
    requires i < |s| && !('a' <= s[i] <= 'z' && AtEdge(s, i))
    ensures AcronymEnd(s, i) == i && forall k :: !AcronymAt(s, i, k)
  {
    EdgeIsBoundary(s, i);
    forall k ensures !AcronymAt(s, i, k) {
      if AcronymAt(s, i, k) { FirstLetter(s, i, k); }
    }
  }

  lemma FirstLetter(s: string, i: nat, k: int)
    requires AcronymAt(s, i, k)
    ensures i < |s| && 'a' <= s[i] <= 'z' && AtEdge(s, i)
  {
    assert s[i + 2 * 0] == s[i];
  }

  /** An acronym at `i` is taken to its last letter, and with the dot behind it. */
  lemma AcronymEndExact(s: string, i: nat)
    requires i < |s|
    ensures AcronymEnd(s, i) == i ==> forall k :: !AcronymAt(s, i, k)
    ensures AcronymEnd(s, i) > i ==>
      exists k :: LongestAt(s, i, k) && AcronymEnd(s, i) == i + 2 * k + 1 + DotAt(s, i + 2 * k + 1)
  {
    if !('a' <= s[i] <= 'z' && AtEdge(s, i)) {
      NoneAt(s, i);
    } else {
      DottedEndExact(s, i + 1);
      var n := (DottedEnd(s, i + 1) - (i + 1)) / 2;
      EdgeIsBoundary(s, i);
      EdgeIsBoundary(s, i + 2 * n + 1);
      EndOfRun(s, i, n);
      LongestIs(s, i, n);
    }
  }

  /** With a run of `n` dots and letters behind the first letter, the longest acronym takes it all, or stops one letter
      short when a word goes on. */
  lemma LongestIs(s: string, i: nat, n: nat)
    requires i + 2 * n + 1 <= |s| && 'a' <= s[i] <= 'z' && AtEdge(s, i)
    requires forall j :: 0 <= j < n ==> s[i + 1 + 2 * j] == '.' && 'a' <= s[i + 1 + 2 * j + 1] <= 'z'
    requires !(i + 2 * n + 2 < |s| && s[i + 2 * n + 1] == '.' && 'a' <= s[i + 2 * n + 2] <= 'z')
    ensures var k := if AtEdge(s, i + 2 * n + 1) then n else n - 1;
      if k <= 0 then forall m :: !AcronymAt(s, i, m) else LongestAt(s, i, k)
  {
    LettersAt(s, i, n);
    NoLonger(s, i, n);
    if n >= 1 {
      if AtEdge(s, i + 2 * n + 1) {
        assert AcronymAt(s, i, n);
      } else if n >= 2 {
        OneShorter(s, i, n);
      }
    }
  }

  lemma NoLonger(s: string, i: nat, n: nat)
    requires i + 2 * n + 1 <= |s|
    requires !(i + 2 * n + 2 < |s| && s[i + 2 * n + 1] == '.' && 'a' <= s[i + 2 * n + 2] <= 'z')
    ensures forall k :: AcronymAt(s, i, k) ==> k <= n
  {
    forall k | AcronymAt(s, i, k) ensures k <= n {
      if k > n { Reaches(s, i, n, k); }
    }
  }

  lemma Reaches(s: string, i: nat, n: nat, k: int)
    requires AcronymAt(s, i, k) && k > n
    ensures i + 2 * n + 2 < |s| && s[i + 2 * n + 1] == '.' && 'a' <= s[i + 2 * n + 2] <= 'z'
  {
    assert s[i + 2 * n + 1] == '.' && 'a' <= s[i + 2 * (n + 1)] <= 'z';
  }

  /** Before a dot there is always an edge. */
  lemma OneShorter(s: string, i: nat, n: nat)
    requires n >= 2 && i + 2 * n + 1 <= |s| && AtEdge(s, i)
    requires (forall j :: 0 <= j <= n ==> 'a' <= s[i + 2 * j] <= 'z') && (forall j :: 0 <= j < n ==> s[i + 2 * j + 1] == '.')
    ensures AcronymAt(s, i, n - 1)
  {
    assert 'a' <= s[i + 2 * (n - 1)] <= 'z' && s[i + 2 * (n - 1) + 1] == '.';
  }

  lemma LettersAt(s: string, i: nat, n: nat)
    requires i + 2 * n + 1 <= |s| && 'a' <= s[i] <= 'z'
    requires forall j :: 0 <= j < n ==> s[i + 1 + 2 * j] == '.' && 'a' <= s[i + 1 + 2 * j + 1] <= 'z'
    ensures forall j :: 0 <= j <= n ==> 'a' <= s[i + 2 * j] <= 'z'
    ensures forall j :: 0 <= j < n ==> s[i + 2 * j + 1] == '.'
  {
    forall j | 0 <= j <= n ensures 'a' <= s[i + 2 * j] <= 'z' {
      if j > 0 { assert 'a' <= s[i + 1 + 2 * (j - 1) + 1] <= 'z'; }
    }
    forall j | 0 <= j < n ensures s[i + 2 * j + 1] == '.' { assert s[i + 1 + 2 * j] == '.'; }
  }

  lemma EdgeIsBoundary(s: string, i: nat)
    requires i <= |s|
    ensures AtEdge(s, i) <==> Boundary(s, i)
  {
  }

  /** A contraction stays: neither i'm nor d's is an elision. */
  lemma ContractionStays(c: char, word: string)
    requires c != '\'' && (c !in "dljmnstc" || word == "" || word[0] !in "aeiouyh") && '\'' !in word
    ensures DropElisions([c, '\''] + word, 0) == [c, '\''] + word
  {
    var s := [c, '\''] + word;
    assert !ElidedAt(s, 0) && s[1] == '\'';
    RestKept(s, 2);
    assert !ElidedAt(s, 1);
    assert s[1..] == [s[1]] + s[2..] && s == [s[0]] + s[1..] && DropElisions(s, 1) == s[1..];
  }

  /** A French elision goes: d'amour is compared as amour. */
  lemma ElisionGoes(c: char, word: string)
    requires c in "dljmnstc" && word != "" && word[0] in "aeiouyh" && '\'' !in word
    ensures DropElisions([c, '\''] + word, 0) == word
  {
    var s := [c, '\''] + word;
    assert ElidedAt(s, 0);
    RestKept(s, 3);
    assert s[3..] == word[1..] && word == [word[0]] + word[1..];
  }

  lemma {:induction false} RestKept(s: string, i: nat)
    requires i <= |s| && forall j :: i <= j < |s| ==> s[j] != '\''
    ensures DropElisions(s, i) == s[i..]
    decreases |s| - i
  {
    if i < |s| {
      RestKept(s, i + 1);
      assert s[i..] == [s[i]] + s[i + 1..];
    }
  }
}
