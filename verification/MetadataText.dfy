/** The text side of internal/metadata/metadata.go: normalizeKey, searchTitle, and the cache keys built with
    them, with exactly which searches share one. */
module MetadataText {
  import opened Strings

  function NormalizeKey(lower: char -> char, s: string): string {
    Join(Fields(Lowered(lower, TrimSpace(s))), ' ')
  }

  /** What comes before `sep`, when something does. */
  function Cut(title: string, sep: string): string {
    if Index(title, sep) > 0 then title[..Index(title, sep)] else title
  }

  function SearchTitle(title: string): string { TrimSpace(Cut(Cut(Cut(title, " ("), " ["), " - ")) }

  /** What is cut off: nothing when `sep` does not occur or the title begins with it, else all from its first
      occurrence on. */
  lemma CutExact(title: string, sep: string)
    ensures !Contains(title, sep) || sep <= title ==> Cut(title, sep) == title
    ensures Contains(title, sep) && !(sep <= title) ==>
      var n := |Cut(title, sep)|;
      0 < n && Cut(title, sep) == title[..n] && OccursAt(title, sep, n) && forall i :: 0 <= i < n ==> !OccursAt(title, sep, i)
  {
    IndexIsFirst(title, sep);
    assert title[0..] == title;
    assert sep <= title <==> OccursAt(title, sep, 0);
  }

  /** A separator that does not begin in `p` leaves `p` alone. */
  lemma CutLater(p: string, x: string, a: char, b: char)
    requires p != "" && !Contains(p, [a, b]) && (p[|p| - 1] != a || x == "" || x[0] != b)
    ensures p <= Cut(p + x, [a, b]) <= p + x
    ensures Cut(p + x, [a, b])[|p|..] == x[..|Cut(p + x, [a, b])| - |p|]
  {
    PairInSum(p, x, a, b);
    IndexIsFirst(p + x, [a, b]);
    PairOccurs(p, a, b);
    var i := Index(p + x, [a, b]);
    if 0 < i < |p| {
      assert (p + x)[i..][0] == a && (p + x)[i..][1] == b;
      assert i < |p| - 1 ==> PairAt(p, a, b, i);
    }
    var c := Cut(p + x, [a, b]);
    assert |c| >= |p| && c == (p + x)[..|c|];
    assert c[|p|..] == x[..|c| - |p|];
  }

  lemma BracketCut(t: string, x: string, b: char)
    requires t != "" && !Contains(t, [' ', b]) && b != ' '
    ensures Cut(t + [' ', b] + x, [' ', b]) == t
  {
    PairBehind(t, ' ', b, x);
  }

  ghost predicate NoSeparator(t: string) { !Contains(t, " (") && !Contains(t, " [") && !Contains(t, " - ") }

  /** The bare title of a text without separators with something behind it in round brackets, in square brackets, or,
      if it does not end in a dash and no bracket follows the new one, behind a dash, is that text without the spaces
      around it. */
  lemma BareTitle(t: string, x: string)
    requires t != "" && NoSeparator(t)
    ensures SearchTitle(t) == TrimSpace(t) && SearchTitle(t + " (" + x) == TrimSpace(t)
    ensures SearchTitle(t + " [" + x) == TrimSpace(t)
    ensures !HasSuffix(t, " -") && (x == "" || (x[0] != '(' && x[0] != '[')) ==> SearchTitle(t + " - " + x) == TrimSpace(t)
  {
    BracketCut(t, x, '(');
    BareOfSquare(t, x);
    if !HasSuffix(t, " -") && (x == "" || (x[0] != '(' && x[0] != '[')) { BareOfDash(t, x); }
  }

  lemma BareOfSquare(t: string, x: string)
    requires t != "" && NoSeparator(t)
    ensures SearchTitle(t + " [" + x) == TrimSpace(t)
  {
    var p := t + " [";
    PairInSum(t, " [", ' ', '(');
    PairOccurs(" [", ' ', '(');
    CutLater(p, x, ' ', '(');
    var u := Cut(p + x, " (");
    assert u == p + u[|p|..];
    BracketCut(t, u[|p|..], '[');
  }

  lemma BareOfDash(t: string, x: string)
    requires t != "" && NoSeparator(t) && !HasSuffix(t, " -") && (x == "" || (x[0] != '(' && x[0] != '['))
    ensures SearchTitle(t + " - " + x) == TrimSpace(t)
  {
    var p := t + " - ";
    PairInSum(t, " - ", ' ', '(');
    PairInSum(t, " - ", ' ', '[');
    PairOccurs(" - ", ' ', '(');
    PairOccurs(" - ", ' ', '[');
    CutLater(p, x, ' ', '(');
    var u := Cut(p + x, " (");
    assert u == p + u[|p|..];
    CutLater(p, u[|p|..], ' ', '[');
    var v := Cut(u, " [");
    assert v == p + v[|p|..];
    DashBehind(t, v[|p|..]);
    assert Cut(v, " - ") == v[..|t|] == t;
  }

  /** normalizeKey and searchTitle as values, so that what does not depend on them can do without their text. */
  datatype Text = Text(norm: string -> string, bare: string -> string)

  function TextOf(lower: char -> char): Text {
    Text((s: string) => NormalizeKey(lower, s), (t: string) => SearchTitle(t))
  }

  function Key(tx: Text, artist: string, title: string): string { tx.norm(artist) + "|" + tx.norm(title) }

  // ---------------------------------------------------------------- normal forms

  /** Lower-case words with one space between them. */
  ghost predicate Tidy(lower: char -> char, s: string) {
    forall i :: 0 <= i < |s| ==> TidyAt(lower, s, i)
  }

  ghost predicate TidyAt(lower: char -> char, s: string, i: nat)
    requires i < |s|
  {
    lower(s[i]) == s[i] && (IsSpace(s[i]) ==> s[i] == ' ' && 0 < i < |s| - 1 && !IsSpace(s[i + 1]))
  }

  lemma {:induction false} TrimLeftChars(s: string)
    ensures forall c :: c in TrimLeft(s) ==> c in s
  {
    if s != "" { TrimLeftChars(s[1..]); }
  }

  ghost predicate LowerWord(lower: char -> char, w: string) { IsWord(w) && forall c :: c in w ==> lower(c) == c }

  lemma JoinTwoTidy(lower: char -> char, w: string, rest: string)
    requires lower(' ') == ' ' && LowerWord(lower, w) && Tidy(lower, rest) && rest != "" && !IsSpace(rest[0])
    ensures Tidy(lower, w + [' '] + rest)
  {
    var s := w + [' '] + rest;
    forall i | 0 <= i < |s| ensures TidyAt(lower, s, i) {
      if i < |w| {
        assert s[i] == w[i] && w[i] in w;
      } else if i == |w| {
        assert s[i] == ' ' && s[i + 1] == rest[0];
      } else {
        assert s[i] == rest[i - |w| - 1] && TidyAt(lower, rest, i - |w| - 1);
      }
    }
  }

  lemma {:induction false} JoinTidy(lower: char -> char, ws: seq<string>)
    requires lower(' ') == ' ' && forall i :: 0 <= i < |ws| ==> LowerWord(lower, ws[i])
    ensures Tidy(lower, Join(ws, ' ')) && (ws != [] ==> Join(ws, ' ') != "" && !IsSpace(Join(ws, ' ')[0]))
  {
    if |ws| == 1 {
      assert forall i :: 0 <= i < |ws[0]| ==> ws[0][i] in ws[0];
    } else if |ws| > 1 {
      JoinTidy(lower, ws[1..]);
      JoinTwoTidy(lower, ws[0], Join(ws[1..], ' '));
    }
  }

  /** Every normal form is tidy. */
  lemma NormalIsTidy(lower: char -> char, s: string)
    requires IsLowering(lower)
    ensures Tidy(lower, NormalizeKey(lower, s))
  {
    var low := Lowered(lower, TrimSpace(s));
    var ws := Fields(low);
    forall i | 0 <= i < |ws| ensures LowerWord(lower, ws[i]) {
      forall c | c in ws[i] ensures lower(c) == c {
        assert c in low;
        var j :| 0 <= j < |low| && low[j] == c;
      }
    }
    JoinTidy(lower, ws);
  }

  lemma FieldsStep(s: string)
    requires 0 < WordLength(s) < |s|
    ensures Fields(s) == [s[..WordLength(s)]] + Fields(s[WordLength(s) + 1..])
    ensures s[WordLength(s) + 1..] != "" && !IsSpace(s[WordLength(s) + 1]) ==> Fields(s[WordLength(s) + 1..]) != []
  {
    var n := WordLength(s);
    assert s[n..][0] == s[n] && s[n..][1..] == s[n + 1..];
  }

  /** After a word of a tidy text comes one space and then a tidy text again. */
  lemma TidyRest(lower: char -> char, s: string, n: nat)
    requires Tidy(lower, s) && n < |s| && IsSpace(s[n])
    ensures s[n] == ' ' && Tidy(lower, s[n + 1..]) && s[n + 1..] != "" && !IsSpace(s[n + 1])
  {
    var rest := s[n + 1..];
    assert TidyAt(lower, s, n);
    forall i | 0 <= i < |rest| ensures TidyAt(lower, rest, i) {
      assert TidyAt(lower, s, n + 1 + i) && rest[i] == s[n + 1 + i];
    }
  }

  lemma JoinCons(w: string, ws: seq<string>)
    requires ws != []
    ensures Join([w] + ws, ' ') == w + [' '] + Join(ws, ' ')
  {
    assert ([w] + ws)[1..] == ws;
  }

  lemma {:induction false} JoinFieldsTidy(lower: char -> char, s: string)
    requires Tidy(lower, s)
    ensures Join(Fields(s), ' ') == s
    decreases |s|
  {
    if s != "" {
      assert TidyAt(lower, s, 0) && !IsSpace(s[0]);
      var n := WordLength(s);
      if n == |s| {
        assert s[n..] == "" && s[..n] == s;
      } else {
        var rest := s[n + 1..];
        TidyRest(lower, s, n);
        JoinFieldsTidy(lower, rest);
        FieldsStep(s);
        JoinCons(s[..n], Fields(rest));
        assert s == s[..n] + [' '] + rest;
      }
    }
  }

  lemma TidyUntrimmed(lower: char -> char, s: string)
    requires Tidy(lower, s)
    ensures TrimSpace(s) == s
  {
    if s != "" { assert TidyAt(lower, s, 0) && TidyAt(lower, s, |s| - 1); }
  }

  lemma TidyIsLower(lower: char -> char, s: string)
    requires Tidy(lower, s)
    ensures Lowered(lower, s) == s
  {
    forall i | 0 <= i < |s| ensures Lowered(lower, s)[i] == s[i] { assert TidyAt(lower, s, i); }
  }

  /** A text is its own normal form exactly when it is tidy. */
  lemma NormalExact(lower: char -> char, s: string)
    requires IsLowering(lower)
    ensures NormalizeKey(lower, s) == s <==> Tidy(lower, s)
  {
    NormalIsTidy(lower, s);
    if Tidy(lower, s) {
      TidyUntrimmed(lower, s);
      TidyIsLower(lower, s);
      JoinFieldsTidy(lower, s);
    }
  }

  ghost predicate Idempotent(tx: Text) { forall s :: tx.norm(tx.norm(s)) == tx.norm(s) }

  lemma NormalizeKeyIdempotent(lower: char -> char)
    requires IsLowering(lower)
    ensures Idempotent(TextOf(lower))
  {
    forall s ensures NormalizeKey(lower, NormalizeKey(lower, s)) == NormalizeKey(lower, s) {
      NormalIsTidy(lower, s);
      NormalExact(lower, NormalizeKey(lower, s));
    }
  }

  // ---------------------------------------------------------------- who shares a key

  ghost predicate SameSong(tx: Text, a: string, t: string, b: string, u: string) {
    tx.norm(a) == tx.norm(b) && tx.norm(t) == tx.norm(u)
  }

  /** Some search that does not normalise alike is kept under the same key. */
  ghost predicate Shared(tx: Text, artist: string, title: string) {
    exists b, u :: Key(tx, b, u) == Key(tx, artist, title) && !SameSong(tx, artist, title, b, u)
  }

  /** The key can be cut at `k` into an artist and a title other than its own. */
  ghost predicate OtherCut(tx: Text, key: string, own: nat, k: nat) {
    k < |key| && key[k] == '|' && k != own && tx.norm(key[..k]) == key[..k] && tx.norm(key[k + 1..]) == key[k + 1..]
  }

  lemma CutAtBar(a: string, t: string)
    ensures (a + "|" + t)[..|a|] == a && (a + "|" + t)[|a|] == '|' && (a + "|" + t)[|a| + 1..] == t
  {
  }

  /** Exactly which searches share their key with a different one: those whose key has another bar with a
      normal form on either side. */
  lemma SharedExactly(tx: Text, artist: string, title: string)
    requires Idempotent(tx)
    ensures Shared(tx, artist, title) <==> exists k: nat :: OtherCut(tx, Key(tx, artist, title), |tx.norm(artist)|, k)
  {
    var key := Key(tx, artist, title);
    CutAtBar(tx.norm(artist), tx.norm(title));
    if Shared(tx, artist, title) {
      var b, u :| Key(tx, b, u) == key && !SameSong(tx, artist, title, b, u);
      CutAtBar(tx.norm(b), tx.norm(u));
      assert OtherCut(tx, key, |tx.norm(artist)|, |tx.norm(b)|);
    }
    if k: nat :| OtherCut(tx, key, |tx.norm(artist)|, k) {
      var b, u := key[..k], key[k + 1..];
      assert Key(tx, b, u) == key by { assert key == b + "|" + u; }
      assert |tx.norm(b)| == k;
      assert !SameSong(tx, artist, title, b, u);
    }
  }

  /** Searches whose normalised artists have no bar share a key exactly when they normalise alike. */
  lemma KeyExact(tx: Text, artist: string, title: string, b: string, u: string)
    requires '|' !in tx.norm(artist) && '|' !in tx.norm(b)
    ensures Key(tx, artist, title) == Key(tx, b, u) <==> SameSong(tx, artist, title, b, u)
  {
    if Key(tx, artist, title) == Key(tx, b, u) {
      SplitPiece(tx.norm(artist), "|" + tx.norm(title), '|');
      SplitPiece(tx.norm(b), "|" + tx.norm(u), '|');
      assert Key(tx, artist, title) == tx.norm(artist) + ("|" + tx.norm(title));
      assert Key(tx, b, u) == tx.norm(b) + ("|" + tx.norm(u));
      CutAtBar(tx.norm(artist), tx.norm(title));
      CutAtBar(tx.norm(b), tx.norm(u));
    }
  }

  /** A bar with no space next to it. */
  predicate BareBar(key: string, k: nat) {
    k < |key| && key[k] == '|' && !(k > 0 && key[k - 1] == ' ') && !(k + 1 < |key| && key[k + 1] == ' ')
  }

  lemma KeyIsTidy(lower: char -> char, a: string, t: string)
    requires IsLowering(lower) && Tidy(lower, a) && Tidy(lower, t)
    ensures Tidy(lower, a + "|" + t)
  {
    var key := a + "|" + t;
    forall i | 0 <= i < |key| ensures TidyAt(lower, key, i) {
      if i < |a| {
        assert TidyAt(lower, a, i) && key[i] == a[i];
      } else if i > |a| {
        assert TidyAt(lower, t, i - |a| - 1) && key[i] == t[i - |a| - 1];
      }
    }
  }

  lemma TidyParts(lower: char -> char, key: string, k: nat)
    requires Tidy(lower, key) && k < |key| && key[k] == '|'
    ensures Tidy(lower, key[..k]) && Tidy(lower, key[k + 1..]) <==> BareBar(key, k)
  {
    var a, t := key[..k], key[k + 1..];
    if Tidy(lower, a) && k > 0 { assert TidyAt(lower, a, k - 1); }
    if Tidy(lower, t) && k + 1 < |key| { assert TidyAt(lower, t, 0); }
    if BareBar(key, k) {
      forall i | 0 <= i < |a| ensures TidyAt(lower, a, i) { assert TidyAt(lower, key, i); }
      forall i | 0 <= i < |t| ensures TidyAt(lower, t, i) { assert TidyAt(lower, key, k + 1 + i); }
    }
  }

  lemma CutIsBareBar(lower: char -> char, key: string, own: nat, k: nat)
    requires IsLowering(lower) && Tidy(lower, key)
    ensures OtherCut(TextOf(lower), key, own, k) <==> BareBar(key, k) && k != own
  {
    if k < |key| && key[k] == '|' {
      TidyParts(lower, key, k);
      NormalExact(lower, key[..k]);
      NormalExact(lower, key[k + 1..]);
    }
  }

  /** For normalizeKey itself: a search shares its key with a different one exactly when the key has, besides
      the bar that joins it, one with no space next to it, in the artist or in the title. */
  lemma SharedByBareBars(lower: char -> char, artist: string, title: string)
    requires IsLowering(lower)
    ensures var tx := TextOf(lower);
      Shared(tx, artist, title) <==> exists k: nat :: BareBar(Key(tx, artist, title), k) && k != |tx.norm(artist)|
  {
    var tx := TextOf(lower);
    var key := Key(tx, artist, title);
    NormalizeKeyIdempotent(lower);
    SharedExactly(tx, artist, title);
    NormalIsTidy(lower, artist);
    NormalIsTidy(lower, title);
    KeyIsTidy(lower, tx.norm(artist), tx.norm(title));
    forall k: nat ensures OtherCut(tx, key, |tx.norm(artist)|, k) <==> BareBar(key, k) && k != |tx.norm(artist)| {
      CutIsBareBar(lower, key, |tx.norm(artist)|, k);
    }
  }

  /** A text without capitals and spaces normalises to itself. */
  lemma PlainIsNormal(lower: char -> char, s: string)
    requires IsLowering(lower) && forall i :: 0 <= i < |s| ==> s[i] < '\U{80}' && !('A' <= s[i] <= 'Z') && !IsSpace(s[i])
    ensures NormalizeKey(lower, s) == s
  {
    assert Tidy(lower, s) by { assert forall i :: 0 <= i < |s| ==> TidyAt(lower, s, i); }
    NormalExact(lower, s);
  }

  lemma CollisionNorms(lower: char -> char)
    requires IsLowering(lower)
    ensures NormalizeKey(lower, "a|b") == "a|b" && NormalizeKey(lower, "b|c") == "b|c"
    ensures NormalizeKey(lower, "a") == "a" && NormalizeKey(lower, "c") == "c"
  {
    PlainIsNormal(lower, "a|b");
    PlainIsNormal(lower, "c");
    PlainIsNormal(lower, "a");
    PlainIsNormal(lower, "b|c");
  }

  /** Two different songs under one key. */
  lemma KeyCollision(lower: char -> char)
    requires IsLowering(lower)
    ensures var tx := TextOf(lower); Key(tx, "a|b", "c") == Key(tx, "a", "b|c") && !SameSong(tx, "a|b", "c", "a", "b|c")
  {
    var tx := TextOf(lower);
    CollisionNorms(lower);
    assert |tx.norm("a|b")| == 3 && |tx.norm("a")| == 1;
    assert Key(tx, "a|b", "c") == "a|b|c" == Key(tx, "a", "b|c");
  }
}
