/** The parts of Go's strings package that several components use. */
module Strings {

  predicate Contains(s: string, part: string) {
    part <= s || (s != "" && Contains(s[1..], part))
  }

  /** strings.Index, -1 when `part` does not occur. */
  function Index(s: string, part: string): (i: int)
    ensures -1 <= i <= |s|
    ensures Contains(s, part) <==> i >= 0
  {
    if part <= s then 0
    else if s == "" then -1
    else if Index(s[1..], part) < 0 then -1 else 1 + Index(s[1..], part)
  }

  ghost predicate OccursAt(s: string, part: string, i: int) { 0 <= i <= |s| && part <= s[i..] }

  /** Index tells the first occurrence. */
  lemma {:induction false} IndexIsFirst(s: string, part: string)
    ensures Index(s, part) >= 0 ==> OccursAt(s, part, Index(s, part))
    ensures forall i :: OccursAt(s, part, i) ==> 0 <= Index(s, part) <= i
  {
    if part <= s {
      assert s[0..] == s;
    } else if s != "" {
      IndexIsFirst(s[1..], part);
      assert forall i :: 1 <= i <= |s| ==> s[1..][i - 1..] == s[i..];
      assert s[0..] == s;
      forall i | OccursAt(s, part, i) ensures 0 <= Index(s, part) <= i {
        assert OccursAt(s[1..], part, i - 1);
      }
    }
  }

  /** `part` put behind `t` is found there exactly when no occurrence begins in `t`. */
  lemma IndexBehind(t: string, part: string, rest: string)
    requires part != ""
    ensures Index(t + part + rest, part) == |t| <==> !Contains(t + part[..|part| - 1], part)
  {
    var s, u := t + part + rest, t + part[..|part| - 1];
    IndexIsFirst(s, part);
    IndexIsFirst(u, part);
    assert s[|t|..] == part + rest && u == s[..|u|];
    assert OccursAt(s, part, |t|);
    forall i | 0 <= i < |t| ensures OccursAt(s, part, i) <==> OccursAt(u, part, i) {
      assert u[i..] == s[i..][..|u| - i];
      assert |part| <= |u| - i;
    }
    forall i ensures OccursAt(u, part, i) ==> i < |t| { }
  }

  /** Two different characters are found behind every text they do not occur in. */
  lemma PairBehind(t: string, a: char, b: char, rest: string)
    requires a != b && !Contains(t, [a, b])
    ensures Index(t + [a, b] + rest, [a, b]) == |t|
  {
    IndexBehind(t, [a, b], rest);
    assert [a, b][..1] == [a];
    var u := t + [a];
    IndexIsFirst(t, [a, b]);
    IndexIsFirst(u, [a, b]);
    forall i ensures OccursAt(u, [a, b], i) ==> OccursAt(t, [a, b], i) {
      if OccursAt(u, [a, b], i) {
        assert u[i..][1] == b && u[|t|] == a;
        assert t[i..] == u[i..][..|t| - i];
      }
    }
  }

  ghost predicate PairAt(s: string, a: char, b: char, i: int) { 0 <= i < |s| - 1 && s[i] == a && s[i + 1] == b }

  lemma PairOccurs(s: string, a: char, b: char)
    ensures Contains(s, [a, b]) <==> exists i :: PairAt(s, a, b, i)
  {
    IndexIsFirst(s, [a, b]);
    if Contains(s, [a, b]) {
      var i := Index(s, [a, b]);
      assert s[i..][0] == a && s[i..][1] == b;
      assert PairAt(s, a, b, i);
    }
    forall i | PairAt(s, a, b, i) ensures Contains(s, [a, b]) {
      assert s[i..][..2] == [a, b];
      assert OccursAt(s, [a, b], i);
    }
  }

  /** What does not straddle the seam occurs in one of the two parts. */
  lemma PairInSum(t: string, y: string, a: char, b: char)
    requires t == "" || y == "" || t[|t| - 1] != a || y[0] != b
    ensures Contains(t + y, [a, b]) <==> Contains(t, [a, b]) || Contains(y, [a, b])
  {
    PairOccurs(t, a, b);
    PairOccurs(y, a, b);
    PairOccurs(t + y, a, b);
    if i :| PairAt(t, a, b, i) { assert PairAt(t + y, a, b, i); }
    if i :| PairAt(y, a, b, i) { assert PairAt(t + y, a, b, |t| + i); }
    if i :| PairAt(t + y, a, b, i) { assert PairAt(t, a, b, i) || PairAt(y, a, b, i - |t|); }
  }

  /** A dash between spaces is found where it was put, unless the text before it ends in another one. */
  lemma DashBehind(t: string, x: string)
    requires !Contains(t, " - ")
    ensures Index(t + " - " + x, " - ") == |t| <==> !HasSuffix(t, " -")
  {
    IndexBehind(t, " - ", x);
    assert " - "[..2] == " -";
    DashEarly(t);
  }

  lemma DashEarly(t: string)
    requires !Contains(t, " - ")
    ensures Contains(t + " -", " - ") <==> HasSuffix(t, " -")
  {
    var u := t + " -";
    IndexIsFirst(t, " - ");
    IndexIsFirst(u, " - ");
    if HasSuffix(t, " -") {
      assert u[|t| - 2..] == t[|t| - 2..] + " -";
      assert OccursAt(u, " - ", |t| - 2);
    }
    if Contains(u, " - ") {
      var i := Index(u, " - ");
      assert u[i] == ' ' && u[i + 1] == '-' && u[i + 2] == ' ' by {
        assert u[i..][0] == ' ' && u[i..][1] == '-' && u[i..][2] == ' ';
      }
      DashStraddles(t, i);
    }
  }

  lemma DashStraddles(t: string, i: nat)
    requires var u := t + " -"; i + 2 < |u| && u[i] == ' ' && u[i + 1] == '-' && u[i + 2] == ' '
    requires forall j :: !OccursAt(t, " - ", j)
    ensures HasSuffix(t, " -")
  {
    if i + 2 < |t| {
      assert t[i..][..3] == " - ";
      assert OccursAt(t, " - ", i);
    } else {
      assert t[i..] == " -";
    }
  }

  /** What is used of unicode.ToLower: what it does to ASCII, and that it leaves its own results alone. */
  ghost predicate IsLowering(lower: char -> char) {
    && (forall c :: lower(lower(c)) == lower(c))
    && (forall c: char :: c < '\U{80}' ==> lower(c) == if 'A' <= c <= 'Z' then (c as int + 32) as char else c)
  }

  function AsciiLower(c: char): char { if 'A' <= c <= 'Z' then (c as int + 32) as char else c }

  /** Such maps exist. */
  lemma AsciiLowerIsLowering()
    ensures IsLowering(AsciiLower)
  {
  }

  /** strings.ToLower. */
  function Lowered(lower: char -> char, s: string): (r: string)
    ensures |r| == |s| && forall i :: 0 <= i < |s| ==> r[i] == lower(s[i])
  {
    seq(|s|, i requires 0 <= i < |s| => lower(s[i]))
  }

  predicate IsAlnum(c: char) { '0' <= c <= '9' || 'A' <= c <= 'Z' || 'a' <= c <= 'z' }

  predicate HasSuffix(s: string, suffix: string) {
    |suffix| <= |s| && s[|s| - |suffix|..] == suffix
  }

  function Join(parts: seq<string>, sep: char): string {
    if parts == [] then "" else if |parts| == 1 then parts[0] else parts[0] + [sep] + Join(parts[1..], sep)
  }

  function Split(s: string, sep: char): (r: seq<string>)
    ensures r != []
  {
    if s == "" then [""]
    else if s[0] == sep then [""] + Split(s[1..], sep)
    else [[s[0]] + Split(s[1..], sep)[0]] + Split(s[1..], sep)[1..]
  }

  lemma {:induction false} SplitPiece(x: string, s: string, sep: char)
    requires sep !in x
    ensures Split(x + s, sep) == [x + Split(s, sep)[0]] + Split(s, sep)[1..]
  {
    var r := Split(s, sep);
    if x == "" {
      assert x + s == s && x + r[0] == r[0] && r == [r[0]] + r[1..];
    } else {
      assert (x + s)[1..] == x[1..] + s && x == [x[0]] + x[1..];
      SplitPiece(x[1..], s, sep);
      assert [x[0]] + (x[1..] + r[0]) == x + r[0];
    }
  }

  lemma {:induction false} SplitJoin(parts: seq<string>, sep: char)
    requires parts != [] && forall i :: 0 <= i < |parts| ==> sep !in parts[i]
    ensures Split(Join(parts, sep), sep) == parts
  {
    var rest := if |parts| == 1 then "" else [sep] + Join(parts[1..], sep);
    assert Join(parts, sep) == parts[0] + rest;
    SplitPiece(parts[0], rest, sep);
    assert parts[0] + "" == parts[0];
    if |parts| > 1 {
      SplitJoin(parts[1..], sep);
      assert rest[1..] == Join(parts[1..], sep);
      assert Split(rest, sep) == [""] + parts[1..];
    } else {
      assert Split(rest, sep) == [""] && parts[1..] == [];
    }
    assert parts == [parts[0]] + parts[1..];
  }

  lemma {:induction false} JoinSnoc(parts: seq<string>, x: string, sep: char)
    ensures Join(parts + [x], sep) == if parts == [] then x else Join(parts, sep) + [sep] + x
  {
    if parts != [] {
      assert (parts + [x])[1..] == parts[1..] + [x];
      JoinSnoc(parts[1..], x, sep);
    }
  }

  /** strings.Join */
  method JoinParts(parts: seq<string>, sep: char) returns (s: string)
    ensures s == Join(parts, sep)
  {
    s := "";
    var i := 0;
    while i < |parts|
      invariant 0 <= i <= |parts| && s == Join(parts[..i], sep)
    {
      assert parts[..i + 1] == parts[..i] + [parts[i]];
      JoinSnoc(parts[..i], parts[i], sep);
      s := if i == 0 then parts[i] else s + [sep] + parts[i];
      i := i + 1;
    }
    assert parts[..|parts|] == parts;
  }

  // ---------------------------------------------------------------- words

  /** unicode.IsSpace. */
  predicate IsSpace(c: char) {
    '\t' <= c <= '\r' || c == ' ' || c == '\U{85}' || c == '\U{A0}' || c == '\U{1680}' || '\U{2000}' <= c <= '\U{200A}'
    || c == '\U{2028}' || c == '\U{2029}' || c == '\U{202F}' || c == '\U{205F}' || c == '\U{3000}'
  }

  function TrimLeft(s: string): string { if s != "" && IsSpace(s[0]) then TrimLeft(s[1..]) else s }

  function TrimRight(s: string): string { if s != "" && IsSpace(s[|s| - 1]) then TrimRight(s[..|s| - 1]) else s }

  /** strings.TrimSpace. */
  function TrimSpace(s: string): string { TrimRight(TrimLeft(s)) }

  /** The length of the word `s` starts with. */
  function WordLength(s: string): (n: nat)
    ensures n <= |s| && (n < |s| ==> IsSpace(s[n])) && forall i :: 0 <= i < n ==> !IsSpace(s[i])
  {
    if s == "" || IsSpace(s[0]) then 0 else 1 + WordLength(s[1..])
  }

  /** strings.Fields. */
  function Fields(s: string): (ws: seq<string>)
    ensures forall i :: 0 <= i < |ws| ==> IsWord(ws[i]) && forall c :: c in ws[i] ==> c in s
    decreases |s|
  {
    if s == "" then []
    else if IsSpace(s[0]) then Fields(s[1..])
    else [s[..WordLength(s)]] + Fields(s[WordLength(s)..])
  }

  predicate IsWord(w: string) { w != "" && forall i :: 0 <= i < |w| ==> !IsSpace(w[i]) }

  lemma {:induction false} WordEndsAtSpace(s: string, n: nat)
    requires n <= |s| && (n < |s| ==> IsSpace(s[n])) && forall i :: 0 <= i < n ==> !IsSpace(s[i])
    ensures WordLength(s) == n
  {
    if n > 0 { WordEndsAtSpace(s[1..], n - 1); }
  }

  lemma {:induction false} FieldsJoin(ws: seq<string>)
    requires forall i :: 0 <= i < |ws| ==> IsWord(ws[i])
    ensures Fields(Join(ws, ' ')) == ws
  {
    if ws != [] {
      var s := Join(ws, ' ');
      var rest := if |ws| == 1 then "" else [' '] + Join(ws[1..], ' ');
      assert s == ws[0] + rest && |rest| > 0 ==> s[|ws[0]|] == ' ';
      assert s[0] == ws[0][0];
      WordEndsAtSpace(s, |ws[0]|);
      assert s[..|ws[0]|] == ws[0] && s[|ws[0]|..] == rest;
      FieldsJoin(ws[1..]);
      if |ws| > 1 {
        assert rest[1..] == Join(ws[1..], ' ');
      } else {
        assert ws[1..] == [];
      }
      assert Fields(rest) == ws[1..];
    }
  }

  lemma {:induction false} JoinedChars(ws: seq<string>, sep: char)
    ensures forall c :: c in Join(ws, sep) ==> c == sep || exists i :: 0 <= i < |ws| && c in ws[i]
  {
    if |ws| > 1 {
      JoinedChars(ws[1..], sep);
      forall c | c in Join(ws, sep) && c != sep && c !in ws[0]
        ensures exists i :: 0 <= i < |ws| && c in ws[i]
      {
        assert c in Join(ws[1..], sep);
        var i :| 0 <= i < |ws[1..]| && c in ws[1..][i];
        assert c in ws[i + 1];
      }
    }
  }
}
