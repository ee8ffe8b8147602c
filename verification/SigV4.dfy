/** AWS Signature Version 4 canonicalisation: internal/deckstore/sigv4.go. */
module SigV4 {
  import opened Order
  import opened Strings

  /** A Go string: every character is a byte. */
  type Bytes = s: string | forall i :: 0 <= i < |s| ==> s[i] as int < 256

  // ---------------------------------------------------------------- percent-encoding

  /** RFC 3986 section 2.3. */
  predicate Unreserved(c: char) {
    'A' <= c <= 'Z' || 'a' <= c <= 'z' || '0' <= c <= '9' || c == '-' || c == '_' || c == '.' || c == '~'
  }

  function HexDigit(n: nat): char
    requires n < 16
  {
    if n < 10 then ('0' as int + n) as char else ('A' as int + n - 10) as char
  }

  predicate IsHexDigit(c: char) { '0' <= c <= '9' || 'A' <= c <= 'F' }

  function HexValue(c: char): nat
    requires IsHexDigit(c)
  {
    if c <= '9' then c as int - '0' as int else c as int - 'A' as int + 10
  }

  /** RFC 3986 section 2.1: unreserved bytes stand for themselves, others become %XX. */
  function EscapeByte(c: char): string
    requires c as int < 256
  {
    if Unreserved(c) then [c] else ['%', HexDigit(c as int / 16), HexDigit(c as int % 16)]
  }

  function Escape(s: Bytes): string {
    if s == "" then "" else EscapeByte(s[0]) + Escape(s[1..])
  }

  function Unescape(s: string): string {
    if s == "" then ""
    else if s[0] == '%' && |s| >= 3 && IsHexDigit(s[1]) && IsHexDigit(s[2])
    then [(16 * HexValue(s[1]) + HexValue(s[2])) as char] + Unescape(s[3..])
    else [s[0]] + Unescape(s[1..])
  }

  lemma {:induction false} EscapeSnoc(s: Bytes, c: char)
    requires c as int < 256
    ensures Escape(s + [c]) == Escape(s) + EscapeByte(c)
  {
    if s == "" {
      assert [c][1..] == "";
    } else {
      assert (s + [c])[1..] == s[1..] + [c];
      EscapeSnoc(s[1..], c);
    }
  }

  /** Byte by byte: letters, digits, '-', '_', '.' and '~' stand for themselves, every other byte is a percent sign and
      its two hexadecimal digits in upper case (section 2.3 of RFC 3986). */
  lemma EscapeExactly(s: Bytes, c: char, hi: nat, lo: nat)
    requires c as int == 16 * hi + lo && hi < 16 && lo < 16
    ensures Escape(s + [c]) == Escape(s) + if Plain(c) then [c] else ['%', UPPER_HEX[hi], UPPER_HEX[lo]]
  {
    EscapeSnoc(s, c);
    HexListed(hi);
    HexListed(lo);
    assert c as int / 16 == hi && c as int % 16 == lo;
  }

  predicate Plain(c: char) {
    ('A' <= c <= 'Z') || ('a' <= c <= 'z') || ('0' <= c <= '9') || c in "-_.~"
  }

  const UPPER_HEX := "0123456789ABCDEF"

  lemma HexListed(n: nat)
    requires n < 16
    ensures |UPPER_HEX| == 16 && HexDigit(n) == UPPER_HEX[n]
  {
  }

  method AwsQueryEscape(s: Bytes) returns (b: string)
    ensures b == Escape(s)
  {
    b := "";
    var i := 0;
    while i < |s|
      invariant 0 <= i <= |s| && b == Escape(s[..i])
    {
      var c := s[i];
      assert s[..i + 1] == s[..i] + [c];
      EscapeSnoc(s[..i], c);
      if 'A' <= c <= 'Z' || 'a' <= c <= 'z' || '0' <= c <= '9' || c == '-' || c == '_' || c == '.' || c == '~' {
        b := b + [c];
      } else {
        b := b + ['%', HexDigit(c as int / 16), HexDigit(c as int % 16)];
      }
      i := i + 1;
    }
    assert s[..|s|] == s;
  }

  lemma HexRoundTrip(c: char)
    requires c as int < 256
    ensures IsHexDigit(HexDigit(c as int / 16)) && IsHexDigit(HexDigit(c as int % 16))
    ensures 16 * HexValue(HexDigit(c as int / 16)) + HexValue(HexDigit(c as int % 16)) == c as int
  {
  }

  /** Percent-encoding loses nothing. */
  lemma {:induction false} UnescapeEscape(s: Bytes)
    ensures Unescape(Escape(s)) == s
  {
    if s != "" {
      UnescapeEscape(s[1..]);
      HexRoundTrip(s[0]);
      var e := Escape(s);
      if Unreserved(s[0]) {
        assert e[1..] == Escape(s[1..]);
      } else {
        assert e[3..] == Escape(s[1..]);
      }
    }
  }

  /** Output is made of unreserved characters and %XX triplets only; in particular it holds no
      '&', '=', '+' or space. */
  predicate Encoded(s: string) {
    s == ""
    || (Unreserved(s[0]) && Encoded(s[1..]))
    || (|s| >= 3 && s[0] == '%' && IsHexDigit(s[1]) && IsHexDigit(s[2]) && Encoded(s[3..]))
  }

  lemma {:induction false} EscapeIsEncoded(s: Bytes)
    ensures Encoded(Escape(s))
    ensures forall i :: 0 <= i < |Escape(s)| ==> Unreserved(Escape(s)[i]) || Escape(s)[i] == '%'
  {
    if s != "" {
      EscapeIsEncoded(s[1..]);
      HexRoundTrip(s[0]);
      var e := Escape(s);
      if Unreserved(s[0]) {
        assert e[1..] == Escape(s[1..]);
      } else {
        assert e[3..] == Escape(s[1..]);
      }
    }
  }

  lemma EscapeInjective(a: Bytes, b: Bytes)
    requires Escape(a) == Escape(b)
    ensures a == b
  {
    UnescapeEscape(a);
    UnescapeEscape(b);
  }

  // ---------------------------------------------------------------- order of encoded names

  /** Where two names first differ, the smaller byte is left alone and the larger is encoded. */
  predicate Flips(a: Bytes, b: Bytes) {
    a != "" && b != "" &&
    if a[0] == b[0] then Flips(a[1..], b[1..]) else a[0] < b[0] && Unreserved(a[0]) && !Unreserved(b[0])
  }

  lemma {:induction false} LessWithPrefix(p: string, a: string, b: string)
    ensures Less(p + a, p + b) == Less(a, b)
  {
    if p == "" {
      assert p + a == a && p + b == b;
    } else {
      assert (p + a)[1..] == p[1..] + a && (p + b)[1..] == p[1..] + b;
      LessWithPrefix(p[1..], a, b);
    }
  }

  lemma FirstByteDecides(c: char, d: char, s: string, t: string)
    requires c as int < 256 && d as int < 256 && c < d
    ensures Less(EscapeByte(c) + s, EscapeByte(d) + t) == !(Unreserved(c) && !Unreserved(d))
  {
    var x, y := EscapeByte(c) + s, EscapeByte(d) + t;
    if !Unreserved(c) && !Unreserved(d) {
      var ch, cl, dh, dl := HexDigit(c as int / 16), HexDigit(c as int % 16), HexDigit(d as int / 16), HexDigit(d as int % 16);
      assert x == ['%'] + ([ch] + ([cl] + s)) && y == ['%'] + ([dh] + ([dl] + t));
      LessWithPrefix(['%'], [ch] + ([cl] + s), [dh] + ([dl] + t));
      if ch == dh { LessWithPrefix([ch], [cl] + s, [dl] + t); }
    }
  }

  /** Sorting raw names and sorting encoded names agree on a pair exactly when it does not flip. */
  lemma {:induction false} EncodedOrderExact(a: Bytes, b: Bytes)
    requires Less(a, b)
    ensures Less(Escape(a), Escape(b)) <==> !Flips(a, b)
  {
    if a == "" {
      assert Escape(b) != "";
    } else if a[0] == b[0] {
      EncodedOrderExact(a[1..], b[1..]);
      LessWithPrefix(EscapeByte(a[0]), Escape(a[1..]), Escape(b[1..]));
    } else {
      FirstByteDecides(a[0], b[0], Escape(a[1..]), Escape(b[1..]));
    }
  }

  // ---------------------------------------------------------------- the canonical query

  /** url.Values as url.Query parses it: every key present has at least one value. */
  type Query = map<Bytes, seq<Bytes>>

  ghost predicate Parsed(q: Query) { forall k :: k in q ==> q[k] != [] }

  datatype Pair = Pair(k: Bytes, v: Bytes)

  predicate PairLessEq(a: Pair, b: Pair) { Less(a.k, b.k) || (a.k == b.k && LessEq(a.v, b.v)) }

  function Part(p: Pair): string { Escape(p.k) + "=" + Escape(p.v) }

  function Parts(ps: seq<Pair>): seq<string> { seq(|ps|, i requires 0 <= i < |ps| => Part(ps[i])) }

  ghost function Occurrences(q: Query, p: Pair): nat { if p.k in q then multiset(q[p.k])[p.v] else 0 }

  /** `ps` lists each key-value pair of `q` as often as `q` has it, by key and then by value. */
  ghost predicate Lists(ps: seq<Pair>, q: Query) {
    SortedBy(PairLessEq, ps) && forall p :: multiset(ps)[p] == Occurrences(q, p)
  }

  ghost predicate IsCanonicalQuery(s: string, q: Query) {
    exists ps :: Lists(ps, q) && s == Join(Parts(ps), '&')
  }

  /** The same keys, each with the same values however they are ordered. */
  ghost predicate SameQuery(q: Query, r: Query) {
    q.Keys == r.Keys && forall k :: k in q ==> multiset(q[k]) == multiset(r[k])
  }

  function KeyPairs(k: Bytes, vs: seq<Bytes>): seq<Pair> { seq(|vs|, i requires 0 <= i < |vs| => Pair(k, vs[i])) }

  lemma {:induction false} KeyPairsCount(k: Bytes, vs: seq<Bytes>, p: Pair)
    ensures multiset(KeyPairs(k, vs))[p] == if p.k == k then multiset(vs)[p.v] else 0
    decreases |vs|
  {
    if vs != [] {
      var n := |vs| - 1;
      KeyPairsCount(k, vs[..n], p);
      assert KeyPairs(k, vs) == KeyPairs(k, vs[..n]) + [Pair(k, vs[n])];
      assert vs == vs[..n] + [vs[n]];
    }
  }

  lemma PairOrder(a: Pair, b: Pair)
    requires PairLessEq(a, b) && PairLessEq(b, a)
    ensures a == b
  {
    Trichotomy(a.k, b.k);
    Trichotomy(a.v, b.v);
  }

  lemma EscapeClean(s: Bytes)
    ensures '&' !in Escape(s) && '=' !in Escape(s)
  {
    EscapeIsEncoded(s);
  }

  lemma JoinTwo(a: string, b: string)
    ensures Join([a, b], '=') == a + "=" + b
  {
    assert [a, b][1..] == [b];
  }

  lemma PartSplits(p: Pair)
    ensures '&' !in Part(p) && Split(Part(p), '=') == [Escape(p.k), Escape(p.v)]
  {
    EscapeClean(p.k);
    EscapeClean(p.v);
    JoinTwo(Escape(p.k), Escape(p.v));
    SplitJoin([Escape(p.k), Escape(p.v)], '=');
  }

  lemma EmptyJoin(ps: seq<Pair>)
    ensures Join(Parts(ps), '&') == "" <==> ps == []
  {
    if ps != [] {
      var parts := Parts(ps);
      assert parts[0] == Part(ps[0]) && '=' in parts[0];
      assert parts[0] <= Join(parts, '&');
    }
  }

  lemma ListingRecovered(ps: seq<Pair>, qs: seq<Pair>)
    requires Join(Parts(ps), '&') == Join(Parts(qs), '&')
    ensures ps == qs
  {
    EmptyJoin(ps);
    EmptyJoin(qs);
    if ps != [] {
      forall i | 0 <= i < |ps| ensures '&' !in Parts(ps)[i] { PartSplits(ps[i]); }
      forall i | 0 <= i < |qs| ensures '&' !in Parts(qs)[i] { PartSplits(qs[i]); }
      SplitJoin(Parts(ps), '&');
      SplitJoin(Parts(qs), '&');
      assert |Parts(ps)| == |Parts(qs)|;
      forall i | 0 <= i < |ps| ensures ps[i] == qs[i] {
        assert Parts(ps)[i] == Parts(qs)[i];
        PartInjective(ps[i], qs[i]);
      }
    }
  }

  lemma PartInjective(p: Pair, q: Pair)
    requires Part(p) == Part(q)
    ensures p == q
  {
    PartSplits(p);
    PartSplits(q);
    EscapeInjective(p.k, q.k);
    EscapeInjective(p.v, q.v);
  }

  lemma SameListing(q: Query, r: Query, ps: seq<Pair>, rs: seq<Pair>)
    requires SameQuery(q, r) && Lists(ps, q) && Lists(rs, r)
    ensures ps == rs
  {
    forall p ensures multiset(ps)[p] == multiset(rs)[p] {
      assert Occurrences(q, p) == Occurrences(r, p);
    }
    assert multiset(ps) == multiset(rs);
    forall x, y | PairLessEq(x, y) && PairLessEq(y, x) ensures x == y { PairOrder(x, y); }
    SortedUnique(PairLessEq, ps, rs);
  }

  /** A canonical form: two queries sign to the same string exactly when they have the same keys with
      the same values, whatever order the map or the values came in. */
  lemma CanonicalQueryExact(s: string, q: Query, t: string, r: Query)
    requires Parsed(q) && Parsed(r) && IsCanonicalQuery(s, q) && IsCanonicalQuery(t, r)
    ensures s == t <==> SameQuery(q, r)
  {
    var ps :| Lists(ps, q) && s == Join(Parts(ps), '&');
    var rs :| Lists(rs, r) && t == Join(Parts(rs), '&');
    if s == t {
      ListingRecovered(ps, rs);
      SameOccurrences(q, r, ps);
    }
    if SameQuery(q, r) {
      SameListing(q, r, ps, rs);
    }
  }

  /** What two parameters look like. */
  lemma TwoParameters(k: Bytes, v: Bytes, l: Bytes, w: Bytes)
    requires Less(k, l)
    ensures IsCanonicalQuery(Escape(k) + "=" + Escape(v) + "&" + (Escape(l) + "=" + Escape(w)), map[k := [v], l := [w]])
  {
    Trichotomy(k, l);
    var ps, q := [Pair(k, v), Pair(l, w)], map[k := [v], l := [w]];
    TwoListed(k, v, l, w, ps, q);
    TwoRendered(ps, q);
  }

  lemma TwoRendered(ps: seq<Pair>, q: Query)
    requires |ps| == 2 && Lists(ps, q)
    ensures IsCanonicalQuery(Part(ps[0]) + "&" + Part(ps[1]), q)
  {
    var parts := Parts(ps);
    assert parts == [Part(ps[0]), Part(ps[1])] && parts[1..] == [Part(ps[1])];
    assert Join(parts, '&') == Part(ps[0]) + "&" + Part(ps[1]);
  }

  lemma TwoListed(k: Bytes, v: Bytes, l: Bytes, w: Bytes, ps: seq<Pair>, q: Query)
    requires Less(k, l) && k != l && ps == [Pair(k, v), Pair(l, w)] && q == map[k := [v], l := [w]]
    ensures Lists(ps, q)
  {
    forall p: Pair ensures multiset(ps)[p] == Occurrences(q, p) {
      TwoCounted(k, v, l, w, ps, q, p);
    }
    TwoInOrder(ps);
  }

  lemma TwoCounted(k: Bytes, v: Bytes, l: Bytes, w: Bytes, ps: seq<Pair>, q: Query, p: Pair)
    requires k != l && ps == [Pair(k, v), Pair(l, w)] && q == map[k := [v], l := [w]]
    ensures multiset(ps)[p] == Occurrences(q, p)
  {
    Single(v, p.v);
    Single(w, p.v);
    Couple(Pair(k, v), Pair(l, w), p);
  }

  lemma TwoInOrder(ps: seq<Pair>)
    requires |ps| == 2 && Less(ps[0].k, ps[1].k)
    ensures SortedBy(PairLessEq, ps)
  {
  }

  lemma Single<T>(x: T, y: T)
    ensures multiset([x])[y] == if x == y then 1 else 0
  {
  }

  lemma Couple<T>(a: T, b: T, x: T)
    ensures multiset([a, b])[x] == (if a == x then 1 else 0) + if b == x then 1 else 0
  {
    assert [a, b] == [a] + [b];
  }

  lemma SameOccurrences(q: Query, r: Query, ps: seq<Pair>)
    requires Parsed(q) && Parsed(r) && Lists(ps, q) && Lists(ps, r)
    ensures SameQuery(q, r)
  {
    forall k: Bytes ensures k in q <==> k in r {
      if k in q { assert multiset(ps)[Pair(k, q[k][0])] > 0; }
      if k in r { assert multiset(ps)[Pair(k, r[k][0])] > 0; }
    }
    forall k | k in q ensures multiset(q[k]) == multiset(r[k]) {
      forall v: string ensures multiset(q[k])[v] == multiset(r[k])[v] {
        if v in multiset(q[k]) || v in multiset(r[k]) {
          var b: Bytes := v;
          assert Occurrences(q, Pair(k, b)) == Occurrences(r, Pair(k, b));
        }
      }
    }
  }

  /** The pairs of keys done so far, in canonical order. */
  ghost predicate ListsKeys(ps: seq<Pair>, q: Query, keys: seq<Bytes>) {
    && SortedBy(PairLessEq, ps)
    && forall p :: multiset(ps)[p] == if p.k in keys then Occurrences(q, p) else 0
  }

  lemma AddKeySorted(ps: seq<Pair>, q: Query, keys: seq<Bytes>, k: Bytes, vs: seq<Bytes>)
    requires ListsKeys(ps, q, keys) && Sorted(vs)
    requires forall j :: 0 <= j < |keys| ==> Less(keys[j], k)
    ensures SortedBy(PairLessEq, ps + KeyPairs(k, vs))
  {
    var qs := ps + KeyPairs(k, vs);
    forall i, j | 0 <= i < j < |qs| ensures PairLessEq(qs[i], qs[j]) {
      if i < |ps| <= j {
        assert ps[i] in multiset(ps) && ps[i].k in keys;
      }
    }
  }

  lemma AddKey(ps: seq<Pair>, q: Query, keys: seq<Bytes>, k: Bytes, vs: seq<Bytes>)
    requires ListsKeys(ps, q, keys) && k in q && multiset(vs) == multiset(q[k]) && Sorted(vs)
    requires forall j :: 0 <= j < |keys| ==> Less(keys[j], k)
    ensures ListsKeys(ps + KeyPairs(k, vs), q, keys + [k])
  {
    Trichotomy(k, k);
    AddKeySorted(ps, q, keys, k, vs);
    var qs := ps + KeyPairs(k, vs);
    forall p: Pair ensures multiset(qs)[p] == if p.k in keys + [k] then Occurrences(q, p) else 0 {
      KeyPairsCount(k, vs, p);
      assert multiset(qs)[p] == multiset(ps)[p] + multiset(KeyPairs(k, vs))[p];
      assert p.k in keys + [k] <==> p.k in keys || p.k == k;
    }
  }

  lemma PartsConcat(ps: seq<Pair>, qs: seq<Pair>)
    ensures Parts(ps + qs) == Parts(ps) + Parts(qs)
  {
  }

  method CollectKeys(q: Query) returns (keys: seq<Bytes>)
    ensures multiset(keys) == multiset(q.Keys)
  {
    keys := [];
    var left := q.Keys;
    while left != {}
      invariant left <= q.Keys && multiset(keys) == multiset(q.Keys - left)
      decreases left
    {
      var k :| k in left;
      assert q.Keys - (left - {k}) == (q.Keys - left) + {k};
      keys := keys + [k];
      left := left - {k};
    }
    assert q.Keys - {} == q.Keys;
  }

  lemma RepeatCounts(keys: seq<string>, i: nat, j: nat)
    requires i < j < |keys| && keys[i] == keys[j]
    ensures multiset(keys)[keys[i]] >= 2
  {
    assert keys == keys[..i] + [keys[i]] + keys[i + 1..j] + [keys[i]] + keys[j + 1..];
  }

  lemma DistinctSorted(keys: seq<string>, s: set<string>)
    requires Sorted(keys) && multiset(keys) == multiset(s)
    ensures StrictlySorted(keys)
  {
    forall i, j | 0 <= i < j < |keys| ensures keys[i] != keys[j] {
      assert multiset(keys)[keys[i]] <= 1;
      if keys[i] == keys[j] { RepeatCounts(keys, i, j); }
    }
  }

  method SortBytes(s: seq<Bytes>) returns (r: seq<Bytes>)
    ensures Sorted(r) && multiset(r) == multiset(s)
  {
    var t := SortStrings(s);
    assert forall i :: 0 <= i < |t| ==> t[i] in multiset(t);
    assert forall i :: 0 <= i < |t| ==> t[i] in s;
    r := t;
  }

  /** The loop over one key's values: appends its parts in order. */
  method AppendValues(parts: seq<string>, k: Bytes, vs: seq<Bytes>) returns (r: seq<string>)
    ensures r == parts + Parts(KeyPairs(k, vs))
  {
    r := parts;
    var j := 0;
    while j < |vs|
      invariant 0 <= j <= |vs| && r == parts + Parts(KeyPairs(k, vs[..j]))
    {
      var ek := AwsQueryEscape(k);
      var ev := AwsQueryEscape(vs[j]);
      assert KeyPairs(k, vs[..j + 1]) == KeyPairs(k, vs[..j]) + [Pair(k, vs[j])];
      PartsConcat(KeyPairs(k, vs[..j]), [Pair(k, vs[j])]);
      r := r + [ek + "=" + ev];
      j := j + 1;
    }
    assert vs[..|vs|] == vs;
  }

  method BuildCanonicalQuery(q: Query) returns (s: string)
    ensures IsCanonicalQuery(s, q)
  {
    ghost var ps: seq<Pair> := [];
    if |q| == 0 {
      assert Lists(ps, q) && Join(Parts(ps), '&') == "";
      return "";
    }
    var keys := CollectKeys(q);
    keys := SortBytes(keys);
    DistinctSorted(keys, q.Keys);
    var parts := [];
    var i := 0;
    while i < |keys|
      invariant 0 <= i <= |keys| && parts == Parts(ps) && ListsKeys(ps, q, keys[..i])
    {
      var k := keys[i];
      assert k in multiset(keys);
      var vs := SortBytes(q[k]);
      assert keys[..i + 1] == keys[..i] + [k];
      AddKey(ps, q, keys[..i], k, vs);
      PartsConcat(ps, KeyPairs(k, vs));
      parts := AppendValues(parts, k, vs);
      ps := ps + KeyPairs(k, vs);
      i := i + 1;
    }
    assert keys[..|keys|] == keys;
    assert Lists(ps, q) by {
      forall p: Pair ensures multiset(ps)[p] == Occurrences(q, p) {
        assert p.k in keys <==> p.k in multiset(keys);
      }
    }
    s := JoinParts(parts, '&');
  }

  /** The parameter names come out in the order of their encoded form, which is the order the SigV4
      standard asks for, exactly when no two names flip. */
  lemma EncodedNameOrderExact(keys: seq<Bytes>)
    requires StrictlySorted(keys)
    ensures (forall i, j :: 0 <= i < j < |keys| ==> Less(Escape(keys[i]), Escape(keys[j])))
       <==> (forall i, j :: 0 <= i < j < |keys| ==> !Flips(keys[i], keys[j]))
  {
    forall i, j | 0 <= i < j < |keys| ensures Less(Escape(keys[i]), Escape(keys[j])) == !Flips(keys[i], keys[j]) {
      EncodedOrderExact(keys[i], keys[j]);
    }
  }

  /** Names made of unreserved bytes only, like those of the S3 listing, never flip. */
  lemma {:induction false} UnreservedNeverFlips(a: Bytes, b: Bytes)
    requires forall i :: 0 <= i < |b| ==> Unreserved(b[i])
    ensures !Flips(a, b)
  {
    if a != "" && b != "" { UnreservedNeverFlips(a[1..], b[1..]); }
  }

  /** Two names that do flip: raw order puts "z" first, encoded order puts "%7B" first. */
  lemma FlippedNames()
    ensures Less("z", "{") && Less(Escape("{"), Escape("z"))
  {
    assert Flips("z", "{");
    EncodedOrderExact("z", "{");
    Trichotomy(Escape("{"), Escape("z"));
    UnescapeEscape("{");
    UnescapeEscape("z");
  }
}
