/** The Hitster card index of internal/resolver/resolver.go: loading the gameset database, looking a
    scanned card up, and listing a deck. */
module CardIndex {
  import opened Decimal
  import opened Strings

  datatype Card = Card(number: string, track: string)

  datatype Gameset = Gameset(sku: string, cards: seq<Card>)

  datatype Database = Database(updatedOn: int, gamesets: seq<Gameset>)

  // ---------------------------------------------------------------- the database read in order

  /** A card with the lower-cased SKU of its gameset. */
  datatype Entry = Entry(sku: string, card: Card)

  function CardEntries(sku: string, cards: seq<Card>): (es: seq<Entry>)
    ensures |es| == |cards| && forall i :: 0 <= i < |cards| ==> es[i] == Entry(sku, cards[i])
  {
    seq(|cards|, i requires 0 <= i < |cards| => Entry(sku, cards[i]))
  }

  /** Every card of the database in the order it is loaded. */
  function Entries(lower: char -> char, gamesets: seq<Gameset>): seq<Entry> {
    if gamesets == [] then [] else
    var last := gamesets[|gamesets| - 1];
    Entries(lower, gamesets[..|gamesets| - 1]) + CardEntries(Lowered(lower, last.sku), last.cards)
  }

  datatype Answer = Track(id: string) | Unknown

  /** The last card of deck `sku` with this number: the answer of a scan through the database. */
  function LastCard(es: seq<Entry>, sku: string, number: string): Answer {
    if es == [] then Unknown else
    var e := es[|es| - 1];
    if e.sku == sku && e.card.number == number then Track(e.card.track)
    else LastCard(es[..|es| - 1], sku, number)
  }

  // ---------------------------------------------------------------- the index

  function Key(sku: string, number: string): string { sku + ":" + number }

  /** `lookup` holds under every key the last card loaded under it. */
  ghost predicate Indexes(lookup: map<string, string>, es: seq<Entry>) {
    forall key :: At(lookup, key) == LastKeyed(es, key)
  }

  function At(lookup: map<string, string>, key: string): Answer {
    if key in lookup then Track(lookup[key]) else Unknown
  }

  function LastKeyed(es: seq<Entry>, key: string): Answer {
    if es == [] then Unknown else
    var e := es[|es| - 1];
    if Key(e.sku, e.card.number) == key then Track(e.card.track) else LastKeyed(es[..|es| - 1], key)
  }

  lemma IndexesNext(lookup: map<string, string>, es: seq<Entry>, e: Entry)
    requires Indexes(lookup, es)
    ensures Indexes(lookup[Key(e.sku, e.card.number) := e.card.track], es + [e])
  {
    var next := lookup[Key(e.sku, e.card.number) := e.card.track];
    forall key ensures At(next, key) == LastKeyed(es + [e], key) {
      assert (es + [e])[..|es|] == es;
      assert At(lookup, key) == LastKeyed(es, key);
    }
  }

  method BuildIndex(lower: char -> char, gamesets: seq<Gameset>) returns (lookup: map<string, string>)
    ensures Indexes(lookup, Entries(lower, gamesets))
  {
    lookup := map[];
    for i := 0 to |gamesets|
      invariant Indexes(lookup, Entries(lower, gamesets[..i]))
    {
      assert gamesets[..i + 1][..i] == gamesets[..i];
      lookup := AddCards(lookup, Lowered(lower, gamesets[i].sku), gamesets[i].cards, Entries(lower, gamesets[..i]));
    }
    assert gamesets[..|gamesets|] == gamesets;
  }

  method AddCards(before: map<string, string>, sku: string, cards: seq<Card>, ghost done: seq<Entry>)
    returns (lookup: map<string, string>)
    requires Indexes(before, done)
    ensures Indexes(lookup, done + CardEntries(sku, cards))
  {
    lookup := before;
    assert done + CardEntries(sku, cards[..0]) == done;
    for j := 0 to |cards|
      invariant Indexes(lookup, done + CardEntries(sku, cards[..j]))
    {
      ghost var es := done + CardEntries(sku, cards[..j]);
      IndexesNext(lookup, es, Entry(sku, cards[j]));
      assert es + [Entry(sku, cards[j])] == done + CardEntries(sku, cards[..j + 1]);
      lookup := lookup[Key(sku, cards[j].number) := cards[j].track];
    }
    assert cards[..|cards|] == cards;
  }

  // ---------------------------------------------------------------- the scanned card

  predicate IsDeckId(s: string) { s != "" && forall i :: 0 <= i < |s| ==> IsAlnum(s[i]) }

  predicate IsCardId(s: string) { s != "" && AllDigits(s) }

  const HOST := "hitstergame.com"

  /** What is behind the host's port number does not matter. */
  function HostName(lower: char -> char, host: string): string { Split(Lowered(lower, host), ':')[0] }

  datatype Segments = Segments(deck: string, card: string) | NotHitster

  /** parseHitsterURL once url.Parse has given the host and the path, which is trimmed of slashes and split. */
  function ParseHitster(lower: char -> char, host: string, parts: seq<string>): Segments {
    var name := HostName(lower, host);
    if name != HOST && !HasSuffix(name, "." + HOST) then NotHitster
    else if |parts| < 3 || !IsDeckId(parts[1]) || !IsCardId(parts[2]) then NotHitster
    else Segments(parts[1], parts[2])
  }

  /** Which URLs are taken, for lower-case host names: those of hitstergame.com and of what ends in .hitstergame.com,
      with or without a port, whose second segment has letters and digits only and whose third digits only. */
  lemma UrlsTaken(lower: char -> char, name: string, port: string, parts: seq<string>)
    requires ':' !in name && Lowered(lower, name) == name && lower(':') == ':'
    ensures ParseHitster(lower, name, parts)
         == if GoodHost(name) && GoodPath(parts) then Segments(parts[1], parts[2]) else NotHitster
    ensures ParseHitster(lower, name + ":" + port, parts) == ParseHitster(lower, name, parts)
  {
    NameBeforePort(lower, name, "");
    NameBeforePort(lower, name, ":" + port);
    assert name + "" == name && name + (":" + port) == name + ":" + port;
    PathRead(parts);
    assert "." + HOST == ".hitstergame.com";
  }

  ghost predicate GoodHost(name: string) { name == "hitstergame.com" || HasSuffix(name, ".hitstergame.com") }

  ghost predicate GoodPath(parts: seq<string>) {
    && |parts| >= 3 && |parts[1]| >= 1 && |parts[2]| >= 1
    && (forall c :: c in parts[1] ==> '0' <= c <= '9' || 'A' <= c <= 'Z' || 'a' <= c <= 'z')
    && (forall c :: c in parts[2] ==> '0' <= c <= '9')
  }

  lemma PathRead(parts: seq<string>)
    ensures GoodPath(parts) <==> |parts| >= 3 && IsDeckId(parts[1]) && IsCardId(parts[2])
  {
    if |parts| >= 3 {
      assert forall i :: 0 <= i < |parts[1]| ==> parts[1][i] in parts[1];
      assert forall i :: 0 <= i < |parts[2]| ==> parts[2][i] in parts[2];
    }
  }

  lemma NameBeforePort(lower: char -> char, name: string, rest: string)
    requires ':' !in name && Lowered(lower, name) == name && lower(':') == ':' && (rest == "" || rest[0] == ':')
    ensures HostName(lower, name + rest) == name
  {
    assert Lowered(lower, name + rest) == name + Lowered(lower, rest);
    SplitPiece(name, Lowered(lower, rest), ':');
    assert name + "" == name;
  }

  /** Upper and lower case of the host do not matter. */
  lemma HostCase(lower: char -> char, host: string, host2: string, parts: seq<string>)
    requires Lowered(lower, host) == Lowered(lower, host2)
    ensures ParseHitster(lower, host, parts) == ParseHitster(lower, host2, parts)
  {
  }

  /** The card number as the database writes it: at least five digits. */
  function Canonical(card: string): string {
    var n := Atoi(card);
    if n.Int? && n.n >= 0 then Padded5(n.n)
    else if |card| < 5 then Zeros(5 - |card|) + card else card
  }

  /** Atoi reads every card number up to the largest int, and no other. */
  lemma AtoiOfCard(card: string)
    requires IsCardId(card)
    ensures Atoi(card) == if Value(card) <= INT64_MAX then Int(Value(card)) else NotAnInt
  {
  }

  function PowerOfTen(n: nat): nat { if n == 0 then 1 else 10 * PowerOfTen(n - 1) }

  lemma {:induction false} ValueBelow(s: string)
    requires AllDigits(s)
    ensures Value(s) < PowerOfTen(|s|)
  {
    if s != "" { ValueBelow(s[..|s| - 1]); }
  }

  lemma ShortValue(card: string)
    requires AllDigits(card) && |card| < 5
    ensures Value(card) < 10000
  {
    ValueBelow(card);
    assert PowerOfTen(1) == 10 && PowerOfTen(2) == 100 && PowerOfTen(3) == 1000 && PowerOfTen(4) == 10000;
  }

  lemma PaddedValue(n: nat)
    ensures Value(Padded5(n)) == n
  {
    if |Digits(n)| < 5 { ValueLeadingZeros(5 - |Digits(n)|, Digits(n)); }
  }

  lemma CanonicalCases(card: string)
    requires IsCardId(card)
    ensures Canonical(card) == if Value(card) <= INT64_MAX then Padded5(Value(card)) else card
    ensures AllDigits(Canonical(card)) && Value(Canonical(card)) == Value(card)
  {
    AtoiOfCard(card);
    if Value(card) <= INT64_MAX { PaddedValue(Value(card)); } else if |card| < 5 { ShortValue(card); }
  }

  /** What a card is looked up under: the one numeral of its number that has five digits or, when the number needs
      more, as many as it needs; and the very text when the number is too large for an int. */
  lemma CanonicalText(card: string)
    requires IsCardId(card)
    ensures AllDigits(Canonical(card)) && Value(Canonical(card)) == Value(card) && |Canonical(card)| >= 5
    ensures Value(card) <= INT64_MAX && |Canonical(card)| > 5 ==> Canonical(card)[0] != '0'
    ensures Value(card) > INT64_MAX ==> Canonical(card) == card
  {
    CanonicalCases(card);
    if |card| < 5 { ShortValue(card); }
  }

  /** There is only one such numeral. */
  lemma {:induction false} NumeralUnique(a: string, b: string)
    requires AllDigits(a) && AllDigits(b) && Value(a) == Value(b) && |a| >= |b| >= 5 && (|a| > 5 ==> a[0] != '0')
    ensures a == b
  {
    if |a| == |b| {
      SameLengthSameNumeral(a, b);
    } else {
      ValueBelow(b);
      ValueAtLeast(a);
      PowersGrow(|b|, |a| - 1);
    }
  }

  lemma {:induction false} SameLengthSameNumeral(a: string, b: string)
    requires AllDigits(a) && AllDigits(b) && Value(a) == Value(b) && |a| == |b|
    ensures a == b
  {
    if a != "" {
      SameLengthSameNumeral(a[..|a| - 1], b[..|b| - 1]);
      assert a == a[..|a| - 1] + [a[|a| - 1]] && b == b[..|b| - 1] + [b[|b| - 1]];
    }
  }

  lemma {:induction false} ValueAtLeast(s: string)
    requires AllDigits(s) && s != "" && s[0] != '0'
    ensures Value(s) >= PowerOfTen(|s| - 1)
  {
    if |s| > 1 { ValueAtLeast(s[..|s| - 1]); }
  }

  lemma {:induction false} PowersGrow(m: nat, n: nat)
    requires m <= n
    ensures PowerOfTen(m) <= PowerOfTen(n)
  {
    if m < n { PowersGrow(m, n - 1); }
  }

  /** Card numbers of up to five digits are filled up with zeros: card 1 is looked up as 00001. */
  lemma ShortCards(card: string)
    requires IsCardId(card) && |card| <= 5
    ensures Canonical(card) == Zeros(5 - |card|) + card
  {
    var c := Zeros(5 - |card|) + card;
    ValueLeadingZeros(5 - |card|, card);
    CanonicalText(card);
    ValueBelow(c);
    assert PowerOfTen(1) == 10 && PowerOfTen(2) == 100 && PowerOfTen(3) == 1000 && PowerOfTen(4) == 10000;
    NumeralUnique(Canonical(card), c);
  }

  /** Two spellings name the same card exactly when they are the same number, except that numbers too
      large for an int have to be spelled alike. */
  lemma CanonicalExact(a: string, b: string)
    requires IsCardId(a) && IsCardId(b)
    ensures Canonical(a) == Canonical(b) <==> Value(a) == Value(b) && (Value(a) <= INT64_MAX || a == b)
  {
    CanonicalCases(a);
    CanonicalCases(b);
  }

  /** Leading zeros do not matter, up to the largest int; beyond it every one of them does. */
  lemma LeadingZerosExact(zeros: nat, card: string)
    requires IsCardId(card)
    ensures IsCardId(Zeros(zeros) + card)
    ensures Canonical(Zeros(zeros) + card) == Canonical(card) <==> zeros == 0 || Value(card) <= INT64_MAX
  {
    ValueLeadingZeros(zeros, card);
    CanonicalExact(Zeros(zeros) + card, card);
    assert zeros > 0 ==> |Zeros(zeros) + card| > |card|;
    assert zeros == 0 ==> Zeros(zeros) + card == card;
  }

  // ---------------------------------------------------------------- the index agrees with a scan

  lemma ColonTooEarly(deck: string, card: string, sku: string, number: string)
    requires ':' !in deck && |sku| < |deck|
    ensures Key(sku, number) != Key(deck, card)
  {
    assert Key(sku, number)[|sku|] == ':';
    assert Key(deck, card)[|sku|] == deck[|sku|];
  }

  lemma ColonTooLate(deck: string, card: string, sku: string, number: string)
    requires ':' !in card && |sku| > |deck|
    ensures Key(sku, number) != Key(deck, card)
  {
    if |Key(sku, number)| == |Key(deck, card)| {
      assert Key(sku, number)[|sku|] == ':';
      assert Key(deck, card)[|sku|] == card[|sku| - |deck| - 1];
    }
  }

  lemma ColonInPlace(deck: string, card: string, sku: string, number: string)
    requires |sku| == |deck| && Key(sku, number) == Key(deck, card)
    ensures sku == deck && number == card
  {
    assert sku == Key(sku, number)[..|sku|] && deck == Key(deck, card)[..|deck|];
    assert number == Key(sku, number)[|sku| + 1..] && card == Key(deck, card)[|deck| + 1..];
  }

  /** A deck id and a card number are told apart from their key whatever SKUs and numbers the database
      holds: the key of a scanned card has one colon only. */
  lemma KeyOfScannedCard(deck: string, card: string, sku: string, number: string)
    requires ':' !in deck && ':' !in card
    ensures Key(sku, number) == Key(deck, card) <==> sku == deck && number == card
  {
    if |sku| < |deck| { ColonTooEarly(deck, card, sku, number); }
    else if |sku| > |deck| { ColonTooLate(deck, card, sku, number); }
    else if Key(sku, number) == Key(deck, card) { ColonInPlace(deck, card, sku, number); }
  }

  lemma {:induction false} KeyedIsScanned(es: seq<Entry>, deck: string, card: string)
    requires ':' !in deck && ':' !in card
    ensures LastKeyed(es, Key(deck, card)) == LastCard(es, deck, card)
  {
    if es != [] {
      var e := es[|es| - 1];
      KeyOfScannedCard(deck, card, e.sku, e.card.number);
      KeyedIsScanned(es[..|es| - 1], deck, card);
    }
  }

  lemma NoColons(lower: char -> char, deck: string, card: string)
    requires IsLowering(lower) && IsDeckId(deck) && IsCardId(card)
    ensures ':' !in Lowered(lower, deck) && ':' !in Canonical(card)
  {
    CanonicalCases(card);
    var low := Lowered(lower, deck);
    assert forall i :: 0 <= i < |low| ==> low[i] == lower(deck[i]) && IsAlnum(deck[i]) && low[i] != ':';
    assert forall i :: 0 <= i < |Canonical(card)| ==> IsDigit(Canonical(card)[i]);
  }

  datatype Resolved = Resolved(track: string, deck: string) | NotValid | NotFound

  /** The answer of a scan: the last card in load order of a gameset whose SKU is the deck id up to
      case, under the canonical number. */
  function Scan(lower: char -> char, db: Database, host: string, parts: seq<string>): Resolved {
    match ParseHitster(lower, host, parts)
    case NotHitster => NotValid
    case Segments(deck, card) =>
      match LastCard(Entries(lower, db.gamesets), Lowered(lower, deck), Canonical(card))
      case Track(id) => Resolved(id, Lowered(lower, deck))
      case Unknown => NotFound
  }

  /** How the index answers. */
  function LookedUp(lower: char -> char, lookup: map<string, string>, host: string, parts: seq<string>): Resolved {
    match ParseHitster(lower, host, parts)
    case NotHitster => NotValid
    case Segments(deck, card) =>
      match At(lookup, Key(Lowered(lower, deck), Canonical(card)))
      case Track(id) => Resolved(id, Lowered(lower, deck))
      case Unknown => NotFound
  }

  /** The index answers every scanned URL as a scan through the database does. */
  lemma IndexAgreesWithScan(lower: char -> char, lookup: map<string, string>, db: Database, host: string, parts: seq<string>)
    requires IsLowering(lower) && Indexes(lookup, Entries(lower, db.gamesets))
    ensures LookedUp(lower, lookup, host, parts) == Scan(lower, db, host, parts)
  {
    match ParseHitster(lower, host, parts)
    case NotHitster =>
    case Segments(deck, card) =>
      NoColons(lower, deck, card);
      KeyedIsScanned(Entries(lower, db.gamesets), Lowered(lower, deck), Canonical(card));
  }

  /** Neither the case of the deck id nor leading zeros of the card number change the answer. */
  lemma SpellingDoesNotMatter(lower: char -> char, lookup: map<string, string>, host: string,
                              lang: string, deck: string, card: string, lang2: string, deck2: string, zeros: nat)
    requires IsDeckId(deck) && IsDeckId(deck2) && IsCardId(card)
    requires Lowered(lower, deck) == Lowered(lower, deck2) && Value(card) <= INT64_MAX
    ensures LookedUp(lower, lookup, host, [lang, deck, card])
         == LookedUp(lower, lookup, host, [lang2, deck2, Zeros(zeros) + card])
  {
    LeadingZerosExact(zeros, card);
  }

  // ---------------------------------------------------------------- listing a deck

  function CutPrefix(s: string, prefix: string): (rest: string)
    requires prefix <= s
    ensures s == prefix + rest
  {
    s[|prefix|..]
  }

  /** `cards` is what the index holds under keys that start with `deck` and a colon. */
  ghost predicate CardsUnder(lookup: map<string, string>, deck: string, cards: map<string, string>) {
    forall number :: At(cards, number) == At(lookup, Key(deck, number))
  }

  method ListDeck(lookup: map<string, string>, deck: string) returns (cards: map<string, string>)
    ensures CardsUnder(lookup, deck, cards)
  {
    var prefix := deck + ":";
    cards := map[];
    var left := lookup.Keys;
    while left != {}
      invariant left <= lookup.Keys
      invariant forall n :: n in cards ==> Key(deck, n) in lookup && cards[n] == lookup[Key(deck, n)]
      invariant forall n :: Key(deck, n) in lookup && Key(deck, n) !in left ==> n in cards
      decreases left
    {
      var key :| key in left;
      left := left - {key};
      if prefix <= key {
        cards := cards[CutPrefix(key, prefix) := lookup[key]];
        assert Key(deck, CutPrefix(key, prefix)) == key;
      }
      assert forall n :: Key(deck, n) == key ==> prefix <= key && n == key[|prefix|..];
    }
  }

  /** Every card that resolves is listed for the deck it resolved to, with the same track. */
  lemma ResolvedIsListed(lower: char -> char, lookup: map<string, string>, host: string, parts: seq<string>,
                         cards: map<string, string>)
    requires LookedUp(lower, lookup, host, parts).Resolved?
    requires CardsUnder(lookup, LookedUp(lower, lookup, host, parts).deck, cards)
    ensures At(cards, Canonical(parts[2])) == Track(LookedUp(lower, lookup, host, parts).track)
  {
  }

  /** `cards` is the deck as the database has it. */
  ghost predicate IsDeck(es: seq<Entry>, deck: string, cards: map<string, string>) {
    forall number :: At(cards, number) == LastCard(es, deck, number)
  }

  /** No other gameset's SKU goes on with a colon after the deck id. */
  ghost predicate NoSkuExtends(es: seq<Entry>, deck: string) {
    forall i :: 0 <= i < |es| ==> !(deck + ":" <= es[i].sku)
  }

  lemma KeyInDeck(deck: string, card: string, sku: string, number: string)
    requires ':' !in deck && !(deck + ":" <= sku)
    ensures Key(sku, number) == Key(deck, card) <==> sku == deck && number == card
  {
    if |sku| < |deck| { ColonTooEarly(deck, card, sku, number); }
    else if |sku| > |deck| {
      assert Key(sku, number)[..|deck| + 1] == sku[..|deck| + 1];
      assert Key(deck, card)[..|deck| + 1] == deck + ":";
    }
    else if Key(sku, number) == Key(deck, card) { ColonInPlace(deck, card, sku, number); }
  }

  lemma {:induction false} KeyedInDeck(es: seq<Entry>, deck: string, number: string)
    requires ':' !in deck && NoSkuExtends(es, deck)
    ensures LastKeyed(es, Key(deck, number)) == LastCard(es, deck, number)
  {
    if es != [] {
      var e := es[|es| - 1];
      assert NoSkuExtends(es[..|es| - 1], deck);
      KeyedInDeck(es[..|es| - 1], deck, number);
      KeyInDeck(deck, number, e.sku, e.card.number);
    }
  }

  /** The SKUs of the database alone. */
  ghost predicate HasSkus(gamesets: seq<Gameset>, skus: seq<string>) {
    |gamesets| == |skus| && forall i :: 0 <= i < |skus| ==> gamesets[i].sku == skus[i]
  }

  /** A database with these SKUs, its index, and a listing of `deck` that is not the deck. */
  ghost predicate Misfits(lower: char -> char, skus: seq<string>, deck: string, gamesets: seq<Gameset>,
                          lookup: map<string, string>, cards: map<string, string>) {
    && HasSkus(gamesets, skus) && Indexes(lookup, Entries(lower, gamesets)) && CardsUnder(lookup, deck, cards)
    && !IsDeck(Entries(lower, gamesets), deck, cards)
  }

  /** For given SKUs, listing a deck gives exactly that deck whatever cards the gamesets hold, if and
      only if no SKU is the deck id followed by a colon and more. */
  lemma ListingExact(lower: char -> char, skus: seq<string>, deck: string)
    requires ':' !in deck
    ensures (forall gamesets, lookup, cards :: !Misfits(lower, skus, deck, gamesets, lookup, cards))
       <==> (forall i :: 0 <= i < |skus| ==> !(deck + ":" <= Lowered(lower, skus[i])))
  {
    if i :| 0 <= i < |skus| && deck + ":" <= Lowered(lower, skus[i]) {
      StrayCard(lower, skus, deck, i);
    } else {
      forall gamesets, lookup, cards ensures !Misfits(lower, skus, deck, gamesets, lookup, cards) {
        NothingMisfits(lower, skus, deck, gamesets, lookup, cards);
      }
    }
  }

  lemma NothingMisfits(lower: char -> char, skus: seq<string>, deck: string, gamesets: seq<Gameset>,
                       lookup: map<string, string>, cards: map<string, string>)
    requires ':' !in deck && forall i :: 0 <= i < |skus| ==> !(deck + ":" <= Lowered(lower, skus[i]))
    ensures !Misfits(lower, skus, deck, gamesets, lookup, cards)
  {
    if HasSkus(gamesets, skus) && Indexes(lookup, Entries(lower, gamesets)) && CardsUnder(lookup, deck, cards) {
      ListingIsDeck(lower, gamesets, deck, lookup, cards);
    }
  }

  lemma {:induction false} EntriesDoNotExtend(lower: char -> char, gamesets: seq<Gameset>, deck: string)
    requires forall j :: 0 <= j < |gamesets| ==> !(deck + ":" <= Lowered(lower, gamesets[j].sku))
    ensures NoSkuExtends(Entries(lower, gamesets), deck)
  {
    if gamesets != [] {
      EntriesDoNotExtend(lower, gamesets[..|gamesets| - 1], deck);
    }
  }

  lemma ListingIsDeck(lower: char -> char, gamesets: seq<Gameset>, deck: string, lookup: map<string, string>,
                      cards: map<string, string>)
    requires ':' !in deck && forall j :: 0 <= j < |gamesets| ==> !(deck + ":" <= Lowered(lower, gamesets[j].sku))
    requires Indexes(lookup, Entries(lower, gamesets)) && CardsUnder(lookup, deck, cards)
    ensures IsDeck(Entries(lower, gamesets), deck, cards)
  {
    var es := Entries(lower, gamesets);
    EntriesDoNotExtend(lower, gamesets, deck);
    forall number ensures At(cards, number) == LastCard(es, deck, number) {
      KeyedInDeck(es, deck, number);
    }
  }

  /** What is listed when one card is all there is. */
  lemma OneCardListed(sku: string, deck: string, number: string)
    requires ':' !in deck && sku != deck && Key(deck, number) == Key(sku, "")
    ensures var es := [Entry(sku, Card("", "t"))]; var lookup := map[Key(sku, "") := "t"]; var cards := map[number := "t"];
      Indexes(lookup, es) && CardsUnder(lookup, deck, cards) && !IsDeck(es, deck, cards)
  {
    var es, cards := [Entry(sku, Card("", "t"))], map[number := "t"];
    assert es[..0] == [];
    forall n ensures Key(deck, n) == Key(sku, "") ==> n == number {
      assert Key(deck, n)[|deck| + 1..] == n && Key(deck, number)[|deck| + 1..] == number;
    }
    assert LastCard(es, deck, number) == Unknown;
    assert At(cards, number) == Track("t");
  }

  lemma StrayNumber(sku: string, deck: string) returns (number: string)
    requires deck + ":" <= sku
    ensures Key(deck, number) == Key(sku, "") && sku != deck
  {
    number := sku[|deck| + 1..] + ":";
    assert sku == deck + ":" + sku[|deck| + 1..];
    assert |sku| > |deck|;
  }

  /** Otherwise a single card of the other gameset is listed as one of the deck. */
  lemma StrayCard(lower: char -> char, skus: seq<string>, deck: string, i: nat)
    requires ':' !in deck && i < |skus| && deck + ":" <= Lowered(lower, skus[i])
    ensures exists gamesets, lookup, cards :: Misfits(lower, skus, deck, gamesets, lookup, cards)
  {
    var gamesets := seq(|skus|, j requires 0 <= j < |skus| => Gameset(skus[j], if j == i then [Card("", "t")] else []));
    var sku := Lowered(lower, skus[i]);
    OnlyCard(lower, gamesets, i);
    var number := StrayNumber(sku, deck);
    OneCardListed(sku, deck, number);
    assert Misfits(lower, skus, deck, gamesets, map[Key(sku, "") := "t"], map[number := "t"]);
  }

  lemma {:induction false} OnlyCard(lower: char -> char, gamesets: seq<Gameset>, i: nat)
    requires i < |gamesets| && gamesets[i].cards == [Card("", "t")]
    requires forall j :: 0 <= j < |gamesets| && j != i ==> gamesets[j].cards == []
    ensures Entries(lower, gamesets) == [Entry(Lowered(lower, gamesets[i].sku), Card("", "t"))]
  {
    var n := |gamesets| - 1;
    if i < n {
      OnlyCard(lower, gamesets[..n], i);
    } else {
      NoCards(lower, gamesets[..n]);
    }
  }

  lemma {:induction false} NoCards(lower: char -> char, gamesets: seq<Gameset>)
    requires forall j :: 0 <= j < |gamesets| ==> gamesets[j].cards == []
    ensures Entries(lower, gamesets) == []
  {
    if gamesets != [] { NoCards(lower, gamesets[..|gamesets| - 1]); }
  }

  // ---------------------------------------------------------------- the resolver

  /** What the download gives: a database, or some failure on the way to one. */
  datatype Fetched = Fetched(db: Database) | FetchFailed

  /** The database the index stands for once `f` has been fetched: a failed download and a stamp
      already loaded change nothing. */
  function Reloaded(before: Database, f: Fetched): Database {
    if f.FetchFailed? || (before.updatedOn != 0 && f.db.updatedOn == before.updatedOn) then before else f.db
  }

  class Resolver {
    const lower: char -> char
    var lookup: map<string, string>
    var timestamp: int
    /** The database loaded last. */
    ghost var source: Database

    ghost predicate Valid()
      reads this
    {
      && IsLowering(lower)
      && Indexes(lookup, Entries(lower, source.gamesets))
      && timestamp == source.updatedOn
    }

    constructor (lower: char -> char)
      requires IsLowering(lower)
      ensures Valid() && this.lower == lower && source == Database(0, [])
    {
      this.lower, lookup, timestamp := lower, map[], 0;
      source := Database(0, []);
    }

    method Load(f: Fetched) returns (ok: bool)
      requires Valid()
      modifies this
      ensures Valid() && source == Reloaded(old(source), f) && ok == f.Fetched?
    {
      if f.FetchFailed? { return false; }
      if timestamp != 0 && f.db.updatedOn == timestamp { return true; }
      lookup := BuildIndex(lower, f.db.gamesets);
      timestamp := f.db.updatedOn;
      source := f.db;
      return true;
    }

    method Resolve(host: string, parts: seq<string>) returns (r: Resolved)
      requires Valid()
      ensures r == Scan(lower, source, host, parts)
    {
      IndexAgreesWithScan(lower, lookup, source, host, parts);
      var p := ParseHitster(lower, host, parts);
      if p.NotHitster? { return NotValid; }
      var deckId := Lowered(lower, p.deck);
      var cardId := p.card;
      var n := Atoi(p.card);
      if n.Int? {
        AtoiOfCard(p.card);
        cardId := Padded5(n.n);
      } else if |cardId| < 5 {
        cardId := Zeros(5 - |cardId|) + cardId;
      }
      var key := deckId + ":" + cardId;
      if key !in lookup { return NotFound; }
      return Resolved(lookup[key], deckId);
    }

    /** The deck as the loaded database has it, unless some SKU goes on with a colon after the deck id; for
        every deck id, the last card under each key that starts with it. */
    method CardsInDeck(deck: string) returns (cards: map<string, string>)
      requires Valid()
      ensures var es := Entries(lower, source.gamesets);
        && (forall number :: At(cards, number) == LastKeyed(es, Key(deck, number)))
        && (':' !in deck && NoSkuExtends(es, deck) ==> IsDeck(es, deck, cards))
    {
      cards := ListDeck(lookup, deck);
      ghost var es := Entries(lower, source.gamesets);
      if ':' !in deck && NoSkuExtends(es, deck) {
        forall number ensures At(cards, number) == LastCard(es, deck, number) { KeyedInDeck(es, deck, number); }
      }
    }
  }

  // ---------------------------------------------------------------- reloading

  /** The database the index stands for after a run of loads, starting from none. */
  function Loaded(fs: seq<Fetched>): Database {
    if fs == [] then Database(0, []) else Reloaded(Loaded(fs[..|fs| - 1]), fs[|fs| - 1])
  }

  function LastFetched(fs: seq<Fetched>): Database {
    if fs == [] then Database(0, [])
    else if fs[|fs| - 1].Fetched? then fs[|fs| - 1].db
    else LastFetched(fs[..|fs| - 1])
  }

  /** Equal stamps other than zero mean equal databases. */
  ghost predicate StampsTell(fs: seq<Fetched>) {
    forall i, j :: 0 <= i < |fs| && 0 <= j < |fs| ==> !Misstamped(fs[i], fs[j])
  }

  predicate Misstamped(f: Fetched, g: Fetched) {
    f.Fetched? && g.Fetched? && f.db.updatedOn == g.db.updatedOn != 0 && f.db != g.db
  }

  /** Skipping a database whose stamp is unchanged costs nothing, as long as the stamp tells databases
      apart: the index always stands for the last one downloaded. */
  lemma {:induction false} SkippingIsSound(fs: seq<Fetched>)
    requires StampsTell(fs)
    ensures Loaded(fs) == LastFetched(fs)
    ensures Loaded(fs) == Database(0, []) || Fetched(Loaded(fs)) in fs
  {
    if fs != [] {
      var n := |fs| - 1;
      var before := fs[..n];
      assert StampsTell(before) by {
        assert forall i :: 0 <= i < n ==> before[i] == fs[i];
      }
      SkippingIsSound(before);
      if Fetched(Loaded(before)) in before {
        var i :| 0 <= i < n && before[i] == Fetched(Loaded(before));
        assert fs[i] == before[i] && fs[n] in fs;
      } else {
        assert Loaded(before).updatedOn == 0 && fs[n] in fs;
      }
    }
  }
}
