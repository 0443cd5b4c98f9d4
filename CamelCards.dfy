/** Ranking hands of Camel Cards, with and without jokers (2023/07). */
module CamelCards {
  import opened Common

  /** The thirteen card characters. */
  const CARDS: string := "23456789TJQKA"

  /** cardOrdering1 (part 1: J is the jack, worth 11) and cardOrdering2 (part 2: J
      is the joker, worth 1); None is the btree_map::at failure on an unknown card. */
  function CardValue(part2: bool, c: char): (r: Option<nat>)
    ensures r.Some? <==> c in CARDS
    ensures r.Some? ==> 1 <= r.value <= 14
    ensures r.Some? && part2 && c == 'J' ==> r.value == 1
    ensures r.Some? && part2 && c != 'J' ==> r.value >= 2
    ensures r.Some? ==> CardOf(part2, r.value) == c
  {
    match c
    case '2' => Some(2)
    case '3' => Some(3)
    case '4' => Some(4)
    case '5' => Some(5)
    case '6' => Some(6)
    case '7' => Some(7)
    case '8' => Some(8)
    case '9' => Some(9)
    case 'T' => Some(10)
    case 'J' => if part2 then Some(1) else Some(11)
    case 'Q' => if part2 then Some(11) else Some(12)
    case 'K' => if part2 then Some(12) else Some(13)
    case 'A' => if part2 then Some(13) else Some(14)
    case _ => None
  }

  /** The card with a given value: the inverse of CardValue, so distinct cards have
      distinct values in either ordering. */
  function CardOf(part2: bool, v: nat): char
  {
    if 2 <= v <= 9 then (v + '0' as int) as char
    else if v == 10 then 'T'
    else if part2 then
      if v == 1 then 'J' else if v == 11 then 'Q' else if v == 12 then 'K' else 'A'
    else
      if v == 11 then 'J' else if v == 12 then 'Q' else if v == 13 then 'K' else 'A'
  }

  lemma CardValueInjective(part2: bool, c: char, d: char)
    requires CardValue(part2, c).Some? && CardValue(part2, d).Some?
    ensures CardValue(part2, c) == CardValue(part2, d) ==> c == d
  {
  }

  /** A hand of five known cards. */
  predicate ValidHand(h: string) {
    |h| == 5 && forall k :: 0 <= k < 5 ==> h[k] in CARDS
  }

  /** Hand::operator< from position i on: the first differing card decides by its
      value; equal hands are not less. None is a failing at() on a short hand or an
      unknown card. */
  function HandLessFrom(part2: bool, a: string, b: string, i: nat): (r: Option<bool>)
    requires i <= 5
    decreases 5 - i
  {
    if i == 5 then Some(false)
    else if i >= |a| || i >= |b| then None
    else if a[i] == b[i] then HandLessFrom(part2, a, b, i + 1)
    else
      var va := CardValue(part2, a[i]);
      var vb := CardValue(part2, b[i]);
      if va.None? || vb.None? then None else Some(va.value < vb.value)
  }

  /** Hand::operator<, the loop over the five positions. */
  method HandLess(part2: bool, a: string, b: string) returns (r: Option<bool>)
    ensures r == HandLessFrom(part2, a, b, 0)
  {
    var i := 0;
    while i <= 4
      invariant 0 <= i <= 5
      invariant HandLessFrom(part2, a, b, i) == HandLessFrom(part2, a, b, 0)
    {
      if i >= |a| || i >= |b| {
        return None;
      }
      if a[i] == b[i] {
        i := i + 1;
        continue;
      }
      var va := CardValue(part2, a[i]);
      var vb := CardValue(part2, b[i]);
      if va.None? || vb.None? {
        return None;
      }
      return Some(va.value < vb.value);
    }
    return Some(false);
  }

  /** On valid hands the comparison never fails. */
  lemma {:induction false} HandLessDefined(part2: bool, a: string, b: string, i: nat)
    requires ValidHand(a) && ValidHand(b) && i <= 5
    ensures HandLessFrom(part2, a, b, i).Some?
    decreases 5 - i
  {
    if i < 5 && a[i] == b[i] {
      HandLessDefined(part2, a, b, i + 1);
    }
  }

  /** The comparison is irreflexive and asymmetric. */
  lemma {:induction false} HandLessAsymmetric(part2: bool, a: string, b: string, i: nat)
    requires ValidHand(a) && ValidHand(b) && i <= 5
    ensures HandLessFrom(part2, a, a, i) == Some(false)
    ensures HandLessFrom(part2, a, b, i) == Some(true) ==> HandLessFrom(part2, b, a, i) == Some(false)
    decreases 5 - i
  {
    if i < 5 {
      HandLessAsymmetric(part2, a, b, i + 1);
    }
  }

  /** The comparison is transitive. */
  lemma {:induction false} HandLessTransitive(part2: bool, a: string, b: string, c: string, i: nat)
    requires ValidHand(a) && ValidHand(b) && ValidHand(c) && i <= 5
    requires HandLessFrom(part2, a, b, i) == Some(true) && HandLessFrom(part2, b, c, i) == Some(true)
    ensures HandLessFrom(part2, a, c, i) == Some(true)
    decreases 5 - i
  {
    if a[i] == b[i] && b[i] == c[i] {
      HandLessTransitive(part2, a, b, c, i + 1);
    }
  }

  /** Two different valid hands are ordered one way or the other. */
  lemma {:induction false} HandLessTotal(part2: bool, a: string, b: string, i: nat)
    requires ValidHand(a) && ValidHand(b) && i <= 5
    requires a[i..] != b[i..]
    ensures HandLessFrom(part2, a, b, i) == Some(true) || HandLessFrom(part2, b, a, i) == Some(true)
    decreases 5 - i
  {
    if a[i] == b[i] {
      assert a[i..] == [a[i]] + a[i + 1..] && b[i..] == [b[i]] + b[i + 1..];
      HandLessTotal(part2, a, b, i + 1);
    } else {
      CardValueInjective(part2, a[i], b[i]);
    }
  }

  // ---------------------------------------------------------------------------
  // Hand types

  datatype Kind = FiveOfAKind | FourOfAKind | FullHouse | ThreeOfAKind | TwoPair | OnePair | HighCard

  /** typeOrdering: five of a kind ranks highest. */
  function Rank(t: Kind): nat {
    match t
    case FiveOfAKind => 7
    case FourOfAKind => 6
    case FullHouse => 5
    case ThreeOfAKind => 4
    case TwoPair => 3
    case OnePair => 2
    case HighCard => 1
  }

  /** Type::operator<. */
  predicate KindLess(a: Kind, b: Kind) {
    Rank(a) < Rank(b)
  }

  lemma RankInjective(a: Kind, b: Kind)
    ensures Rank(a) == Rank(b) ==> a == b
  {
  }

  /** The number of distinct cards in a hand (the size of the flat_hash_set). */
  function Distinct(h: string): nat {
    |set c | c in h|
  }

  predicate SortedChars(s: string) {
    forall i, j :: 0 <= i < j < |s| ==> s[i] <= s[j]
  }

  /** The sorted copy of a hand (absl::c_sort), by insertion. */
  function Sort(s: string): (r: string)
    ensures |r| == |s| && multiset(r) == multiset(s) && SortedChars(r)
    decreases |s|
  {
    if s == [] then []
    else
      assert s == [s[0]] + s[1..];
      Insert(s[0], Sort(s[1..]))
  }

  function Insert(c: char, s: string): (r: string)
    requires SortedChars(s)
    ensures |r| == |s| + 1 && multiset(r) == multiset(s) + multiset{c} && SortedChars(r)
    ensures r != [] && (r[0] == c || (s != [] && r[0] == s[0]))
    decreases |s|
  {
    if s == [] || c <= s[0] then
      SortedCons(c, s);
      [c] + s
    else
      var rest := Insert(c, s[1..]);
      assert s == [s[0]] + s[1..];
      assert rest[0] >= s[0];
      SortedCons(s[0], rest);
      [s[0]] + rest
  }

  /** A card no greater than the head of a sorted string keeps it sorted in front. */
  lemma SortedCons(x: char, t: string)
    requires SortedChars(t) && (t == [] || x <= t[0])
    ensures SortedChars([x] + t)
  {
    var u := [x] + t;
    forall i, j | 0 <= i < j < |u|
      ensures u[i] <= u[j]
    {
      if i > 0 {
        assert u[i] == t[i - 1] && u[j] == t[j - 1];
      } else {
        assert u[j] == t[j - 1] && t[0] <= t[j - 1];
      }
    }
  }

  /** GetType1: the type by the distinct cards, and for two or three distinct cards
      by the runs of the sorted copy. */
  function GetType1(hand: string): Kind
    requires |hand| == 5
  {
    var distinct := Distinct(hand);
    if distinct == 1 then FiveOfAKind
    else if distinct == 4 then OnePair
    else if distinct == 5 then HighCard
    else
      var sorted := Sort(hand);
      if distinct == 2 then
        if sorted[0] == sorted[3] || sorted[1] == sorted[4] then FourOfAKind else FullHouse
      else if sorted[0] == sorted[2] || sorted[1] == sorted[3] || sorted[2] == sorted[4] then ThreeOfAKind
      else TwoPair
  }

  /** The multiplicity of each card value in a five-card sequence. */
  lemma Multiplicities(s: string, c: char)
    requires |s| == 5
    ensures multiset(s)[c] == (if s[0] == c then 1 else 0) + (if s[1] == c then 1 else 0) +
      (if s[2] == c then 1 else 0) + (if s[3] == c then 1 else 0) + (if s[4] == c then 1 else 0)
  {
    assert s == [s[0]] + [s[1]] + [s[2]] + [s[3]] + [s[4]];
  }

  /** The distinct cards of a hand are those of its sorted copy. */
  lemma SameCards(h: string)
    ensures (set c | c in h) == (set c | c in Sort(h))
  {
    var s := Sort(h);
    forall c
      ensures c in h <==> c in s
    {
      assert c in h <==> multiset(h)[c] > 0;
      assert c in s <==> multiset(s)[c] > 0;
    }
  }

  /** In a sorted hand, a card that fills four places fills the first or the last
      four. */
  lemma FourRun(s: string, c: char)
    requires |s| == 5 && SortedChars(s)
    ensures multiset(s)[c] >= 4 <==> (s[0] == c && s[3] == c) || (s[1] == c && s[4] == c)
  {
    Multiplicities(s, c);
  }

  /** In a sorted hand, a card that fills three places fills three neighbouring
      places. */
  lemma ThreeRun(s: string, c: char)
    requires |s| == 5 && SortedChars(s)
    ensures multiset(s)[c] >= 3 <==>
      (s[0] == c && s[2] == c) || (s[1] == c && s[3] == c) || (s[2] == c && s[4] == c)
  {
    Multiplicities(s, c);
  }

  /** The cards of a sorted hand whose middle three agree with one end are at most two. */
  lemma AtMostTwo(s: string)
    requires |s| == 5 && SortedChars(s)
    requires (s[0] == s[3]) || (s[1] == s[4])
    ensures |set c | c in s| <= 2
  {
    assert (set c | c in s) <= {s[0], s[4]} by {
      forall c | c in s
        ensures c == s[0] || c == s[4]
      {
        var k :| 0 <= k < 5 && s[k] == c;
      }
    }
    SubsetCard(set c | c in s, {s[0], s[4]});
  }

  /** A hand of one card repeated has one distinct card. */
  lemma AllSame(s: string)
    requires |s| == 5 && SortedChars(s) && s[0] == s[4]
    ensures |set c | c in s| == 1
  {
    assert (set c | c in s) == {s[0]} by {
      forall c | c in s
        ensures c == s[0]
      {
        var k :| 0 <= k < 5 && s[k] == c;
      }
    }
  }

  lemma SubsetCard<T>(a: set<T>, b: set<T>)
    requires a <= b
    ensures |a| <= |b|
  {
    assert b == a + (b - a);
  }

  /** GetType1 by the multiplicities of the cards: with two distinct cards it is four
      of a kind exactly when one card appears four times, else a full house; with
      three, three of a kind exactly when one card appears three times, else two
      pair. */
  lemma GetType1ByCounts(hand: string)
    requires |hand| == 5
    ensures Distinct(hand) == 1 ==> GetType1(hand) == FiveOfAKind
    ensures Distinct(hand) == 4 ==> GetType1(hand) == OnePair
    ensures Distinct(hand) == 5 ==> GetType1(hand) == HighCard
    ensures Distinct(hand) == 2 ==>
      (GetType1(hand) == FourOfAKind <==> exists c :: multiset(hand)[c] == 4) &&
      (GetType1(hand) == FourOfAKind || GetType1(hand) == FullHouse)
    ensures Distinct(hand) == 3 ==>
      (GetType1(hand) == ThreeOfAKind <==> exists c :: multiset(hand)[c] == 3) &&
      (GetType1(hand) == ThreeOfAKind || GetType1(hand) == TwoPair)
  {
    var s := Sort(hand);
    SameCards(hand);
    var d := Distinct(hand);
    assert d == |set c | c in s|;
    if d == 2 {
      if s[0] == s[3] || s[1] == s[4] {
        var c := if s[0] == s[3] then s[0] else s[1];
        FourRun(s, c);
        if s[0] == s[4] {
          AllSame(s);
        }
        Multiplicities(s, c);
        assert multiset(hand)[c] == 4;
      } else {
        forall c
          ensures multiset(hand)[c] != 4
        {
          FourRun(s, c);
        }
      }
    } else if d == 3 {
      if s[0] == s[2] || s[1] == s[3] || s[2] == s[4] {
        var c := if s[0] == s[2] then s[0] else if s[1] == s[3] then s[1] else s[2];
        ThreeRun(s, c);
        if s[0] == s[3] || s[1] == s[4] {
          AtMostTwo(s);
        }
        Multiplicities(s, c);
        assert multiset(hand)[c] == 3;
      } else {
        forall c
          ensures multiset(hand)[c] != 3
        {
          ThreeRun(s, c);
        }
      }
    }
  }

  /** The number of jokers in a hand. */
  function Jokers(hand: string): nat {
    multiset(hand)['J']
  }

  /** GetType2: the part-1 type improved by the jokers, by their number. */
  function GetType2(hand: string): (t: Kind)
    requires |hand| == 5
    ensures Jokers(hand) == 0 ==> t == GetType1(hand)
    ensures Rank(t) >= Rank(GetType1(hand))
    ensures Jokers(hand) >= 4 ==> t == FiveOfAKind
  {
    var type1 := GetType1(hand);
    var js := Jokers(hand);
    if js == 0 then type1
    else if js == 1 then
      match type1
      case HighCard => OnePair
      case OnePair => ThreeOfAKind
      case TwoPair => FullHouse
      case ThreeOfAKind => FourOfAKind
      case _ => FiveOfAKind
    else if js == 2 then
      match type1
      case OnePair => ThreeOfAKind
      case TwoPair => FourOfAKind
      case _ => FiveOfAKind
    else if js == 3 then
      if type1 == ThreeOfAKind then FourOfAKind else FiveOfAKind
    else FiveOfAKind
  }

  /** A hand with its type: HandType::operator< compares the types first, and equal
      types by the hands. */
  predicate HandTypeLess(part2: bool, ta: Kind, a: string, tb: Kind, b: string)
    requires ValidHand(a) && ValidHand(b)
  {
    if ta == tb then HandLessFrom(part2, a, b, 0) == Some(true) else KindLess(ta, tb)
  }

  /** HandType::operator< is irreflexive and asymmetric. */
  lemma HandTypeLessAsymmetric(part2: bool, ta: Kind, a: string, tb: Kind, b: string)
    requires ValidHand(a) && ValidHand(b)
    ensures !HandTypeLess(part2, ta, a, ta, a)
    ensures HandTypeLess(part2, ta, a, tb, b) ==> !HandTypeLess(part2, tb, b, ta, a)
  {
    HandLessAsymmetric(part2, a, b, 0);
  }

  /** HandType::operator< is transitive. */
  lemma HandTypeLessTransitive(part2: bool, ta: Kind, a: string, tb: Kind, b: string, tc: Kind, c: string)
    requires ValidHand(a) && ValidHand(b) && ValidHand(c)
    requires HandTypeLess(part2, ta, a, tb, b) && HandTypeLess(part2, tb, b, tc, c)
    ensures HandTypeLess(part2, ta, a, tc, c)
  {
    if ta == tb && tb == tc {
      HandLessTransitive(part2, a, b, c, 0);
    } else if ta == tc {
      RankInjective(ta, tb);
    }
  }

  /** HandType::operator< orders any two different (type, hand) pairs. */
  lemma HandTypeLessTotal(part2: bool, ta: Kind, a: string, tb: Kind, b: string)
    requires ValidHand(a) && ValidHand(b) && (ta, a) != (tb, b)
    ensures HandTypeLess(part2, ta, a, tb, b) || HandTypeLess(part2, tb, b, ta, a)
  {
    if ta == tb {
      assert a[0..] == a && b[0..] == b;
      HandLessTotal(part2, a, b, 0);
    } else {
      RankInjective(ta, tb);
    }
  }
}
