/** Linen towel arrangements (2024/19): the number of ordered ways to lay out a
    design (a string of stripe colours) as a row of towels from a given list. */
module Towels {

  /** The source's requirement on its towels: none is empty (an empty towel would be
      a prefix of every design and the recursion would not shrink the design). */
  predicate NonEmpty(towels: seq<string>) {
    forall k :: 0 <= k < |towels| ==> |towels[k]| >= 1
  }

  /** The towel is the start of the design (starts_with). */
  predicate IsPrefix(towel: string, design: string) {
    |towel| <= |design| && design[..|towel|] == towel
  }

  /** What one towel adds to the count for a design: nothing when it does not start
      the design, one when it is the whole design, and otherwise the count for the
      rest of the design. */
  function Contribution(design: string, towels: seq<string>, towel: string): nat
    requires NonEmpty(towels) && |towel| >= 1
    decreases |design|, 0, 0
  {
    if !IsPrefix(towel, design) then 0
    else if |design| == |towel| then 1
    else Ways(design[|towel|..], towels)
  }

  /** The contributions of the first i towels of the list. */
  function WaysUpTo(design: string, towels: seq<string>, i: nat): nat
    requires NonEmpty(towels) && i <= |towels|
    decreases |design|, 1, i
  {
    if i == 0 then 0
    else WaysUpTo(design, towels, i - 1) + Contribution(design, towels, towels[i - 1])
  }

  /** The number of ways Formable counts for a design. */
  function Ways(design: string, towels: seq<string>): nat
    requires NonEmpty(towels)
    decreases |design|, 2, 0
  {
    WaysUpTo(design, towels, |towels|)
  }

  /** The towels named by the indices d, laid end to end. */
  function Join(towels: seq<string>, d: seq<nat>): string
    requires forall j :: 0 <= j < |d| ==> d[j] < |towels|
  {
    if d == [] then [] else towels[d[0]] + Join(towels, d[1..])
  }

  /** d is an arrangement of the design: at least one towel, and the towels it names
      laid end to end give the design. */
  ghost predicate Arrangement(design: string, towels: seq<string>, d: seq<nat>) {
    |d| >= 1 && (forall j :: 0 <= j < |d| ==> d[j] < |towels|) && Join(towels, d) == design
  }

  /** Only positive counts are cached, and each is the count for its design. */
  ghost predicate CacheSound(cache: map<string, nat>, towels: seq<string>)
    requires NonEmpty(towels)
  {
    forall q :: q in cache ==> cache[q] > 0 && cache[q] == Ways(q, towels)
  }

  /** Formable: the number of ways to arrange the design, looked up in the cache or
      counted over the towels, recursing on what each towel leaves of the design.
      A positive count is cached; the source passes the cache by reference, here it
      goes in and comes back out. It only grows, and only by designs no longer than
      this one. */
  method Formable(design: string, towels: seq<string>, cache0: map<string, nat>)
    returns (r: nat, cache: map<string, nat>)
    requires NonEmpty(towels) && CacheSound(cache0, towels)
    ensures r == Ways(design, towels)
    ensures CacheSound(cache, towels)
    ensures design in cache <==> r > 0
    ensures cache0.Keys <= cache.Keys
    ensures forall q :: q in cache && q !in cache0 ==> |q| <= |design|
    decreases |design|
  {
    if design in cache0 {
      return cache0[design], cache0;
    }
    var solutions := 0;
    cache := cache0;
    for i := 0 to |towels|
      invariant solutions == WaysUpTo(design, towels, i)
      invariant CacheSound(cache, towels) && cache0.Keys <= cache.Keys
      invariant forall q :: q in cache && q !in cache0 ==> |q| < |design|
    {
      var towel := towels[i];
      if |towel| <= |design| && design[..|towel|] == towel {
        if |design| == |towel| {
          solutions := solutions + 1;
        } else {
          var sub;
          sub, cache := Formable(design[|towel|..], towels, cache);
          solutions := solutions + sub;
        }
      }
    }
    if solutions > 0 {
      cache := cache[design := solutions];
    }
    r := solutions;
  }

  /** Some towel among the first i contributes when their total is positive. */
  lemma {:induction false} SomeContribution(design: string, towels: seq<string>, i: nat) returns (k: nat)
    requires NonEmpty(towels) && i <= |towels| && WaysUpTo(design, towels, i) > 0
    ensures k < i && Contribution(design, towels, towels[k]) > 0
  {
    if Contribution(design, towels, towels[i - 1]) > 0 {
      k := i - 1;
    } else {
      k := SomeContribution(design, towels, i - 1);
    }
  }

  /** Each of the first i towels' contribution is part of their total. */
  lemma {:induction false} ContributionCounted(design: string, towels: seq<string>, i: nat, k: nat)
    requires NonEmpty(towels) && k < i <= |towels|
    ensures WaysUpTo(design, towels, i) >= Contribution(design, towels, towels[k])
  {
    if k < i - 1 {
      ContributionCounted(design, towels, i - 1, k);
    }
  }

  /** Laying a towel in front of an arrangement. */
  lemma JoinCons(towels: seq<string>, k: nat, d: seq<nat>)
    requires k < |towels| && forall j :: 0 <= j < |d| ==> d[j] < |towels|
    ensures Join(towels, [k] + d) == towels[k] + Join(towels, d)
  {
    assert ([k] + d)[1..] == d;
  }

  /** A positive count has an arrangement behind it. */
  lemma {:induction false} ArrangementOf(design: string, towels: seq<string>) returns (d: seq<nat>)
    requires NonEmpty(towels) && Ways(design, towels) > 0
    ensures Arrangement(design, towels, d)
    decreases |design|
  {
    var k := SomeContribution(design, towels, |towels|);
    var t := towels[k];
    assert IsPrefix(t, design);
    if |design| == |t| {
      d := [k];
      assert Join(towels, d) == t + Join(towels, []);
      assert t == design;
    } else {
      var rest := ArrangementOf(design[|t|..], towels);
      d := [k] + rest;
      JoinCons(towels, k, rest);
      assert design == design[..|t|] + design[|t|..];
    }
  }

  /** An arrangement is counted. */
  lemma {:induction false} ArrangementCounted(design: string, towels: seq<string>, d: seq<nat>)
    requires NonEmpty(towels) && Arrangement(design, towels, d)
    ensures Ways(design, towels) > 0
    decreases |d|
  {
    var k := d[0];
    var t := towels[k];
    var rest := Join(towels, d[1..]);
    assert design == t + rest;
    assert design[..|t|] == t;
    ContributionCounted(design, towels, |towels|, k);
    if |design| != |t| {
      assert |d| >= 2;
      assert design[|t|..] == rest;
      ArrangementCounted(design[|t|..], towels, d[1..]);
    }
  }

  /** The design can be made (the count the first part of the puzzle takes) exactly
      when some row of towels gives it. */
  lemma PossibleIffArranged(design: string, towels: seq<string>)
    requires NonEmpty(towels)
    ensures Ways(design, towels) > 0 <==> exists d :: Arrangement(design, towels, d)
  {
    if Ways(design, towels) > 0 {
      var d := ArrangementOf(design, towels);
    }
    if exists d :: Arrangement(design, towels, d) {
      var d :| Arrangement(design, towels, d);
      ArrangementCounted(design, towels, d);
    }
  }

  /** The number of entries among the first i towels equal to the design. */
  function WholeCount(design: string, towels: seq<string>, i: nat): nat
    requires i <= |towels|
  {
    if i == 0 then 0 else WholeCount(design, towels, i - 1) + (if towels[i - 1] == design then 1 else 0)
  }

  /** Towels that do not start the design add nothing and each towel that is the
      whole design adds exactly one: when no towel is a proper prefix of the design,
      the count is the number of towels equal to it (zero when none starts it). */
  lemma {:induction false} OnlyWholeTowels(design: string, towels: seq<string>, i: nat)
    requires NonEmpty(towels) && i <= |towels|
    requires forall k :: 0 <= k < |towels| ==> !(IsPrefix(towels[k], design) && |towels[k]| < |design|)
    ensures WaysUpTo(design, towels, i) == WholeCount(design, towels, i)
  {
    if i > 0 {
      OnlyWholeTowels(design, towels, i - 1);
      var t := towels[i - 1];
      assert IsPrefix(t, design) && |t| == |design| ==> t == design;
    }
  }

  /** Every towel equal to the design adds one way at least. */
  lemma {:induction false} WholeTowelsCounted(design: string, towels: seq<string>, i: nat)
    requires NonEmpty(towels) && i <= |towels|
    ensures WaysUpTo(design, towels, i) >= WholeCount(design, towels, i)
  {
    if i > 0 {
      WholeTowelsCounted(design, towels, i - 1);
      var t := towels[i - 1];
      if t == design {
        assert design[..|t|] == t;
      }
    }
  }


  // ---------------------------------------------------------------------------
  // The arrangements, listed

  /** Each list of d placed after towel index k. */
  function Prepend(k: nat, ds: seq<seq<nat>>): seq<seq<nat>> {
    seq(|ds|, j requires 0 <= j < |ds| => [k] + ds[j])
  }

  /** The arrangements of the design that start with one of the first i towels, in
      the order Formable meets them. */
  function ArrangementsUpTo(design: string, towels: seq<string>, i: nat): seq<seq<nat>>
    requires NonEmpty(towels) && i <= |towels|
    decreases |design|, 1, i
  {
    if i == 0 then []
    else ArrangementsUpTo(design, towels, i - 1) + ArrangementsWith(design, towels, i - 1)
  }

  /** The arrangements of the design that start with towel k. */
  function ArrangementsWith(design: string, towels: seq<string>, k: nat): seq<seq<nat>>
    requires NonEmpty(towels) && k < |towels|
    decreases |design|, 0, 0
  {
    var t := towels[k];
    if !IsPrefix(t, design) then []
    else if |design| == |t| then [[k]]
    else Prepend(k, ArrangementsUpTo(design[|t|..], towels, |towels|))
  }

  /** All the arrangements of the design. */
  function Arrangements(design: string, towels: seq<string>): seq<seq<nat>>
    requires NonEmpty(towels)
  {
    ArrangementsUpTo(design, towels, |towels|)
  }

  /** The list is as long as the count: Formable counts the arrangements. */
  lemma {:induction false} CountUpTo(design: string, towels: seq<string>, i: nat)
    requires NonEmpty(towels) && i <= |towels|
    ensures |ArrangementsUpTo(design, towels, i)| == WaysUpTo(design, towels, i)
    decreases |design|, 1, i
  {
    if i > 0 {
      CountUpTo(design, towels, i - 1);
      CountWith(design, towels, i - 1);
    }
  }

  lemma {:induction false} CountWith(design: string, towels: seq<string>, k: nat)
    requires NonEmpty(towels) && k < |towels|
    ensures |ArrangementsWith(design, towels, k)| == Contribution(design, towels, towels[k])
    decreases |design|, 0, 0
  {
    var t := towels[k];
    if IsPrefix(t, design) && |design| != |t| {
      CountUpTo(design[|t|..], towels, |towels|);
    }
  }

  /** Every listed arrangement starting with one of the first i towels is an
      arrangement of the design, and it starts with a towel below i. */
  lemma {:induction false} SoundUpTo(design: string, towels: seq<string>, i: nat, j: nat)
    requires NonEmpty(towels) && i <= |towels| && j < |ArrangementsUpTo(design, towels, i)|
    ensures Arrangement(design, towels, ArrangementsUpTo(design, towels, i)[j])
    ensures ArrangementsUpTo(design, towels, i)[j][0] < i
    decreases |design|, 1, i
  {
    if i > 0 {
      var before := ArrangementsUpTo(design, towels, i - 1);
      if j < |before| {
        SoundUpTo(design, towels, i - 1, j);
      } else {
        SoundWith(design, towels, i - 1, j - |before|);
      }
    }
  }

  lemma {:induction false} SoundWith(design: string, towels: seq<string>, k: nat, j: nat)
    requires NonEmpty(towels) && k < |towels| && j < |ArrangementsWith(design, towels, k)|
    ensures Arrangement(design, towels, ArrangementsWith(design, towels, k)[j])
    ensures ArrangementsWith(design, towels, k)[j][0] == k
    decreases |design|, 0, 0
  {
    var t := towels[k];
    if IsPrefix(t, design) && |design| == |t| {
      assert Join(towels, [k]) == t + Join(towels, []);
      assert design == design[..|t|];
    } else if IsPrefix(t, design) {
      var rest := ArrangementsUpTo(design[|t|..], towels, |towels|);
      SoundUpTo(design[|t|..], towels, |towels|, j);
      JoinCons(towels, k, rest[j]);
      assert design == design[..|t|] + design[|t|..];
    }
  }

  /** Every arrangement whose first towel is below i is listed. */
  lemma {:induction false} CompleteUpTo(design: string, towels: seq<string>, i: nat, d: seq<nat>)
    requires NonEmpty(towels) && i <= |towels| && Arrangement(design, towels, d) && d[0] < i
    ensures d in ArrangementsUpTo(design, towels, i)
    decreases |design|, 1, i
  {
    if d[0] < i - 1 {
      CompleteUpTo(design, towels, i - 1, d);
    } else {
      CompleteWith(design, towels, d);
    }
  }

  lemma {:induction false} CompleteWith(design: string, towels: seq<string>, d: seq<nat>)
    requires NonEmpty(towels) && Arrangement(design, towels, d)
    ensures d in ArrangementsWith(design, towels, d[0])
    decreases |design|, 0, 0
  {
    var k := d[0];
    var t := towels[k];
    var rest := Join(towels, d[1..]);
    assert design == t + rest;
    assert design[..|t|] == t;
    NonEmptyJoin(towels, d[1..]);
    if |design| == |t| {
      assert d == [k];
    } else {
      assert design[|t|..] == rest;
      CompleteUpTo(design[|t|..], towels, |towels|, d[1..]);
      var L := ArrangementsUpTo(design[|t|..], towels, |towels|);
      var j :| 0 <= j < |L| && L[j] == d[1..];
      assert d == [k] + d[1..];
      assert Prepend(k, L)[j] == d;
    }
  }

  /** Non-empty towels laid end to end make a non-empty row. */
  lemma NonEmptyJoin(towels: seq<string>, d: seq<nat>)
    requires NonEmpty(towels) && forall j :: 0 <= j < |d| ==> d[j] < |towels|
    ensures |d| >= 1 ==> |Join(towels, d)| >= 1
  {
    if |d| >= 1 {
      assert |towels[d[0]]| >= 1;
    }
  }

  /** No arrangement is listed twice. */
  predicate NoRepeats(ds: seq<seq<nat>>) {
    forall a, b :: 0 <= a < b < |ds| ==> ds[a] != ds[b]
  }

  lemma {:induction false} DistinctUpTo(design: string, towels: seq<string>, i: nat)
    requires NonEmpty(towels) && i <= |towels|
    ensures NoRepeats(ArrangementsUpTo(design, towels, i))
    decreases |design|, 1, i
  {
    if i > 0 {
      var before := ArrangementsUpTo(design, towels, i - 1);
      var with := ArrangementsWith(design, towels, i - 1);
      DistinctUpTo(design, towels, i - 1);
      DistinctWith(design, towels, i - 1);
      forall a, b | 0 <= a < |before| && 0 <= b < |with|
        ensures before[a] != with[b]
      {
        SoundUpTo(design, towels, i - 1, a);
        SoundWith(design, towels, i - 1, b);
      }
      var all := before + with;
      forall a, b | 0 <= a < b < |all|
        ensures all[a] != all[b]
      {
        if b < |before| {
          assert all[a] == before[a] && all[b] == before[b];
        } else if a >= |before| {
          assert all[a] == with[a - |before|] && all[b] == with[b - |before|];
        } else {
          assert all[a] == before[a] && all[b] == with[b - |before|];
        }
      }
    }
  }

  lemma {:induction false} DistinctWith(design: string, towels: seq<string>, k: nat)
    requires NonEmpty(towels) && k < |towels|
    ensures NoRepeats(ArrangementsWith(design, towels, k))
    decreases |design|, 0, 0
  {
    var t := towels[k];
    if IsPrefix(t, design) && |design| != |t| {
      var L := ArrangementsUpTo(design[|t|..], towels, |towels|);
      DistinctUpTo(design[|t|..], towels, |towels|);
      var P := Prepend(k, L);
      forall a, b | 0 <= a < b < |P|
        ensures P[a] != P[b]
      {
        assert P[a][1..] == L[a] && P[b][1..] == L[b];
      }
    }
  }

  /** Formable's count is the number of arrangements of the design: they are listed
      without repeats, the list holds exactly the arrangements, and it is as long as
      the count. */
  lemma WaysCountsArrangements(design: string, towels: seq<string>)
    requires NonEmpty(towels)
    ensures NoRepeats(Arrangements(design, towels))
    ensures forall d :: d in Arrangements(design, towels) <==> Arrangement(design, towels, d)
    ensures |Arrangements(design, towels)| == Ways(design, towels)
  {
    var L := Arrangements(design, towels);
    CountUpTo(design, towels, |towels|);
    DistinctUpTo(design, towels, |towels|);
    forall d
      ensures d in L <==> Arrangement(design, towels, d)
    {
      if d in L {
        var j :| 0 <= j < |L| && L[j] == d;
        SoundUpTo(design, towels, |towels|, j);
      }
      if Arrangement(design, towels, d) {
        CompleteUpTo(design, towels, |towels|, d);
      }
    }
  }
}
