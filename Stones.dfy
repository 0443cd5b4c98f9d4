/** The stones that change each time they are blinked at (2024/11). */
module Stones {
  import opened Common
  import opened Digits

  /** SplitStone: the stone's digits cut in the middle; digits is its digit count.
      The power of ten is the table entry kTenPowers[digits / 2] (TenPowersTable). */
  function SplitStone(stone: nat, digits: nat): (nat, nat)
    requires digits / 2 < |TEN_POWERS|
  {
    var p := Pow10(digits / 2);
    var left := stone / p;
    SplitParts(stone, p);
    (left, stone - left * p)
  }

  lemma SplitParts(stone: nat, p: nat)
    requires p > 0
    ensures (stone / p) * p + stone % p == stone && stone % p < p
  {
  }

  /** The halves put back together are the stone, and the right half has fewer
      digits than the cut: stone == left * 10^(digits/2) + right. */
  lemma SplitStoneParts(stone: nat, digits: nat)
    requires digits / 2 < |TEN_POWERS|
    ensures SplitStone(stone, digits).0 * Pow10(digits / 2) + SplitStone(stone, digits).1 == stone
    ensures SplitStone(stone, digits).1 < Pow10(digits / 2)
  {
    SplitParts(stone, Pow10(digits / 2));
  }

  /** Splitting a stone with an even number of digits gives a left half with exactly
      half the digits. */
  lemma SplitHalves(stone: nat)
    requires stone < TWO_64 && DecimalLength(stone) % 2 == 0
    ensures DecimalLength(stone) / 2 < |TEN_POWERS|
    ensures SplitStone(stone, DecimalLength(stone)).0 < Pow10(DecimalLength(stone) / 2)
    ensures Pow10(DecimalLength(stone) / 2 - 1) <= SplitStone(stone, DecimalLength(stone)).0
  {
    SplitBelow(stone);
    var d := DecimalLength(stone);
    var halves := SplitStone(stone, d);
    SplitStoneParts(stone, d);
    HalfPowers(stone, d);
    QuotientBounds(stone, halves.0, halves.1, Pow10(d / 2), Pow10(d / 2 - 1));
  }

  /** A stone of d digits, d even, lies between 10^(d/2-1) * 10^(d/2) and
      10^(d/2) * 10^(d/2). */
  lemma HalfPowers(stone: nat, d: nat)
    requires d == DecimalLength(stone) && d % 2 == 0
    ensures d / 2 >= 1
    ensures stone < Pow10(d / 2) * Pow10(d / 2)
    ensures Pow10(d / 2 - 1) * Pow10(d / 2) <= stone
  {
    DecimalLengthBounds(stone);
    var h := d / 2;
    assert h + h == d && h >= 1 && h - 1 + h == d - 1;
    Pow10Add(h, h);
    Pow10Add(h - 1, h);
  }

  /** If x == q * p + r with r < p, and lo * p <= x < p * p, then lo <= q < p. */
  lemma QuotientBounds(x: nat, q: nat, r: nat, p: nat, lo: nat)
    requires x == q * p + r && r < p
    requires x < p * p && lo * p <= x
    ensures lo <= q < p
  {
    if q >= p {
      MulMono2(p, q, p);
    }
    if q < lo {
      MulMono2(q + 1, lo, p);
      MulSucc(q, p);
    }
  }

  /** The stones one stone becomes after one blink. */
  function Rule(stone: nat): (r: seq<nat>)
    requires stone < TWO_64
    ensures 1 <= |r| <= 2
    ensures forall k :: 0 <= k < |r| ==> r[k] < TWO_64
  {
    if stone == 0 then [1]
    else if DecimalLength(stone) % 2 == 1 then [Wrap64(stone * 2024)]
    else
      SplitBelow(stone);
      var halves := SplitStone(stone, DecimalLength(stone));
      [halves.0, halves.1]
  }

  lemma SplitBelow(stone: nat)
    requires stone < TWO_64
    ensures DecimalLength(stone) / 2 < 20
    ensures SplitStone(stone, DecimalLength(stone)).0 < TWO_64
    ensures SplitStone(stone, DecimalLength(stone)).1 < TWO_64
  {
    DecimalLength64(stone);
    var p := Pow10(DecimalLength(stone) / 2);
    var halves := SplitStone(stone, DecimalLength(stone));
    SplitStoneParts(stone, DecimalLength(stone));
    MulAtLeast(halves.0, p);
    assert halves.0 <= halves.0 * p;
    assert halves.1 <= stone;
  }

  /** A 64-bit stone has at most twenty digits. */
  lemma DecimalLength64(stone: nat)
    requires stone < TWO_64
    ensures DecimalLength(stone) <= 20
  {
    NumDigits64Correct(stone);
  }

  predicate AllU64(stones: seq<nat>) {
    forall k :: 0 <= k < |stones| ==> stones[k] < TWO_64
  }

  /** One blink over a row of stones, each stone replaced by what its rule gives. */
  function BlinkOnce(stones: seq<nat>): (r: seq<nat>)
    requires AllU64(stones)
    ensures AllU64(r)
    decreases |stones|
  {
    if stones == [] then []
    else
      var rest := BlinkOnce(stones[1..]);
      var first := Rule(stones[0]);
      assert forall k :: 0 <= k < |first + rest| ==> (first + rest)[k] < TWO_64 by {
        forall k | 0 <= k < |first + rest|
          ensures (first + rest)[k] < TWO_64
        {
          if k >= |first| {
            assert (first + rest)[k] == rest[k - |first|];
          }
        }
      }
      first + rest
  }

  /** The row of stones after the given number of blinks. */
  function BlinkN(stones: seq<nat>, times: nat): (r: seq<nat>)
    requires AllU64(stones)
    ensures AllU64(r)
    decreases times
  {
    if times == 0 then stones else BlinkN(BlinkOnce(stones), times - 1)
  }

  /** The number of stones one stone becomes after the given number of blinks, as
      Blink computes it without its cache. */
  function BlinkCount(stone: nat, times: nat): nat
    requires stone < TWO_64
    decreases times
  {
    if times == 0 then 1
    else
      var next := Rule(stone);
      if |next| == 1 then BlinkCount(next[0], times - 1)
      else BlinkCount(next[0], times - 1) + BlinkCount(next[1], times - 1)
  }

  type Cache = map<(nat, nat), nat>

  /** Every cached count is the uncached count for its stone and number of blinks. */
  predicate CacheSound(cache: Cache) {
    forall key {:trigger cache[key]} :: key in cache ==> key.0 < TWO_64 && cache[key] == BlinkCount(key.0, key.1)
  }

  /** Blink: the number of stones after times blinks, through the cache. The cache
      is passed by reference in the source; here it goes in and comes back out. */
  method Blink(stone: nat, times: nat, cache0: Cache) returns (r: nat, cache: Cache)
    requires stone < TWO_64 && CacheSound(cache0)
    ensures r == BlinkCount(stone, times)
    ensures r >= 1
    ensures CacheSound(cache)
    decreases times
  {
    if times == 0 {
      return 1, cache0;
    }
    var key := (stone, times);
    if key in cache0 {
      BlinkCountPositive(stone, times);
      return cache0[key], cache0;
    }
    if stone == 0 {
      assert Rule(stone) == [1];
      r, cache := Blink(1, times - 1, cache0);
      cache := CacheInsert(cache, stone, times, r);
      return r, cache;
    }
    var digits := StoneDigits(stone);
    if digits % 2 == 1 {
      BlinkCountOdd(stone, times, digits);
      r, cache := Blink(Wrap64(stone * 2024), times - 1, cache0);
      cache := CacheInsert(cache, stone, times, r);
      return r, cache;
    }
    var pair := SplitStone(stone, digits);
    BlinkCountEven(stone, times, digits, pair);
    var left, right;
    left, cache := Blink(pair.0, times - 1, cache0);
    right, cache := Blink(pair.1, times - 1, cache);
    r := left + right;
    BlinkCountSum(stone, times, digits, pair, left, right);
    cache := CacheInsert(cache, stone, times, r);
  }

  /** aoc::util::NumDigits on the stone, with what the decision tree computes. */
  method StoneDigits(stone: nat) returns (digits: nat)
    requires stone < TWO_64
    ensures digits == DecimalLength(stone) && 1 <= digits <= 20
  {
    digits := NumDigits64(stone);
    NumDigits64Correct(stone);
  }

  /** cache[key] = result: a sound cache stays sound when it learns a true count. */
  function CacheInsert(cache: Cache, stone: nat, times: nat, r: nat): (cache': Cache)
    requires CacheSound(cache) && stone < TWO_64 && r == BlinkCount(stone, times)
    ensures CacheSound(cache') && cache' == cache[(stone, times) := r]
  {
    cache[(stone, times) := r]
  }

  /** BlinkCount of a stone with an odd number of digits, one blink unfolded. */
  lemma BlinkCountOdd(stone: nat, times: nat, digits: nat)
    requires 0 < stone < TWO_64 && times > 0
    requires digits == DecimalLength(stone) && digits % 2 == 1
    ensures BlinkCount(stone, times) == BlinkCount(Wrap64(stone * 2024), times - 1)
  {
  }

  /** BlinkCount of a stone with an even number of digits, one blink unfolded. */
  lemma BlinkCountEven(stone: nat, times: nat, digits: nat, pair: (nat, nat))
    requires 0 < stone < TWO_64 && times > 0
    requires digits == DecimalLength(stone) && digits % 2 == 0 && digits / 2 < |TEN_POWERS|
    requires pair == SplitStone(stone, digits)
    ensures pair.0 < TWO_64 && pair.1 < TWO_64
    ensures BlinkCount(stone, times) == BlinkCount(pair.0, times - 1) + BlinkCount(pair.1, times - 1)
  {
    SplitBelow(stone);
  }

  /** The even case's result: the two halves' counts add up to the stone's. */
  lemma BlinkCountSum(stone: nat, times: nat, digits: nat, pair: (nat, nat), left: nat, right: nat)
    requires 0 < stone < TWO_64 && times > 0
    requires digits == DecimalLength(stone) && digits % 2 == 0 && digits / 2 < |TEN_POWERS|
    requires pair == SplitStone(stone, digits) && pair.0 < TWO_64 && pair.1 < TWO_64
    requires left == BlinkCount(pair.0, times - 1) && right == BlinkCount(pair.1, times - 1)
    ensures left + right == BlinkCount(stone, times)
  {
    BlinkCountEven(stone, times, digits, pair);
  }

  /** Every stone stays at least one stone. */
  lemma {:induction false} BlinkCountPositive(stone: nat, times: nat)
    requires stone < TWO_64
    ensures BlinkCount(stone, times) >= 1
    decreases times
  {
    if times > 0 {
      BlinkCountPositive(Rule(stone)[0], times - 1);
    }
  }

  /** A 0 stone turns into a 1 stone: one blink spent, nothing else changes. */
  lemma BlinkCountZero(times: nat)
    requires times > 0
    ensures BlinkCount(0, times) == BlinkCount(1, times - 1)
  {
    assert Rule(0) == [1];
  }

  lemma {:induction false} BlinkOnceConcat(xs: seq<nat>, ys: seq<nat>)
    requires AllU64(xs) && AllU64(ys)
    ensures AllU64(xs + ys)
    ensures BlinkOnce(xs + ys) == BlinkOnce(xs) + BlinkOnce(ys)
    decreases |xs|
  {
    assert AllU64(xs + ys) by {
      forall k | 0 <= k < |xs + ys|
        ensures (xs + ys)[k] < TWO_64
      {
        if k >= |xs| {
          assert (xs + ys)[k] == ys[k - |xs|];
        }
      }
    }
    if xs == [] {
      assert xs + ys == ys;
    } else {
      assert (xs + ys)[0] == xs[0] && (xs + ys)[1..] == xs[1..] + ys;
      BlinkOnceConcat(xs[1..], ys);
      assert Rule(xs[0]) + (BlinkOnce(xs[1..]) + BlinkOnce(ys)) == (Rule(xs[0]) + BlinkOnce(xs[1..])) + BlinkOnce(ys);
    }
  }

  /** The stones of a row blink independently of each other. */
  lemma {:induction false} BlinkNConcat(xs: seq<nat>, ys: seq<nat>, times: nat)
    requires AllU64(xs) && AllU64(ys)
    ensures AllU64(xs + ys)
    ensures |BlinkN(xs + ys, times)| == |BlinkN(xs, times)| + |BlinkN(ys, times)|
    decreases times
  {
    BlinkOnceConcat(xs, ys);
    if times > 0 {
      BlinkNConcat(BlinkOnce(xs), BlinkOnce(ys), times - 1);
    }
  }

  /** Blink counts the stones the simulation of the whole row produces from one stone. */
  lemma {:induction false} BlinkCountIsRowLength(stone: nat, times: nat)
    requires stone < TWO_64
    ensures BlinkCount(stone, times) == |BlinkN([stone], times)|
    decreases times
  {
    if times > 0 {
      assert [stone][1..] == [];
      assert BlinkOnce([stone]) == Rule(stone) + [];
      assert Rule(stone) + [] == Rule(stone);
      var next := Rule(stone);
      if |next| == 1 {
        BlinkCountIsRowLength(next[0], times - 1);
        assert next == [next[0]];
      } else {
        assert next == [next[0]] + [next[1]];
        BlinkNConcat([next[0]], [next[1]], times - 1);
        BlinkCountIsRowLength(next[0], times - 1);
        BlinkCountIsRowLength(next[1], times - 1);
      }
    }
  }

}
