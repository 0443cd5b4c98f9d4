/** Gift shop product ids (2025/02): an id is invalid when its decimal digits are
    one block of digits written several times over. The solver finds them in a
    range by enumerating the blocks. */
module Repeats {
  import opened Common
  import opened Digits

  /** The block's digits written times times over (a single block for times <= 1):
      the value MakeWhole builds. */
  function Repeat(block: nat, times: nat): nat
  {
    if times <= 1 then block else Repeat(block, times - 1) * Pow10(DecimalLength(block)) + block
  }

  /** A string written times times over. */
  function RepeatString(s: string, times: nat): string
  {
    if times == 0 then [] else RepeatString(s, times - 1) + s
  }

  /** x is written as some block repeated times times. */
  ghost predicate IsRepeat(x: nat, times: nat) {
    exists q: nat :: q <= x && Repeat(q, times) == x
  }

  /** MakeWhole: the block repeated splits times, built by shifting the result left by
      the block's length and adding the block, in u64 arithmetic. The block must have
      fewer than twenty digits for kTenPowers to hold the multiplier. Whenever the
      repeated value fits in 64 bits it is the result. */
  method MakeWhole(block: nat, splits: nat) returns (result: nat)
    requires block < 10_000_000_000_000_000_000
    ensures result < TWO_64
    ensures Repeat(block, splits) < TWO_64 ==> result == Repeat(block, splits)
  {
    Multiplier(block);
    var multiplier := TEN_POWERS[NumDigits64(block)];
    result := block;
    var i := 1;
    while i < splits
      invariant 1 <= i <= if splits >= 1 then splits else 1
      invariant result < TWO_64
      invariant Repeat(block, i) < TWO_64 ==> result == Repeat(block, i)
    {
      RepeatGrows(block, i);
      result := Wrap64(result * multiplier + block);
      i := i + 1;
    }
  }

  /** The multiplier MakeWhole looks up: ten to the block's length. */
  lemma Multiplier(block: nat)
    requires block < 10_000_000_000_000_000_000
    ensures block < TWO_64 && NumDigits64(block) < 20 && TEN_POWERS[NumDigits64(block)] == Pow10(DecimalLength(block))
  {
    Pow10Table();
    NumDigits64Correct(block);
    TenPowersTable(NumDigits64(block));
  }

  /** Writing the block once more gives a value at least as large. */
  lemma RepeatGrows(block: nat, times: nat)
    requires times >= 1
    ensures Repeat(block, times) <= Repeat(block, times + 1)
  {
    MulAtLeast(Repeat(block, times), Pow10(DecimalLength(block)));
  }

  /** The repeated value is no smaller than the block. */
  lemma {:induction false} RepeatAtLeast(block: nat, times: nat)
    ensures block <= Repeat(block, times)
    decreases times
  {
    if times > 1 {
      RepeatAtLeast(block, times - 1);
      MulNonnegative(Repeat(block, times - 1), Pow10(DecimalLength(block)));
    }
  }

  /** The decimal digits of the repeated value are the block's digits written times
      times over. */
  lemma {:induction false} RepeatDigits(block: nat, times: nat)
    requires block >= 1 && times >= 1
    ensures DecimalString(Repeat(block, times)) == RepeatString(DecimalString(block), times)
    decreases times
  {
    if times == 1 {
      assert RepeatString(DecimalString(block), 1) == [] + DecimalString(block);
    } else {
      RepeatDigits(block, times - 1);
      RepeatAtLeast(block, times - 1);
      ConcatDigits(Repeat(block, times - 1), block);
    }
  }

  lemma {:induction false} RepeatStringLength(s: string, times: nat)
    ensures |RepeatString(s, times)| == times * |s|
    decreases times
  {
    if times > 0 {
      RepeatStringLength(s, times - 1);
    }
  }

  /** A block of L digits repeated times times has times * L digits. */
  lemma RepeatLength(block: nat, times: nat)
    requires block >= 1 && times >= 1
    ensures DecimalLength(Repeat(block, times)) == times * DecimalLength(block)
  {
    RepeatDigits(block, times);
    RepeatStringLength(DecimalString(block), times);
  }

  lemma {:induction false} RepeatZero(times: nat)
    ensures Repeat(0, times) == 0
    decreases times
  {
    if times > 1 {
      RepeatZero(times - 1);
    }
  }

  /** The first block of the repeated value is the block itself. */
  lemma {:induction false} RepeatLeading(block: nat, times: nat)
    requires times >= 1
    ensures Repeat(block, times + 1) == block * Pow10(times * DecimalLength(block)) + Repeat(block, times)
    decreases times
  {
    var len := DecimalLength(block);
    if times > 1 {
      RepeatLeading(block, times - 1);
      Pow10Add((times - 1) * len, len);
      MulSucc(times - 1, len);
      var a := Pow10((times - 1) * len);
      var p := Pow10(len);
      Distrib(block * a, Repeat(block, times - 1), p);
      MulAssoc(block, a, p);
    }
  }

  /** The repeated value has at most times * L digits. */
  lemma {:induction false} RepeatBelow(block: nat, times: nat, len: nat, n: nat)
    requires times >= 1 && len == DecimalLength(block) && n == times * len
    ensures Repeat(block, times) < Pow10(n)
    decreases times
  {
    DecimalLengthBounds(block);
    if times == 1 {
      assert n == len;
    } else {
      MulPred(times, len);
      RepeatBelow(block, times - 1, len, n - len);
      BelowNext(block, times, len, n - len, n);
    }
  }

  lemma BelowNext(block: nat, times: nat, len: nat, n1: nat, n: nat)
    requires times > 1 && len == DecimalLength(block) && n == n1 + len
    requires block < Pow10(len) && Repeat(block, times - 1) < Pow10(n1)
    ensures Repeat(block, times) < Pow10(n)
  {
    Pow10Add(n1, len);
    BelowStep(Repeat(block, times - 1), Pow10(n1), Pow10(len), block, Pow10(n));
  }

  /** r < a and q < p give r * p + q < a * p. */
  lemma BelowStep(r: nat, a: nat, p: nat, q: nat, ap: nat)
    requires r < a && q < p && ap == a * p
    ensures r * p + q < ap
  {
    MulMono2(r, a - 1, p);
    MulPred(a, p);
  }

  /** The repeated value lies between the block and the next block, shifted over the
      other times - 1 blocks of len digits (n of them). */
  lemma RepeatBounds(block: nat, times: nat, len: nat, n: nat)
    requires times >= 1 && len == DecimalLength(block) && n == (times - 1) * len
    ensures block * Pow10(n) <= Repeat(block, times) < (block + 1) * Pow10(n)
  {
    if times == 1 {
      MulZero(times - 1, len);
    } else {
      RepeatLeading(block, times - 1);
      RepeatBelow(block, times - 1, len, n);
      MulSucc(block, Pow10(n));
    }
  }

  /** A block of k nines repeated is all nines. */
  lemma {:induction false} AllNines(k: nat, times: nat)
    requires k >= 1 && times >= 1
    ensures Repeat(Pow10(k) - 1, times) == Pow10(times * k) - 1
    decreases times
  {
    NinesLength(k);
    if times > 1 {
      var m := (times - 1) * k;
      AllNines(k, times - 1);
      NinesStep(k, times, Pow10(m), Pow10(k));
      MulSucc(times - 1, k);
      Pow10Add(m, k);
    }
  }

  /** One more block of k nines after a - 1: a * 10^k - 1. */
  lemma NinesStep(k: nat, times: nat, a: nat, p: nat)
    requires k >= 1 && times > 1 && p == Pow10(k) && DecimalLength(p - 1) == k
    requires Repeat(p - 1, times - 1) == a - 1
    ensures Repeat(p - 1, times) == a * p - 1
  {
    MulPred(a, p);
  }

  lemma NinesLength(k: nat)
    requires k >= 1
    ensures DecimalLength(Pow10(k) - 1) == k
  {
    if k > 1 {
      assert Pow10(k) == 10 * Pow10(k - 1);
    }
    DecimalLengthUnique(Pow10(k) - 1, k);
  }

  /** A block with at least k digits, repeated, is at least the block shifted over e
      digits. */
  lemma RepeatAbove(block: nat, times: nat, k: nat, e: nat)
    requires times >= 1 && e == (times - 1) * k && DecimalLength(block) >= k
    ensures Repeat(block, times) >= block * Pow10(e)
  {
    var len := DecimalLength(block);
    var n := (times - 1) * len;
    RepeatBounds(block, times, len, n);
    MulMono1(times - 1, k, len);
    ShiftMono(block, e, n);
  }

  /** Shifting over more digits gives a larger number. */
  lemma ShiftMono(block: nat, e: nat, n: nat)
    requires e <= n
    ensures block * Pow10(e) <= block * Pow10(n)
  {
    Pow10Monotone(e, n);
    MulMono1(block, Pow10(e), Pow10(n));
  }

  /** A block with at most k digits, repeated, is below the next block shifted over
      e digits. */
  lemma RepeatUnder(block: nat, times: nat, k: nat, e: nat)
    requires times >= 1 && e == (times - 1) * k && DecimalLength(block) <= k
    ensures Repeat(block, times) < (block + 1) * Pow10(e)
  {
    var len := DecimalLength(block);
    var n := (times - 1) * len;
    RepeatBounds(block, times, len, n);
    MulMono1(times - 1, len, k);
    Pow10Monotone(n, e);
    MulMono1(block + 1, Pow10(n), Pow10(e));
  }

  /** Digit counts compared with powers of ten. */
  lemma LengthAtLeast(q: nat, k: nat)
    requires k >= 1 && Pow10(k - 1) <= q
    ensures DecimalLength(q) >= k
  {
    DecimalLengthBounds(q);
    if DecimalLength(q) < k {
      Pow10Monotone(DecimalLength(q), k - 1);
    }
  }

  lemma LengthAtMost(q: nat, k: nat)
    requires k >= 1 && q < Pow10(k)
    ensures DecimalLength(q) <= k
  {
    DecimalLengthBounds(q);
    if DecimalLength(q) > k && q >= 1 {
      Pow10Monotone(k, DecimalLength(q) - 1);
    }
  }

  /** GetPattern: the id divided by ten to the number of digits outside the first
      block, that is the id's leading num_digits / splits digits. */
  function GetPattern(id: nat, numDigits: nat, splits: nat): nat
    requires splits >= 1 && numDigits - numDigits / splits < 20
  {
    var e := numDigits - numDigits / splits;
    TenPowersTable(e);
    id / TEN_POWERS[e]
  }

  /** The pattern is the id with its last e digits dropped: the block p whose
      shift over e digits brackets the id. */
  lemma PatternBounds(id: nat, numDigits: nat, splits: nat, e: nat)
    requires splits >= 1 && e == numDigits - numDigits / splits && e < 20
    ensures GetPattern(id, numDigits, splits) == id / Pow10(e)
    ensures GetPattern(id, numDigits, splits) * Pow10(e) <= id < (GetPattern(id, numDigits, splits) + 1) * Pow10(e)
  {
    TenPowersTable(e);
    DivBounds(id, Pow10(e));
  }

  /** The pattern of an id with numDigits digits is the string of its leading
      numDigits / splits digits. */
  lemma PatternIsLeadingDigits(id: nat, numDigits: nat, splits: nat)
    requires splits >= 1 && numDigits - numDigits / splits < 20
    requires DecimalLength(id) == numDigits && numDigits / splits >= 1
    ensures DecimalString(GetPattern(id, numDigits, splits)) == DecimalString(id)[..numDigits / splits]
  {
    DropDigits(id, numDigits - numDigits / splits);
    LeadIsDiv(id, numDigits - numDigits / splits);
    PatternBounds(id, numDigits, splits, numDigits - numDigits / splits);
  }

  /** The number with its last e digits dropped. */
  function Lead(x: nat, e: nat): nat {
    if e == 0 then x else Lead(x, e - 1) / 10
  }

  /** Dropping e digits is dividing by 10^e. */
  lemma {:induction false} LeadIsDiv(x: nat, e: nat)
    ensures Lead(x, e) == x / Pow10(e)
    decreases e
  {
    if e > 0 {
      LeadIsDiv(x, e - 1);
      DivDiv(x, Pow10(e - 1), 10);
    }
  }

  /** Dropping e digits leaves the first DecimalLength(x) - e of them. */
  lemma {:induction false} DropDigits(x: nat, e: nat)
    requires e < DecimalLength(x)
    ensures DecimalLength(Lead(x, e)) == DecimalLength(x) - e
    ensures DecimalString(Lead(x, e)) == DecimalString(x)[..DecimalLength(x) - e]
    decreases e
  {
    if e == 0 {
      assert DecimalString(x)[..DecimalLength(x)] == DecimalString(x);
    } else {
      DropDigits(x, e - 1);
      var y := Lead(x, e - 1);
      assert y >= 10;
      assert DecimalString(y) == DecimalString(y / 10) + [DigitChar(y % 10)];
      assert DecimalString(y / 10) == DecimalString(y)[..DecimalLength(y) - 1];
    }
  }

  lemma DivDiv(x: nat, a: nat, b: nat)
    requires a >= 1 && b >= 1
    ensures x / (a * b) == (x / a) / b
  {
    var q1 := x / a;
    var r1 := x % a;
    var q2 := q1 / b;
    var r2 := q1 % b;
    assert x == a * q1 + r1;
    assert q1 == b * q2 + r2;
    MulMono2(r2, b - 1, a);
    assert (b - 1) * a == a * b - a;
    assert x == (a * b) * q2 + (a * r2 + r1) by {
      assert a * q1 == a * (b * q2) + a * r2;
    }
    DivModUnique(x, a * b, q2, a * r2 + r1);
  }

  /** Ids with numDigits digits that are blocks repeated splits times exist only when
      splits divides numDigits. */
  lemma NotRepeat(x: nat, numDigits: nat, splits: nat)
    requires splits >= 1 && x >= 1 && DecimalLength(x) == numDigits && numDigits % splits != 0
    ensures !IsRepeat(x, splits)
  {
    if IsRepeat(x, splits) {
      var q: nat :| q <= x && Repeat(q, splits) == x;
      if q == 0 {
        RepeatZero(splits);
      } else {
        RepeatLength(q, splits);
        MulMod(splits, DecimalLength(q));
      }
    }
  }

  /** p is the leading block of k digits of id, followed by e more digits. */
  predicate Leads(id: nat, k: nat, e: nat, p: nat) {
    k >= 1 && p * Pow10(e) <= id < (p + 1) * Pow10(e) && Pow10(k - 1) <= p < Pow10(k)
  }

  /** The facts the two bound-adjusting loops leave: the blocks from first to last
      bracket start and end, and the loops stepped past first or last only when its
      repeated value lay outside the range. */
  ghost predicate Bracketed(start: nat, end: nat, splits: nat, k: nat, e: nat, first: nat, last: nat,
                            patternStart: nat, patternEnd: nat)
  {
    splits >= 1 && k >= 1 && e == (splits - 1) * k && start <= end
    && Leads(start, k, e, first) && Leads(end, k, e, last)
    && ((patternStart == first && Repeat(first, splits) >= start)
        || (patternStart == first + 1 && Repeat(first, splits) < start))
    && ((patternEnd == last && Repeat(last, splits) <= end)
        || (patternEnd + 1 == last && Repeat(last, splits) > end))
  }

  /** A block below b < 10^k repeated is below b shifted over e digits. */
  lemma BelowBlock(q: nat, b: nat, splits: nat, k: nat, e: nat, x: nat)
    requires splits >= 1 && k >= 1 && e == (splits - 1) * k
    requires q < b <= Pow10(k) && b * Pow10(e) <= x
    ensures Repeat(q, splits) < x
  {
    LengthAtMost(q, k);
    RepeatUnder(q, splits, k, e);
    MulMono2(q + 1, b, Pow10(e));
  }

  /** A block above b >= 10^(k-1) repeated is at least the block after b shifted over
      e digits. */
  lemma AboveBlock(q: nat, b: nat, splits: nat, k: nat, e: nat, x: nat)
    requires splits >= 1 && k >= 1 && e == (splits - 1) * k
    requires Pow10(k - 1) <= b < q && x < (b + 1) * Pow10(e)
    ensures Repeat(q, splits) > x
  {
    LengthAtLeast(q, k);
    RepeatAbove(q, splits, k, e);
    MulMono2(b + 1, q, Pow10(e));
  }

  /** Between the adjusted bounds lie exactly the blocks whose repeated value is in
      the range. */
  lemma Between(q: nat, start: nat, end: nat, splits: nat, k: nat, e: nat, first: nat, last: nat,
                patternStart: nat, patternEnd: nat)
    requires Bracketed(start, end, splits, k, e, first, last, patternStart, patternEnd)
    ensures patternStart <= q <= patternEnd <==> start <= Repeat(q, splits) <= end
  {
    if q < first {
      BelowBlock(q, first, splits, k, e, start);
    } else if q > first {
      AboveBlock(q, first, splits, k, e, start);
    }
    if q < last {
      BelowBlock(q, last, splits, k, e, end);
    } else if q > last {
      AboveBlock(q, last, splits, k, e, end);
    }
  }

  /** The block first is the leading block of an id with splits * k digits. */
  lemma PatternDigits(id: nat, numDigits: nat, k: nat, e: nat, p: nat)
    requires k >= 1 && numDigits == e + k && DecimalLength(id) == numDigits && id >= 1
    requires p * Pow10(e) <= id < (p + 1) * Pow10(e)
    ensures Pow10(k - 1) <= p < Pow10(k)
  {
    DecimalLengthBounds(id);
    Pow10Add(k, e);
    Pow10Add(k - 1, e);
    assert k - 1 + e == numDigits - 1;
    if p >= Pow10(k) {
      MulMono2(Pow10(k), p, Pow10(e));
    }
    if p + 1 <= Pow10(k - 1) {
      MulMono2(p + 1, Pow10(k - 1), Pow10(e));
    }
  }

  /** The leading block of an id with numDigits digits has numDigits / splits digits
      and brackets the id. */
  lemma LeadingBlock(id: nat, numDigits: nat, splits: nat)
    requires splits >= 1 && numDigits / splits >= 1 && numDigits - numDigits / splits < 20
    requires DecimalLength(id) == numDigits && id >= 1
    ensures Leads(id, numDigits / splits, numDigits - numDigits / splits, GetPattern(id, numDigits, splits))
  {
    var k := numDigits / splits;
    var e := numDigits - k;
    var p := GetPattern(id, numDigits, splits);
    PatternBounds(id, numDigits, splits, e);
    PatternDigits(id, numDigits, k, e, p);
  }

  /** A block below 10^k repeated into a range of ids below 10^19 fits in 64 bits. */
  lemma Fits(q: nat, splits: nat, k: nat, e: nat, numDigits: nat)
    requires splits >= 1 && k >= 1 && e == (splits - 1) * k && numDigits == e + k && numDigits <= 19 && q < Pow10(k)
    ensures q < 10_000_000_000_000_000_000 && Repeat(q, splits) < Pow10(numDigits) && Repeat(q, splits) < TWO_64
  {
    Pow10Table();
    LengthAtMost(q, k);
    RepeatUnder(q, splits, k, e);
    MulMono2(q + 1, Pow10(k), Pow10(e));
    Pow10Add(k, e);
    Pow10Monotone(numDigits, 19);
    Pow10Monotone(k, 19);
  }

  /** The digit layout of a range scanned with splits blocks: numDigits digits in
      splits blocks of k, e of them after the first block, at most nineteen. */
  predicate Layout(numDigits: nat, splits: nat, k: nat, e: nat) {
    splits >= 1 && k >= 1 && numDigits == splits * k && e == (splits - 1) * k && numDigits == e + k
    && numDigits <= 19
  }

  /** The first loop steps at most once: its block is then the leading block of
      start, and that block is not the last one with k digits. */
  lemma NextBlock(start: nat, numDigits: nat, splits: nat, k: nat, e: nat, first: nat, patternStart: nat)
    requires Layout(numDigits, splits, k, e) && start >= 1 && DecimalLength(start) == numDigits
    requires Leads(start, k, e, first)
    requires patternStart == first || (patternStart == first + 1 && Repeat(first, splits) < start)
    requires patternStart < Pow10(k) && Repeat(patternStart, splits) < start
    ensures patternStart == first && first + 1 < Pow10(k)
  {
    if patternStart == first + 1 {
      LengthAtLeast(first + 1, k);
      RepeatAbove(first + 1, splits, k, e);
      assert false;
    }
    if first + 1 == Pow10(k) {
      AllNines(k, splits);
      assert Repeat(first, splits) == Pow10(numDigits) - 1;
      DecimalLengthBounds(start);
      assert false;
    }
  }

  /** The first of the source's two while loops: the leading block of start moves up
      by one when its repeated value is below start (once is always enough). */
  method FirstBlock(start: nat, numDigits: nat, splits: nat, ghost k: nat, ghost e: nat, first: nat)
    returns (patternStart: nat)
    requires Layout(numDigits, splits, k, e) && start >= 1 && DecimalLength(start) == numDigits
    requires Leads(start, k, e, first)
    ensures (patternStart == first && Repeat(first, splits) >= start)
            || (patternStart == first + 1 && Repeat(first, splits) < start)
  {
    patternStart := first;
    Fits(first, splits, k, e, numDigits);
    var w := MakeWhole(patternStart, splits);
    while w < start
      invariant patternStart == first || (patternStart == first + 1 && Repeat(first, splits) < start)
      invariant patternStart < Pow10(k) && w == Repeat(patternStart, splits)
      decreases first + 1 - patternStart
    {
      NextBlock(start, numDigits, splits, k, e, first, patternStart);
      patternStart := patternStart + 1;
      Fits(patternStart, splits, k, e, numDigits);
      w := MakeWhole(patternStart, splits);
    }
  }

  /** The second while loop: the leading block of end moves down by one when its
      repeated value is above end (once is always enough). */
  method LastBlock(end: nat, numDigits: nat, splits: nat, ghost k: nat, ghost e: nat, last: nat)
    returns (patternEnd: nat)
    requires Layout(numDigits, splits, k, e)
    requires Leads(end, k, e, last)
    ensures (patternEnd == last && Repeat(last, splits) <= end)
            || (patternEnd + 1 == last && Repeat(last, splits) > end)
  {
    patternEnd := last;
    Fits(last, splits, k, e, numDigits);
    var w := MakeWhole(patternEnd, splits);
    while w > end
      invariant patternEnd == last || (patternEnd + 1 == last && Repeat(last, splits) > end)
      invariant patternEnd < Pow10(k) && w == Repeat(patternEnd, splits)
      decreases patternEnd
    {
      if patternEnd + 1 == last {
        LengthAtMost(patternEnd, k);
        RepeatUnder(patternEnd, splits, k, e);
        assert false;
      }
      patternEnd := patternEnd - 1;
      Fits(patternEnd, splits, k, e, numDigits);
      w := MakeWhole(patternEnd, splits);
    }
  }

  /** result is result0 with the repeated values of the blocks lo to hi added. */
  ghost predicate Collected(result: set<nat>, result0: set<nat>, lo: nat, hi: nat, splits: nat) {
    forall x :: x in result <==> x in result0 || exists q: nat :: lo <= q <= hi && x == Repeat(q, splits)
  }

  /** The for loop: the repeated value of every block from patternStart to
      patternEnd goes into the set. */
  method Collect(patternStart: nat, patternEnd: nat, splits: nat, result0: set<nat>,
                 ghost numDigits: nat, ghost k: nat, ghost e: nat)
    returns (result: set<nat>)
    requires Layout(numDigits, splits, k, e) && patternEnd < Pow10(k)
    ensures Collected(result, result0, patternStart, patternEnd, splits)
  {
    result := result0;
    var pattern := patternStart;
    while pattern <= patternEnd
      invariant patternStart <= pattern && (pattern <= patternEnd + 1 || pattern == patternStart)
      invariant forall x :: x in result <==> x in result0 || exists q: nat :: patternStart <= q < pattern && x == Repeat(q, splits)
      decreases patternEnd + 1 - pattern
    {
      Fits(pattern, splits, k, e, numDigits);
      var w := MakeWhole(pattern, splits);
      result := result + {w};
      pattern := pattern + 1;
    }
  }

  /** ScanRangeWithSplits: adds to the set every id in [start, end] that is a block
      repeated splits times. The range lies within one digit count (numDigits), as
      the solver's caller cuts it. Nothing is added when splits does not divide
      numDigits; otherwise the first and last blocks are taken from start and end
      and moved inwards until their repeated values lie in the range. The set
      passed by reference goes in and comes back out. */
  method ScanRangeWithSplits(start: nat, end: nat, numDigits: nat, splits: nat, result0: set<nat>)
    returns (result: set<nat>)
    requires 1 <= start <= end < 10_000_000_000_000_000_000
    requires DecimalLength(start) == numDigits && DecimalLength(end) == numDigits && splits >= 1
    ensures forall x :: x in result <==> x in result0 || (start <= x <= end && IsRepeat(x, splits))
    ensures numDigits % splits != 0 ==> result == result0
  {
    if numDigits % splits != 0 {
      NoneInRange(start, end, numDigits, splits);
      return result0;
    }
    DivIsSmaller(numDigits, splits);
    LayoutOf(end, numDigits, splits);
    var first := GetPattern(start, numDigits, splits);
    var last := GetPattern(end, numDigits, splits);
    LeadingBlock(start, numDigits, splits);
    LeadingBlock(end, numDigits, splits);
    result := ScanBlocks(start, end, numDigits, splits, numDigits / splits, numDigits - numDigits / splits,
                         first, last, result0);
  }

  /** The rest of ScanRangeWithSplits once splits divides numDigits into blocks of
      k digits and first and last are the leading blocks of start and end. */
  method ScanBlocks(start: nat, end: nat, numDigits: nat, splits: nat, k: nat, ghost e: nat,
                    first: nat, last: nat, result0: set<nat>)
    returns (result: set<nat>)
    requires 1 <= start <= end && DecimalLength(start) == numDigits && Layout(numDigits, splits, k, e)
    requires Leads(start, k, e, first)
    requires Leads(end, k, e, last)
    ensures forall x :: x in result <==> x in result0 || (start <= x <= end && IsRepeat(x, splits))
  {
    var patternStart := FirstBlock(start, numDigits, splits, k, e, first);
    var patternEnd := LastBlock(end, numDigits, splits, k, e, last);
    assert Bracketed(start, end, splits, k, e, first, last, patternStart, patternEnd);
    result := Collect(patternStart, patternEnd, splits, result0, numDigits, k, e);
    Scanned(result, result0, start, end, splits, k, e, first, last, patternStart, patternEnd);
  }

  /** The blocks collected between the adjusted bounds are exactly the repeats in the
      range. */
  lemma Scanned(result: set<nat>, result0: set<nat>, start: nat, end: nat, splits: nat, k: nat, e: nat,
                first: nat, last: nat, patternStart: nat, patternEnd: nat)
    requires Bracketed(start, end, splits, k, e, first, last, patternStart, patternEnd)
    requires Collected(result, result0, patternStart, patternEnd, splits)
    ensures forall x :: x in result <==> x in result0 || (start <= x <= end && IsRepeat(x, splits))
  {
    forall x
      ensures x in result <==> x in result0 || (start <= x <= end && IsRepeat(x, splits))
    {
      if start <= x <= end && IsRepeat(x, splits) {
        var q: nat :| q <= x && Repeat(q, splits) == x;
        Between(q, start, end, splits, k, e, first, last, patternStart, patternEnd);
      }
      if x in result && x !in result0 {
        var q: nat :| patternStart <= q <= patternEnd && x == Repeat(q, splits);
        Between(q, start, end, splits, k, e, first, last, patternStart, patternEnd);
        RepeatAtLeast(q, splits);
      }
    }
  }

  /** The layout of a range whose digit count splits divides. */
  lemma LayoutOf(end: nat, numDigits: nat, splits: nat)
    requires end < 10_000_000_000_000_000_000 && DecimalLength(end) == numDigits
    requires splits >= 1 && numDigits % splits == 0
    ensures Layout(numDigits, splits, numDigits / splits, numDigits - numDigits / splits)
  {
    Pow10Table();
    var k := numDigits / splits;
    DivExact(numDigits, splits);
    MulPred(splits, k);
    DecimalLengthBounds(end);
    if numDigits > 19 {
      Pow10Monotone(19, numDigits - 1);
    }
  }

  /** No id of the range is a repeat when splits does not divide numDigits. */
  lemma NoneInRange(start: nat, end: nat, numDigits: nat, splits: nat)
    requires 1 <= start && DecimalLength(start) == numDigits && DecimalLength(end) == numDigits
    requires splits >= 1 && numDigits % splits != 0
    ensures forall x :: start <= x <= end ==> !IsRepeat(x, splits)
  {
    forall x | start <= x <= end
      ensures !IsRepeat(x, splits)
    {
      LengthBetween(x, start, end, numDigits);
      NotRepeat(x, numDigits, splits);
    }
  }

  /** Every id between two ids with numDigits digits has numDigits digits. */
  lemma LengthBetween(x: nat, start: nat, end: nat, numDigits: nat)
    requires 1 <= start <= x <= end && DecimalLength(start) == numDigits && DecimalLength(end) == numDigits
    ensures DecimalLength(x) == numDigits
  {
    DecimalLengthBounds(start);
    DecimalLengthBounds(end);
    DecimalLengthUnique(x, numDigits);
  }

  /** ScanRange: the ScanRangeWithSplits of every split count from 2 to max_splits,
      accumulated in one set. */
  method ScanRange(start: nat, end: nat, numDigits: nat, maxSplits: nat, result0: set<nat>)
    returns (result: set<nat>)
    requires 1 <= start <= end < 10_000_000_000_000_000_000
    requires DecimalLength(start) == numDigits && DecimalLength(end) == numDigits
    ensures forall x :: x in result <==> x in result0 || (start <= x <= end && exists s :: 2 <= s <= maxSplits && IsRepeat(x, s))
  {
    result := result0;
    var splits := 2;
    while splits <= maxSplits
      invariant 2 <= splits && (splits <= maxSplits + 1 || splits == 2)
      invariant forall x :: x in result <==> x in result0 || (start <= x <= end && exists s :: 2 <= s < splits && IsRepeat(x, s))
    {
      result := ScanRangeWithSplits(start, end, numDigits, splits, result);
      splits := splits + 1;
    }
  }
}
