/** Battery banks (2025/03): from a bank of single-digit batteries, switch on
    `needed` of them, in the bank's order, so that the digits read as the largest
    joltage. ScanBank does it greedily, taking for each position the first largest
    digit of a window that leaves enough batteries after it. */
module Batteries {
  import opened Common
  import opened Digits

  predicate IsDigit(c: char) {
    '0' <= c <= '9'
  }

  /** A bank of batteries, each a digit character. */
  predicate Bank(bank: string) {
    forall k :: 0 <= k < |bank| ==> IsDigit(bank[k])
  }

  /** The joltage of one battery (*it - '0'). */
  function Joltage(c: char): nat
    requires IsDigit(c)
  {
    c as int - '0' as int
  }

  /** The joltage a string of digits reads as, most significant first: the source's
      accumulation joltage * 10 + digit. */
  function Number(s: string): nat
    requires Bank(s)
  {
    if s == [] then 0 else Number(s[..|s| - 1]) * 10 + Joltage(s[|s| - 1])
  }

  /** The batteries at the given indices, in that order. */
  function Selected(bank: string, idx: seq<nat>): (s: string)
    requires forall i :: 0 <= i < |idx| ==> idx[i] < |bank|
    ensures |s| == |idx| && forall i :: 0 <= i < |idx| ==> s[i] == bank[idx[i]]
    ensures Bank(bank) ==> Bank(s)
  {
    seq(|idx|, i requires 0 <= i < |idx| => bank[idx[i]])
  }

  predicate Increasing(idx: seq<nat>) {
    forall i, j :: 0 <= i < j < |idx| ==> idx[i] < idx[j]
  }

  /** A way to switch on `needed` batteries among the first bakSize: that many
      indices, in increasing order, all below bakSize. */
  ghost predicate Selection(idx: seq<nat>, needed: nat, bakSize: nat) {
    |idx| == needed && Increasing(idx) && forall i :: 0 <= i < |idx| ==> idx[i] < bakSize
  }

  /** m is the first largest battery of bank[lo..hi]. */
  predicate IsFirstMax(bank: string, lo: nat, hi: nat, m: nat) {
    lo <= m < hi <= |bank|
    && (forall j :: lo <= j < hi ==> bank[j] <= bank[m])
    && (forall j :: lo <= j < m ==> bank[j] < bank[m])
  }

  /** std::max_element over bank[lo..hi] (the source's iterators from and to): the
      index of the first largest battery. */
  function FirstMax(bank: string, lo: nat, hi: nat): (m: nat)
    requires lo < hi <= |bank|
    decreases hi - lo
    ensures IsFirstMax(bank, lo, hi, m)
  {
    if lo + 1 == hi then lo
    else
      var rest := FirstMax(bank, lo + 1, hi);
      if bank[lo] >= bank[rest] then lo else rest
  }

  /** A window has one first largest battery. */
  lemma FirstMaxUnique(bank: string, lo: nat, hi: nat, a: nat, b: nat)
    requires IsFirstMax(bank, lo, hi, a) && IsFirstMax(bank, lo, hi, b)
    ensures a == b
  {
    Compared(bank, lo, hi, a, b);
    Compared(bank, lo, hi, b, a);
  }

  /** What the first largest battery m says about the battery at j. */
  lemma Compared(bank: string, lo: nat, hi: nat, m: nat, j: nat)
    requires IsFirstMax(bank, lo, hi, m) && lo <= j < hi
    ensures bank[j] <= bank[m] && (j < m ==> bank[j] < bank[m])
  {
  }

  /** The i-th pick is the first largest battery of its window, which starts just
      after the previous pick (at lo for the first) and ends at hi + i. */
  predicate PickedAt(bank: string, r: seq<nat>, lo: nat, hi: nat, i: nat)
    requires i < |r|
  {
    IsFirstMax(bank, if i == 0 then lo else r[i - 1] + 1, hi + i, r[i])
  }

  /** r is the choice ScanBank makes when the first window is [lo, hi): each pick the
      first largest battery of a window that starts just after the previous pick and
      is one place longer than the one before. */
  ghost predicate IsChoice(bank: string, lo: nat, hi: nat, r: seq<nat>) {
    (forall i :: 0 <= i < |r| ==> r[i] < |bank|)
    && forall i :: 0 <= i < |r| ==> PickedAt(bank, r, lo, hi, i)
  }

  /** The picks rise, each lies in its window, and so each leaves at least
      |r| - 1 - i batteries after it before the last window's end. */
  lemma {:induction false} ChoiceShape(bank: string, lo: nat, hi: nat, r: seq<nat>)
    requires IsChoice(bank, lo, hi, r)
    ensures Increasing(r)
    ensures forall i :: 0 <= i < |r| ==> lo <= r[i] < hi + i && r[i] + (|r| - i) <= hi + |r| - 1
  {
    forall i | 0 <= i < |r|
      ensures lo <= r[i] < hi + i
    {
      assert PickedAt(bank, r, lo, hi, i);
      AtLeastFirst(bank, lo, hi, r, i);
    }
    forall i, j | 0 <= i < j < |r|
      ensures r[i] < r[j]
    {
      Rising(bank, lo, hi, r, i, j);
    }
  }

  lemma {:induction false} AtLeastFirst(bank: string, lo: nat, hi: nat, r: seq<nat>, i: nat)
    requires IsChoice(bank, lo, hi, r) && i < |r|
    ensures r[i] >= lo
    decreases i
  {
    assert PickedAt(bank, r, lo, hi, i);
    if i > 0 {
      AtLeastFirst(bank, lo, hi, r, i - 1);
    }
  }

  lemma {:induction false} Rising(bank: string, lo: nat, hi: nat, r: seq<nat>, i: nat, j: nat)
    requires IsChoice(bank, lo, hi, r) && i < j < |r|
    ensures r[i] < r[j]
    decreases j
  {
    assert PickedAt(bank, r, lo, hi, j);
    if i < j - 1 {
      Rising(bank, lo, hi, r, i, j - 1);
    }
  }

  /** After the first pick, the rest is the choice for the windows that follow. */
  lemma ChoiceTail(bank: string, lo: nat, hi: nat, r: seq<nat>)
    requires IsChoice(bank, lo, hi, r) && |r| >= 1
    ensures IsChoice(bank, r[0] + 1, hi + 1, r[1..])
  {
    var t := r[1..];
    var lo' := r[0] + 1;
    var hi' := hi + 1;
    forall i | 0 <= i < |t|
      ensures PickedAt(bank, t, lo', hi', i)
    {
      assert PickedAt(bank, r, lo, hi, i + 1);
      assert t[i] == r[i + 1];
      assert i > 0 ==> t[i - 1] == r[i];
    }
  }

  /** A choice is determined by its first window and its length. */
  lemma {:induction false} ChoiceUnique(bank: string, lo: nat, hi: nat, r: seq<nat>, q: seq<nat>)
    requires IsChoice(bank, lo, hi, r) && IsChoice(bank, lo, hi, q) && |r| == |q|
    ensures r == q
    decreases |r|
  {
    if |r| > 0 {
      assert PickedAt(bank, r, lo, hi, 0) && PickedAt(bank, q, lo, hi, 0);
      FirstMaxUnique(bank, lo, hi, r[0], q[0]);
      ChoiceTail(bank, lo, hi, r);
      ChoiceTail(bank, lo, hi, q);
      ChoiceUnique(bank, r[0] + 1, hi + 1, r[1..], q[1..]);
      assert r == [r[0]] + r[1..] && q == [q[0]] + q[1..];
    }
  }

  /** ScanBank: the greedy choice of `needed` batteries among the first bakSize of the
      bank, and its joltage accumulated in a u64. */
  method ScanBank(bank: string, bakSize: nat, needed: nat) returns (joltage: nat, ghost picks: seq<nat>)
    requires Bank(bank) && needed <= bakSize <= |bank|
    ensures |picks| == needed && IsChoice(bank, 0, bakSize - needed + 1, picks)
    ensures joltage == Wrap64(Number(Selected(bank, picks)))
    ensures needed <= 19 ==> joltage == Number(Selected(bank, picks)) < Pow10(needed) && Best(bank, needed, bakSize, joltage)
    ensures joltage < TWO_64 && (needed <= 19 ==> joltage < Pow10(needed) && Best(bank, needed, bakSize, joltage))
  {
    joltage := 0;
    var lo: nat := 0;
    var hi: nat := bakSize - needed + 1;
    picks := [];
    for battery := 0 to needed
      invariant |picks| == battery && hi == bakSize - needed + 1 + battery
      invariant lo == if battery == 0 then 0 else picks[battery - 1] + 1
      invariant IsChoice(bank, 0, bakSize - needed + 1, picks)
      invariant joltage == Wrap64(Number(Selected(bank, picks)))
    {
      Window(bank, bakSize - needed + 1, picks, lo, hi);
      var maxJolt := FirstMax(bank, lo, hi);
      Advance(bank, bakSize - needed + 1, picks, maxJolt, joltage);
      joltage := Wrap64(joltage * 10 + Joltage(bank[maxJolt]));
      picks := picks + [maxJolt];
      lo := maxJolt + 1;
      hi := hi + 1;
    }
    if needed <= 19 {
      ChoiceJoltage(bank, bakSize, needed, picks, joltage);
    }
  }

  /** The next window of the scan is not empty and lies in the bank. */
  lemma Window(bank: string, w: nat, picks: seq<nat>, lo: nat, hi: nat)
    requires IsChoice(bank, 0, w, picks) && w >= 1 && hi == w + |picks| <= |bank|
    requires lo == if |picks| == 0 then 0 else picks[|picks| - 1] + 1
    ensures lo < hi
  {
    if |picks| > 0 {
      assert PickedAt(bank, picks, 0, w, |picks| - 1);
    }
  }

  /** One turn of the scan: the first largest battery of the window extends the
      choice, and the accumulator follows it. */
  lemma Advance(bank: string, w: nat, picks: seq<nat>, m: nat, joltage: nat)
    requires Bank(bank) && IsChoice(bank, 0, w, picks)
    requires IsFirstMax(bank, if |picks| == 0 then 0 else picks[|picks| - 1] + 1, w + |picks|, m)
    requires joltage == Wrap64(Number(Selected(bank, picks)))
    ensures IsChoice(bank, 0, w, picks + [m])
    ensures Wrap64(joltage * 10 + Joltage(bank[m])) == Wrap64(Number(Selected(bank, picks + [m])))
  {
    JoltageStep(bank, picks, m, joltage);
    ChoiceAppend(bank, 0, w, picks, m);
  }

  /** One turn of the accumulator: wrapping after each digit wraps the whole. */
  lemma JoltageStep(bank: string, picks: seq<nat>, m: nat, joltage: nat)
    requires Bank(bank) && m < |bank| && forall i :: 0 <= i < |picks| ==> picks[i] < |bank|
    requires joltage == Wrap64(Number(Selected(bank, picks)))
    ensures Wrap64(joltage * 10 + Joltage(bank[m])) == Wrap64(Number(Selected(bank, picks + [m])))
  {
    WrapStep(Number(Selected(bank, picks)), Joltage(bank[m]));
    SelectedAppend(bank, picks, m);
    NumberAppend(Selected(bank, picks), bank[m]);
  }

  /** With at most nineteen batteries the joltage fits in a u64, so it is exactly the
      greedy value, which is the best one. */
  lemma ChoiceJoltage(bank: string, bakSize: nat, needed: nat, picks: seq<nat>, joltage: nat)
    requires Bank(bank) && needed <= bakSize <= |bank| && needed <= 19
    requires |picks| == needed && IsChoice(bank, 0, bakSize - needed + 1, picks)
    requires joltage == Wrap64(Number(Selected(bank, picks)))
    ensures joltage == Number(Selected(bank, picks)) < Pow10(needed)
    ensures Best(bank, needed, bakSize, joltage)
  {
    NumberBound(Selected(bank, picks));
    Pow10Table();
    Pow10Monotone(needed, 19);
    ChoiceIsBest(bank, bakSize, needed, picks);
  }

  /** Extending a choice by the first largest battery of the next window. */
  lemma ChoiceAppend(bank: string, lo: nat, hi: nat, r: seq<nat>, m: nat)
    requires IsChoice(bank, lo, hi, r)
    requires IsFirstMax(bank, if |r| == 0 then lo else r[|r| - 1] + 1, hi + |r|, m)
    ensures IsChoice(bank, lo, hi, r + [m])
  {
    var t := r + [m];
    forall i | 0 <= i < |t|
      ensures PickedAt(bank, t, lo, hi, i)
    {
      if i < |r| {
        assert PickedAt(bank, r, lo, hi, i);
        assert t[i] == r[i] && (i > 0 ==> t[i - 1] == r[i - 1]);
      }
    }
  }

  /** j is the largest joltage of any selection of `needed` batteries among the
      first bakSize, and some selection gives it. */
  ghost predicate Best(bank: string, needed: nat, bakSize: nat, j: nat)
    requires Bank(bank) && bakSize <= |bank|
  {
    (exists idx :: Selection(idx, needed, bakSize) && Number(Selected(bank, idx)) == j)
    && forall idx :: Selection(idx, needed, bakSize) ==> Number(Selected(bank, idx)) <= j
  }

  /** The greedy choice is the best selection. */
  lemma ChoiceIsBest(bank: string, bakSize: nat, needed: nat, r: seq<nat>)
    requires Bank(bank) && needed <= bakSize <= |bank|
    requires |r| == needed && IsChoice(bank, 0, bakSize - needed + 1, r)
    ensures Best(bank, needed, bakSize, Number(Selected(bank, r)))
  {
    ChoiceShape(bank, 0, bakSize - needed + 1, r);
    assert Selection(r, needed, bakSize);
    forall idx | Selection(idx, needed, bakSize)
      ensures Number(Selected(bank, idx)) <= Number(Selected(bank, r))
    {
      GreedyIsBest(bank, 0, bakSize - needed + 1, r, idx);
    }
  }

  /** No increasing choice of as many batteries, starting at lo or later and ending
      before the last window's end, reads larger than the greedy one. */
  lemma {:induction false} GreedyIsBest(bank: string, lo: nat, hi: nat, r: seq<nat>, idx: seq<nat>)
    requires Bank(bank) && IsChoice(bank, lo, hi, r) && hi + |r| <= |bank| + 1
    requires |idx| == |r| && Increasing(idx)
    requires forall i :: 0 <= i < |idx| ==> lo <= idx[i] < hi + |r| - 1
    ensures Number(Selected(bank, idx)) <= Number(Selected(bank, r))
    decreases |r|
  {
    if |r| > 0 {
      assert PickedAt(bank, r, lo, hi, 0);
      var m := r[0];
      var rest := r[1..];
      var a := idx[0];
      var tail := idx[1..];
      Spread(idx, |r| - 1);
      Compared(bank, lo, hi, m, a);
      if bank[a] < bank[m] {
        SmallerHead(bank, idx, r);
      } else {
        ChoiceTail(bank, lo, hi, r);
        TailOf(idx, m, hi + |r| - 1);
        GreedyIsBest(bank, m + 1, hi + 1, rest, tail);
        SameHead(bank, idx, r);
      }
    }
  }

  /** Of two selections of as many batteries, the one with the smaller first battery
      reads smaller. */
  lemma SmallerHead(bank: string, idx: seq<nat>, r: seq<nat>)
    requires Bank(bank) && |idx| == |r| >= 1
    requires forall i :: 0 <= i < |idx| ==> idx[i] < |bank| && r[i] < |bank|
    requires bank[idx[0]] < bank[r[0]]
    ensures Number(Selected(bank, idx)) <= Number(Selected(bank, r))
  {
    var n := |r| - 1;
    var x := Number(Selected(bank, idx[1..]));
    var y := Number(Selected(bank, r[1..]));
    LeadingDigit(bank, idx, n);
    LeadingDigit(bank, r, n);
    NumberBound(Selected(bank, idx[1..]));
    HeadDecides(Joltage(bank[idx[0]]), Joltage(bank[r[0]]), x, y, n);
  }

  /** With the same first battery, the rest decides. */
  lemma SameHead(bank: string, idx: seq<nat>, r: seq<nat>)
    requires Bank(bank) && |idx| == |r| >= 1
    requires forall i :: 0 <= i < |idx| ==> idx[i] < |bank| && r[i] < |bank|
    requires bank[idx[0]] == bank[r[0]]
    requires Number(Selected(bank, idx[1..])) <= Number(Selected(bank, r[1..]))
    ensures Number(Selected(bank, idx)) <= Number(Selected(bank, r))
  {
    LeadingDigit(bank, idx, |r| - 1);
    LeadingDigit(bank, r, |r| - 1);
  }

  /** What is left of an increasing choice after its first index, which is at least m. */
  lemma TailOf(idx: seq<nat>, m: nat, bound: nat)
    requires |idx| >= 1 && Increasing(idx) && idx[0] >= m
    requires forall i :: 0 <= i < |idx| ==> idx[i] < bound
    ensures Increasing(idx[1..])
    ensures forall i :: 0 <= i < |idx| - 1 ==> m + 1 <= idx[1..][i] < bound
  {
    var t := idx[1..];
    forall i | 0 <= i < |t|
      ensures m + 1 <= t[i] < bound
    {
      assert t[i] == idx[i + 1] && idx[0] < idx[i + 1];
    }
    forall i, j | 0 <= i < j < |t|
      ensures t[i] < t[j]
    {
      assert t[i] == idx[i + 1] && t[j] == idx[j + 1];
    }
  }

  /** The batteries at idx read as the first one's joltage in front of the rest. */
  lemma LeadingDigit(bank: string, idx: seq<nat>, n: nat)
    requires Bank(bank) && |idx| == n + 1 && forall i :: 0 <= i < |idx| ==> idx[i] < |bank|
    ensures Number(Selected(bank, idx))
            == Joltage(bank[idx[0]]) * Pow10(n) + Number(Selected(bank, idx[1..]))
  {
    assert idx == [idx[0]] + idx[1..];
    SelectedCons(bank, idx[0], idx[1..]);
    NumberCons(bank[idx[0]], Selected(bank, idx[1..]));
  }

  /** In an increasing sequence the i-th index is at least i past the first. */
  lemma {:induction false} Spread(idx: seq<nat>, i: nat)
    requires Increasing(idx) && i < |idx|
    ensures idx[i] >= idx[0] + i
  {
    if i > 0 {
      Spread(idx, i - 1);
    }
  }

  /** A smaller leading digit makes a smaller number of the same length. */
  lemma HeadDecides(a: nat, b: nat, x: nat, y: nat, n: nat)
    requires a < b && x < Pow10(n)
    ensures a * Pow10(n) + x <= b * Pow10(n) + y
  {
    MulMono2(a + 1, b, Pow10(n));
    MulSucc(a, Pow10(n));
  }

  lemma SelectedAppend(bank: string, idx: seq<nat>, k: nat)
    requires k < |bank| && forall i :: 0 <= i < |idx| ==> idx[i] < |bank|
    ensures Selected(bank, idx + [k]) == Selected(bank, idx) + [bank[k]]
  {
  }

  lemma NumberAppend(s: string, c: char)
    requires Bank(s) && IsDigit(c)
    ensures Number(s + [c]) == Number(s) * 10 + Joltage(c)
  {
    assert (s + [c])[..|s|] == s;
  }

  lemma SelectedCons(bank: string, k: nat, idx: seq<nat>)
    requires k < |bank| && forall i :: 0 <= i < |idx| ==> idx[i] < |bank|
    ensures Selected(bank, [k] + idx) == [bank[k]] + Selected(bank, idx)
  {
  }

  /** Reading a leading digit: its joltage times ten to the number of digits after. */
  lemma {:induction false} NumberCons(c: char, s: string)
    requires IsDigit(c) && Bank(s)
    ensures Number([c] + s) == Joltage(c) * Pow10(|s|) + Number(s)
    decreases |s|
  {
    if s != [] {
      var t := [c] + s;
      var init := s[..|s| - 1];
      assert t[..|t| - 1] == [c] + init;
      NumberCons(c, init);
      Shift10(Joltage(c), Pow10(|init|), Number(init));
    }
  }

  lemma Shift10(a: nat, p: nat, x: nat)
    ensures (a * p + x) * 10 == a * (10 * p) + x * 10
  {
  }

  /** A string of n digits reads below 10^n (the joltage has `needed` digits). */
  lemma {:induction false} NumberBound(s: string)
    requires Bank(s)
    ensures Number(s) < Pow10(|s|)
    decreases |s|
  {
    if s != [] {
      var init := s[..|s| - 1];
      NumberBound(init);
      MulMono2(Number(init), Pow10(|init|) - 1, 10);
    }
  }

  /** Wrapping the accumulator at each step wraps the final value. */
  lemma WrapStep(a: nat, d: nat)
    ensures Wrap64(Wrap64(a) * 10 + d) == Wrap64(a * 10 + d)
  {
    var q := a / TWO_64;
    var w := a % TWO_64;
    assert a == TWO_64 * q + w;
    Distrib(TWO_64 * q, w, 10);
    MulAssoc(TWO_64, q, 10);
    var x := w * 10 + d;
    DivModUnique(a * 10 + d, TWO_64, q * 10 + x / TWO_64, x % TWO_64);
  }
}
