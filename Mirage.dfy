/** The difference tables of 2023/09: a history, its successive differences down
    to a row of zeros, and the value each row gains at its back and at its front. */
module Mirage {

  /** The differences of neighbouring values (GetNextSequence's result). */
  function Diff(s: seq<int>): seq<int>
    requires |s| >= 1
  {
    seq(|s| - 1, i requires 0 <= i < |s| - 1 => s[i + 1] - s[i])
  }

  /** The running sums of d starting at x: undoes Diff. */
  function Undiff(x: int, d: seq<int>): (r: seq<int>)
    ensures |r| == |d| + 1 && r[0] == x
    decreases |d|
  {
    if d == [] then [x] else [x] + Undiff(x + d[0], d[1..])
  }

  /** A history is known from its first value and its differences. */
  lemma {:induction false} UndiffDiff(s: seq<int>)
    requires |s| >= 1
    ensures Undiff(s[0], Diff(s)) == s
    decreases |s|
  {
    if |s| > 1 {
      UndiffDiff(s[1..]);
      assert Diff(s)[1..] == Diff(s[1..]);
      assert s[0] + Diff(s)[0] == s[1];
      assert s == [s[0]] + s[1..];
    }
  }

  /** And differences of running sums give the steps back. */
  lemma {:induction false} DiffUndiff(x: int, d: seq<int>)
    ensures Diff(Undiff(x, d)) == d
    decreases |d|
  {
    if d != [] {
      DiffUndiff(x + d[0], d[1..]);
      var u := Undiff(x, d);
      assert u[1..] == Undiff(x + d[0], d[1..]);
      assert Diff(u)[1..] == Diff(u[1..]);
      assert d == [d[0]] + d[1..];
    }
  }

  predicate AllZero(s: seq<int>) {
    forall i :: 0 <= i < |s| ==> s[i] == 0
  }

  /** The forward extrapolation: the value the table adds at the back of s. */
  function Next(s: seq<int>): int
    decreases |s|
  {
    if AllZero(s) then 0 else s[|s| - 1] + Next(Diff(s))
  }

  /** The backward extrapolation: the value the table adds at the front of s. */
  function Prev(s: seq<int>): int
    decreases |s|
  {
    if AllZero(s) then 0 else s[0] - Prev(Diff(s))
  }

  /** Appending x to s appends the step from s's last value to x. */
  lemma DiffSnoc(s: seq<int>, x: int)
    requires |s| >= 1
    ensures Diff(s + [x]) == Diff(s) + [x - s[|s| - 1]]
  {
    var u, w := s + [x], Diff(s) + [x - s[|s| - 1]];
    forall i | 0 <= i < |s|
      ensures Diff(u)[i] == w[i]
    {
      if i < |s| - 1 {
        assert u[i + 1] == s[i + 1] && u[i] == s[i];
      }
    }
  }

  /** Prepending x to s prepends the step from x to s's first value. */
  lemma DiffCons(x: int, s: seq<int>)
    requires |s| >= 1
    ensures Diff([x] + s) == [s[0] - x] + Diff(s)
  {
    var u, w := [x] + s, [s[0] - x] + Diff(s);
    forall i | 0 <= i < |s|
      ensures Diff(u)[i] == w[i]
    {
      if i > 0 {
        assert u[i + 1] == s[i] && u[i] == s[i - 1];
      }
    }
  }

  /** The extrapolated value continues the difference table: appending it to s
      appends the next row's extrapolated value to the differences. */
  lemma NextExtends(s: seq<int>)
    requires |s| >= 1 && !AllZero(s)
    ensures Diff(s + [Next(s)]) == Diff(s) + [Next(Diff(s))]
  {
    DiffSnoc(s, Next(s));
  }

  /** And the backward value prepends the next row's backward value. */
  lemma PrevExtends(s: seq<int>)
    requires |s| >= 1 && !AllZero(s)
    ensures Diff([Prev(s)] + s) == [Prev(Diff(s))] + Diff(s)
  {
    DiffCons(Prev(s), s);
  }

  /** A constant history extrapolates to the same constant in both directions. */
  lemma ConstantExtrapolates(s: seq<int>, c: int)
    requires |s| >= 1 && forall i :: 0 <= i < |s| ==> s[i] == c
    ensures Next(s) == c && Prev(s) == c
  {
    if c != 0 {
      assert s[0] != 0;
      assert AllZero(Diff(s));
    }
  }

  function Reverse(s: seq<int>): seq<int> {
    seq(|s|, i requires 0 <= i < |s| => s[|s| - 1 - i])
  }

  function Negate(s: seq<int>): seq<int> {
    seq(|s|, i requires 0 <= i < |s| => -s[i])
  }

  lemma {:induction false} NextNegate(s: seq<int>)
    ensures Next(Negate(s)) == -Next(s)
    decreases |s|
  {
    if !AllZero(s) {
      var k :| 0 <= k < |s| && s[k] != 0;
      assert Negate(s)[k] != 0;
      assert Diff(Negate(s)) == Negate(Diff(s));
      NextNegate(Diff(s));
    }
  }

  /** Extrapolating backward is extrapolating the reversed history forward. */
  lemma {:induction false} PrevIsNextReversed(s: seq<int>)
    ensures Prev(s) == Next(Reverse(s))
    decreases |s|
  {
    if !AllZero(s) {
      var k :| 0 <= k < |s| && s[k] != 0;
      assert Reverse(s)[|s| - 1 - k] != 0;
      assert Diff(Reverse(s)) == Negate(Reverse(Diff(s)));
      PrevIsNextReversed(Diff(s));
      NextNegate(Reverse(Diff(s)));
    }
  }

  /** GetNextSequence: one value fewer, each the step between two neighbours. */
  method GetNextSequence(sequence: seq<int>) returns (result: seq<int>)
    requires |sequence| >= 1
    ensures |result| == |sequence| - 1
    ensures forall i :: 0 <= i < |result| ==> result[i] == sequence[i + 1] - sequence[i]
    ensures Undiff(sequence[0], result) == sequence
  {
    result := [];
    for i := 0 to |sequence| - 1
      invariant result == Diff(sequence)[..i]
    {
      assert Diff(sequence)[..i + 1] == Diff(sequence)[..i] + [sequence[i + 1] - sequence[i]];
      result := result + [sequence[i + 1] - sequence[i]];
    }
    assert Diff(sequence)[..|sequence| - 1] == Diff(sequence);
    UndiffDiff(sequence);
  }

  /** The difference table of h: h itself, each row the differences of the one
      above, every row but the last with a non-zero value, the last all zeros. */
  ghost predicate IsTable(h: seq<int>, t: seq<seq<int>>) {
    |t| >= 1 && t[0] == h && AllZero(t[|t| - 1]) && Chain(t)
  }

  /** Row k + 1 is the differences of row k, which has a non-zero value. */
  ghost predicate ChainAt(t: seq<seq<int>>, k: int)
    requires 0 <= k < |t| - 1
  {
    |t[k]| >= 1 && !AllZero(t[k]) && t[k + 1] == Diff(t[k])
  }

  ghost predicate Chain(t: seq<seq<int>>) {
    forall k :: 0 <= k < |t| - 1 ==> ChainAt(t, k)
  }

  lemma ChainSnoc(t: seq<seq<int>>, next: seq<int>)
    requires |t| >= 1 && Chain(t)
    requires |t[|t| - 1]| >= 1 && !AllZero(t[|t| - 1]) && next == Diff(t[|t| - 1])
    ensures Chain(t + [next])
  {
    var u := t + [next];
    forall k | 0 <= k < |u| - 1
      ensures ChainAt(u, k)
    {
      if k < |t| - 1 {
        assert ChainAt(t, k);
        assert u[k] == t[k] && u[k + 1] == t[k + 1];
      }
    }
  }

  /** solve's while loop: the table of a history, each row computed from the one
      above until a row holds only zeros. */
  method BuildTable(history: seq<int>) returns (sequences: seq<seq<int>>)
    ensures IsTable(history, sequences)
  {
    sequences := [history];
    var last := history;
    while !AllZero(last)
      invariant |sequences| >= 1 && sequences[0] == history && last == sequences[|sequences| - 1]
      invariant Chain(sequences)
      decreases |last|
    {
      var next := GetNextSequence(last);
      assert next == Diff(last);
      ChainSnoc(sequences, next);
      sequences := sequences + [next];
      last := next;
    }
  }

  /** The row below row k, once extended, ends in that row's forward value and
      starts with its backward value; row k's own values follow from them. */
  lemma RowBelow(t: seq<seq<int>>, h: seq<int>, k: int, below: seq<int>)
    requires IsTable(h, t) && 0 <= k < |t| - 1
    requires k + 1 == |t| - 1 ==> below == t[k + 1] + [0]
    requires k + 1 < |t| - 1 ==> below == [Prev(t[k + 1])] + t[k + 1] + [Next(t[k + 1])]
    ensures |below| >= 1 && below[|below| - 1] == Next(t[k + 1]) && below[0] == Prev(t[k + 1])
    ensures |t[k]| >= 1
    ensures Next(t[k]) == t[k][|t[k]| - 1] + Next(t[k + 1])
    ensures Prev(t[k]) == t[k][0] - Prev(t[k + 1])
  {
    assert ChainAt(t, k);
    if k + 1 == |t| - 1 {
      assert AllZero(t[k + 1]);
      if |t[k + 1]| > 0 {
        assert below[0] == t[k + 1][0];
      }
    }
  }

  /** One history (the body of solve's loop over histories): its table, then its
      forward and backward values. The last row gains a 0 at its back, and each
      row above, from the bottom up, gains its back plus the back of the row below
      at its back and its front minus the front of the row below at its front. */
  method ExtrapolateHistory(history: seq<int>) returns (forward: int, backward: int)
    ensures forward == Next(history) && backward == Prev(history)
  {
    var sequences := BuildTable(history);
    ghost var t := sequences;
    var n := |sequences|;
    sequences := sequences[n - 1 := sequences[n - 1] + [0]];
    var i := n - 2;
    while i >= 0
      invariant -1 <= i <= n - 2 && |sequences| == n
      invariant forall k :: 0 <= k <= i ==> sequences[k] == t[k]
      invariant forall k :: i < k < n - 1 ==> sequences[k] == [Prev(t[k])] + t[k] + [Next(t[k])]
      invariant sequences[n - 1] == t[n - 1] + [0]
    {
      var row := sequences[i];
      var below := sequences[i + 1];
      RowBelow(t, history, i, below);
      row := row + [row[|row| - 1] + below[|below| - 1]];
      row := [row[0] - below[0]] + row;
      sequences := sequences[i := row];
      i := i - 1;
    }
    var top := sequences[0];
    if n == 1 {
      assert AllZero(history);
      forward, backward := top[|top| - 1], top[0];
    } else {
      RowBelow(t, history, 0, sequences[1]);
      forward, backward := top[|top| - 1], top[0];
    }
  }
}
