/** Reactor safety reports (2024/02): a report is safe when its levels all rise or
    all fall, by one to three at each step; the dampener tolerates one bad level. */
module Reports {
  import opened Common

  /** The step after level k rises by one to three. */
  predicate Up(s: seq<int>, k: nat)
    requires k + 1 < |s|
  {
    1 <= s[k + 1] - s[k] <= 3
  }

  /** The step after level k falls by one to three. */
  predicate Down(s: seq<int>, k: nat)
    requires k + 1 < |s|
  {
    1 <= s[k] - s[k + 1] <= 3
  }

  /** Every step among the first n levels rises by one to three. */
  predicate Rising(s: seq<int>, n: nat)
    requires n <= |s|
  {
    forall k :: 0 <= k < n - 1 ==> Up(s, k)
  }

  /** Every step among the first n levels falls by one to three. */
  predicate Falling(s: seq<int>, n: nat)
    requires n <= |s|
  {
    forall k :: 0 <= k < n - 1 ==> Down(s, k)
  }

  /** The puzzle's notion of a safe report. */
  predicate Safe(s: seq<int>) {
    Rising(s, |s|) || Falling(s, |s|)
  }

  /** The report with the level at index skip taken out; an index past the end takes
      nothing out (the source's default skip is the largest u32). */
  function Remove(r: seq<int>, skip: nat): (s: seq<int>)
    ensures |s| == if skip < |r| then |r| - 1 else |r|
  {
    if skip < |r| then r[..skip] + r[skip + 1..] else r
  }

  /** The default skip: the largest u32. */
  const NO_SKIP: nat := TWO_32 - 1

  /** The index in the report of the j-th level that is kept. */
  function Idx(skip: nat, j: nat): nat {
    if j < skip then j else j + 1
  }

  /** The kept levels are the report's levels at Idx. */
  lemma RemoveAt(r: seq<int>, skip: nat, j: nat)
    requires j < |Remove(r, skip)|
    ensures Idx(skip, j) < |r| && Remove(r, skip)[j] == r[Idx(skip, j)]
  {
  }

  /** Idx runs past the end of the report exactly when j runs past the kept levels. */
  lemma IdxBound(r: seq<int>, skip: nat, j: nat)
    requires j <= |Remove(r, skip)|
    ensures Idx(skip, j) < |r| <==> j < |Remove(r, skip)|
  {
  }

  /** The source's step i += skip == i + 1 ? 2 : 1 moves to the next kept level. */
  lemma IdxNext(skip: nat, j: nat)
    ensures Idx(skip, j) + (if skip == Idx(skip, j) + 1 then 2 else 1) == Idx(skip, j + 1)
  {
  }

  /** The first n levels rise, or fall, by one to three at every step. */
  predicate Run(s: seq<int>, n: nat, up: bool)
    requires n <= |s|
  {
    if up then Rising(s, n) else Falling(s, n)
  }

  /** One more good step extends a run. */
  lemma Extend(s: seq<int>, j: nat, up: bool)
    requires 1 <= j < |s| && Run(s, j, up)
    requires if up then 1 <= s[j] - s[j - 1] <= 3 else 1 <= s[j - 1] - s[j] <= 3
    ensures Run(s, j + 1, up)
  {
  }

  /** A step that does not go the first step's way by one to three makes the report
      unsafe. */
  lemma BreakAt(s: seq<int>, j: nat)
    requires 1 <= j < |s|
    requires !(1 <= s[j] - s[j - 1] <= 3 && s[1] - s[0] > 0) && !(1 <= s[j - 1] - s[j] <= 3 && s[1] - s[0] < 0)
    ensures !Safe(s)
  {
    StepOf(s, 0);
    StepOf(s, j - 1);
  }

  /** What a rising or falling report says about one of its steps. */
  lemma StepOf(s: seq<int>, k: nat)
    requires k < |s| - 1
    ensures Rising(s, |s|) ==> 1 <= s[k + 1] - s[k] <= 3
    ensures Falling(s, |s|) ==> 1 <= s[k] - s[k + 1] <= 3
  {
    if Rising(s, |s|) {
      assert Up(s, k);
    }
    if Falling(s, |s|) {
      assert Down(s, k);
    }
  }

  /** IsSafe(report, skip): the check of the report with index skip left out, done in
      place by walking two indices prev and i over the report and jumping over skip. */
  method IsSafe(report: seq<int>, skip: nat) returns (safe: bool)
    requires |report| >= if skip <= 1 then 3 else 2
    ensures safe == Safe(Remove(report, skip))
  {
    ghost var s := Remove(report, skip);
    RemoveAt(report, skip, 0);
    RemoveAt(report, skip, 1);
    var initDelta := report[if skip <= 1 then 2 else 1] - report[if skip == 0 then 1 else 0];
    if initDelta == 0 || initDelta > 3 || initDelta < -3 {
      BreakAt(s, 1);
      return false;
    }
    ghost var up := initDelta > 0;
    var prev: nat := if skip <= 1 then 2 else 1;
    var i: nat := if skip <= 2 then 3 else 2;
    ghost var j: nat := 2;
    IdxBound(report, skip, 2);
    while i < |report|
      invariant 2 <= j <= |s|
      invariant i == Idx(skip, j) && prev == Idx(skip, j - 1)
      invariant Run(s, j, up)
      decreases |s| - j
    {
      IdxBound(report, skip, j);
      RemoveAt(report, skip, j);
      RemoveAt(report, skip, j - 1);
      var delta := report[i] - report[prev];
      if delta != 0 {
        ProductSign(initDelta, delta);
      }
      if delta == 0 || delta > 3 || delta < -3 || initDelta * delta < 0 {
        BreakAt(s, j);
        return false;
      }
      Extend(s, j, up);
      IdxNext(skip, j);
      prev := i;
      i := i + if skip == i + 1 then 2 else 1;
      j := j + 1;
    }
    IdxBound(report, skip, j);
    return true;
  }

  /** IsSafe of source/2024/02: the plain check on a whole report, on which the
      dampener runs it with one level erased. None where report.at throws (fewer than
      two levels). */
  method IsSafeWhole(report: seq<int>) returns (safe: Option<bool>)
    ensures safe.None? <==> |report| < 2
    ensures safe.Some? ==> safe.value == Safe(report)
  {
    if |report| < 2 {
      return None;
    }
    var initDelta := report[1] - report[0];
    if initDelta == 0 || initDelta > 3 || initDelta < -3 {
      BreakAt(report, 1);
      return Some(false);
    }
    var i := 2;
    while i < |report|
      invariant 2 <= i <= |report|
      invariant Run(report, i, initDelta > 0)
    {
      var delta := report[i] - report[i - 1];
      if delta != 0 {
        ProductSign(initDelta, delta);
      }
      if delta == 0 || delta > 3 || delta < -3 || initDelta * delta < 0 {
        BreakAt(report, i);
        return Some(false);
      }
      Extend(report, i, initDelta > 0);
      i := i + 1;
    }
    return Some(true);
  }

  /** The dampened check of one report: safe as it is, or safe with one level taken
      out, trying the levels in order. */
  method Dampened(report: seq<int>) returns (safe: bool)
    requires 3 <= |report| < TWO_32
    ensures safe <==> Safe(report) || exists f :: 0 <= f < |report| && Safe(Remove(report, f))
  {
    safe := IsSafe(report, NO_SKIP);
    if safe {
      return;
    }
    var f := 0;
    while f < |report|
      invariant 0 <= f <= |report|
      invariant forall g :: 0 <= g < f ==> !Safe(Remove(report, g))
    {
      safe := IsSafe(report, f);
      if safe {
        return;
      }
      f := f + 1;
    }
  }

  /** The erase-based dampener of source/2024/02: the plain check on the report, and
      then on each copy with one level erased, in order. None where report.at throws:
      fewer than two levels, or an unsafe pair, whose copies have one level. */
  method DampenedByErase(report: seq<int>) returns (safe: Option<bool>)
    ensures safe.None? <==> |report| < 2 || (|report| == 2 && !Safe(report))
    ensures safe.Some? ==>
      (safe.value <==> Safe(report) || exists f :: 0 <= f < |report| && Safe(Remove(report, f)))
  {
    var whole := IsSafeWhole(report);
    if whole.None? {
      return None;
    }
    if whole.value {
      return Some(true);
    }
    var f := 0;
    while f < |report|
      invariant 0 <= f <= |report|
      invariant |report| == 2 ==> f == 0
      invariant !FixableBelow(report, f)
    {
      var s := SafeErased(report, f);
      if s.None? {
        return None;
      }
      if s.value {
        return Some(true);
      }
      f := f + 1;
    }
    FixableBelowExists(report, |report|);
    return Some(false);
  }

  /** Erasing one of the first n levels makes the report safe. */
  predicate FixableBelow(report: seq<int>, n: nat)
    requires n <= |report|
  {
    n > 0 && (FixableBelow(report, n - 1) || Safe(Remove(report, n - 1)))
  }

  lemma {:induction false} FixableBelowExists(report: seq<int>, n: nat)
    requires n <= |report|
    ensures FixableBelow(report, n) <==> exists f :: 0 <= f < n && Safe(Remove(report, f))
  {
    if n > 0 {
      FixableBelowExists(report, n - 1);
      if exists f :: 0 <= f < n && Safe(Remove(report, f)) {
        var f :| 0 <= f < n && Safe(Remove(report, f));
        assert FixableBelow(report, n) by {
          if f < n - 1 {
            assert FixableBelow(report, n - 1);
          }
        }
      }
      if FixableBelow(report, n) && !Safe(Remove(report, n - 1)) {
        var f :| 0 <= f < n - 1 && Safe(Remove(report, f));
        assert 0 <= f < n;
      }
    }
  }

  /** One copy of the report with the level at f erased, checked. */
  method SafeErased(report: seq<int>, f: nat) returns (safe: Option<bool>)
    requires f < |report|
    ensures safe.None? <==> |report| < 3
    ensures safe.Some? ==> safe.value == Safe(Remove(report, f))
  {
    var fixed := report[..f] + report[f + 1..];
    safe := IsSafeWhole(fixed);
  }

  /** The level at index skip is never read: two reports that differ only there
      give the same report once it is taken out. */
  lemma SkipNotRead(r: seq<int>, r': seq<int>, skip: nat)
    requires |r| == |r'| && skip < |r|
    requires forall k :: 0 <= k < |r| && k != skip ==> r[k] == r'[k]
    ensures Remove(r, skip) == Remove(r', skip)
  {
    var s, s' := Remove(r, skip), Remove(r', skip);
    forall j | 0 <= j < |s|
      ensures s[j] == s'[j]
    {
      RemoveAt(r, skip, j);
      RemoveAt(r', skip, j);
    }
  }

  /** A safe report stays safe without its first level, so the dampened count is the
      number of reports with some level whose removal makes them safe. */
  lemma SafeWithoutFirst(r: seq<int>)
    requires |r| >= 1 && Safe(r)
    ensures Safe(Remove(r, 0))
  {
    var s := Remove(r, 0);
    assert forall k :: 0 <= k < |s| ==> s[k] == r[k + 1];
    if Rising(r, |r|) {
      forall k | 0 <= k < |s| - 1
        ensures Up(s, k)
      {
        assert Up(r, k + 1);
      }
    } else {
      forall k | 0 <= k < |s| - 1
        ensures Down(s, k)
      {
        assert Down(r, k + 1);
      }
    }
  }

  /** Safety is the sign test the source makes: every step is nonzero, at most three
      in size and of the first step's sign. */
  lemma SafeIsSignTest(s: seq<int>)
    requires |s| >= 2
    ensures Safe(s) <==> forall k :: 0 <= k < |s| - 1 ==>
      (s[k + 1] - s[k] != 0 && -3 <= s[k + 1] - s[k] <= 3 && (s[1] - s[0]) * (s[k + 1] - s[k]) > 0)
  {
    var d0 := s[1] - s[0];
    if Safe(s) {
      forall k | 0 <= k < |s| - 1
        ensures s[k + 1] - s[k] != 0 && -3 <= s[k + 1] - s[k] <= 3 && d0 * (s[k + 1] - s[k]) > 0
      {
        if Rising(s, |s|) {
          assert Up(s, 0) && Up(s, k);
        } else {
          assert Down(s, 0) && Down(s, k);
        }
        ProductSign(d0, s[k + 1] - s[k]);
      }
    } else if d0 != 0 {
      var k :| 0 <= k < |s| - 1 && (if d0 > 0 then !Up(s, k) else !Down(s, k));
      if s[k + 1] - s[k] != 0 {
        ProductSign(d0, s[k + 1] - s[k]);
      }
    }
  }

  /** The sign of a product of nonzero factors. */
  lemma ProductSign(a: int, b: int)
    requires a != 0 && b != 0
    ensures a * b > 0 <==> (a > 0 <==> b > 0)
    ensures a * b < 0 <==> (a > 0 <==> b < 0)
  {
    if a > 0 && b > 0 {
      MulPositive(a, b);
    } else if a > 0 {
      MulPositive(a, -b);
      assert a * (-b) == -(a * b);
    } else if b > 0 {
      MulPositive(-a, b);
      assert (-a) * b == -(a * b);
    } else {
      MulPositive(-a, -b);
      assert (-a) * (-b) == a * b;
    }
  }

  lemma MulPositive(a: int, b: int)
    requires a > 0 && b > 0
    ensures a * b > 0
  {
  }
}
