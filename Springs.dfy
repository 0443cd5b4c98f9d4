/** Counting the arrangements of damaged springs (2023/12). */
module Springs {
  import opened Common

  /** Counts of contiguous damaged springs, in order. */
  type Groups = seq<nat>

  predicate NoDot(s: string) {
    forall k :: 0 <= k < |s| ==> s[k] != '.'
  }

  predicate NoHash(s: string) {
    forall k :: 0 <= k < |s| ==> s[k] != '#'
  }

  /** Whether a group of g damaged springs can start the pattern: g cells that may
      be damaged, then the end of the pattern or a cell that may be operational. */
  predicate FitsAtStart(p: string, g: nat) {
    |p| >= g && NoDot(p[..g]) && (|p| == g || p[g] != '#')
  }

  /** MatchGroupAtStart: 0 when the group cannot start the pattern, otherwise the
      number of cells it uses, the separating cell included when there is one. */
  function MatchGroupAtStart(p: string, g: nat): (r: nat)
    ensures r == 0 || r == g || r == g + 1
    ensures r <= |p|
    ensures !FitsAtStart(p, g) ==> r == 0
    ensures FitsAtStart(p, g) ==> r == if |p| > g then g + 1 else g
    ensures |p| < g ==> r == 0
    ensures |p| >= g && !NoDot(p[..g]) ==> r == 0
    ensures |p| > g && p[g] == '#' ==> r == 0
  {
    if |p| < g then 0
    else if !NoDot(p[..g]) then 0
    else if |p| > g && p[g] == '#' then 0
    else if |p| > g then g + 1
    else g
  }

  /** string_view::find('#'): the index of the first '#'. */
  function FirstHash(s: string): (r: Option<nat>)
    ensures r.Some? ==> r.value < |s| && s[r.value] == '#' && NoHash(s[..r.value])
    ensures r.None? ==> NoHash(s)
    decreases |s|
  {
    if s == [] then None
    else if s[0] == '#' then Some(0)
    else
      match FirstHash(s[1..])
      case None => None
      case Some(i) =>
        assert s[..i + 1] == [s[0]] + s[1..][..i];
        Some(i + 1)
  }

  /** The last start index the loop of CountMatches tries: the group has to fit in
      the pattern, and it cannot start after the first '#'. */
  function Latest(p: string, g: nat): (r: nat)
    requires |p| >= g
    ensures r <= |p| - g
    ensures NoHash(p[..r])
  {
    match FirstHash(p[..|p| - g])
    case Some(f) =>
      assert p[..|p| - g][..f] == p[..f];
      f
    case None =>
      assert p[..|p| - g][..|p| - g] == p[..|p| - g];
      |p| - g
  }

  /** The number of arrangements of the groups in the pattern, as CountMatches
      computes it without its cache. */
  function CountSpec(p: string, gs: Groups): nat
    decreases |gs|, 1, 0
  {
    if gs == [] then (if NoHash(p) then 1 else 0)
    else if p == [] then 0
    else if |p| < gs[0] then 0
    else SumFrom(p, gs, 0, Latest(p, gs[0]))
  }

  /** The loop of CountMatches: the counts for the first group starting at each of
      the indices i .. latest. */
  function SumFrom(p: string, gs: Groups, i: nat, latest: nat): nat
    requires gs != [] && latest <= |p|
    decreases |gs|, 0, latest + 1 - i
  {
    if i > latest then 0
    else
      var m := MatchGroupAtStart(p[i..], gs[0]);
      (if m == 0 then 0 else CountSpec(p[i + m..], gs[1..])) + SumFrom(p, gs, i + 1, latest)
  }

  /** One step of the loop: the index i contributes, then the rest. */
  lemma SumFromStep(p: string, gs: Groups, i: nat, latest: nat)
    requires gs != [] && i <= latest <= |p|
    ensures var m := MatchGroupAtStart(p[i..], gs[0]);
      SumFrom(p, gs, i, latest)
        == (if m == 0 then 0 else CountSpec(p[i + m..], gs[1..])) + SumFrom(p, gs, i + 1, latest)
  {
  }

  type Cache = map<(string, Groups), nat>

  /** Every cached count is the uncached count for its key. */
  predicate CacheSound(cache: Cache) {
    forall key :: key in cache ==> cache[key] == CountSpec(key.0, key.1)
  }

  /** CountMatches: the arrangement count, through the cache. The cache is passed by
      reference in the source; here it goes in and comes back out. */
  method CountMatches(pattern: string, groups: Groups, cache0: Cache) returns (r: nat, cache: Cache)
    requires CacheSound(cache0)
    ensures r == CountSpec(pattern, groups)
    ensures groups == [] ==> r == if NoHash(pattern) then 1 else 0
    ensures groups != [] && pattern == [] ==> r == 0
    ensures CacheSound(cache)
    decreases |groups|, 1
  {
    var key := (pattern, groups);
    if key in cache0 {
      return cache0[key], cache0;
    }
    if groups == [] {
      var hash := FirstHash(pattern);
      return if hash.None? then 1 else 0, cache0;
    }
    if pattern == [] {
      return 0, cache0;
    }
    var group := groups[0];
    if |pattern| < group {
      return 0, cache0;
    }
    var latest := |pattern| - group;
    var obligatory := FirstHash(pattern[..latest]);
    if obligatory.Some? {
      latest := obligatory.value;
    }
    assert latest == Latest(pattern, group);
    var matches;
    matches, cache := SumMatches(pattern, groups, latest, cache0);
    cache := cache[key := matches];
    r := matches;
  }

  /** The loop of CountMatches: every start index from 0 to latest where the first
      group fits adds the count for the rest of the pattern and the other groups. */
  method SumMatches(pattern: string, groups: Groups, latest: nat, cache0: Cache) returns (matches: nat, cache: Cache)
    requires groups != [] && latest <= |pattern| && CacheSound(cache0)
    ensures matches == SumFrom(pattern, groups, 0, latest)
    ensures CacheSound(cache)
    decreases |groups|, 0
  {
    var group := groups[0];
    matches := 0;
    cache := cache0;
    var i := 0;
    ghost var total := SumFrom(pattern, groups, 0, latest);
    while i <= latest
      invariant 0 <= i <= latest + 1
      invariant CacheSound(cache)
      invariant matches + SumFrom(pattern, groups, i, latest) == total
      decreases latest + 1 - i
    {
      var matched := MatchGroupAtStart(pattern[i..], group);
      SumFromStep(pattern, groups, i, latest);
      if matched != 0 {
        var count;
        count, cache := CountMatches(pattern[i + matched..], groups[1..], cache);
        matches := matches + count;
      }
      i := i + 1;
    }
  }

  // ---------------------------------------------------------------------------
  // A reference count, cell by cell

  /** The arrangements, read cell by cell: a cell that may be operational is
      skipped, and a group may start at a cell that may be damaged. */
  function Arrangements(p: string, gs: Groups): nat
    decreases |p|, |gs|, 1
  {
    if p == [] then (if gs == [] then 1 else 0)
    else (if p[0] != '#' then Arrangements(p[1..], gs) else 0) + (if p[0] != '.' then Place(p, gs) else 0)
  }

  /** The arrangements in which the first group starts at the first cell. */
  function Place(p: string, gs: Groups): nat
    decreases |p|, |gs|, 0
  {
    if gs == [] || !FitsAtStart(p, gs[0]) then 0
    else Arrangements(p[if |p| == gs[0] then gs[0] else gs[0] + 1..], gs[1..])
  }

  predicate Positive(gs: Groups) {
    forall k :: 0 <= k < |gs| ==> gs[k] >= 1
  }

  /** With no groups left there is one arrangement exactly when no cell is damaged. */
  lemma {:induction false} ArrangementsNoGroups(p: string)
    ensures Arrangements(p, []) == if NoHash(p) then 1 else 0
    decreases |p|
  {
    if p != [] {
      ArrangementsNoGroups(p[1..]);
      assert NoHash(p) <==> p[0] != '#' && NoHash(p[1..]) by {
        if p[0] != '#' && NoHash(p[1..]) {
          forall k | 0 <= k < |p|
            ensures p[k] != '#'
          {
            if k > 0 {
              assert p[k] == p[1..][k - 1];
            }
          }
        }
      }
    }
  }

  /** A pattern shorter than the first group has no arrangement. */
  lemma {:induction false} ArrangementsShort(p: string, gs: Groups)
    requires gs != [] && |p| < gs[0]
    ensures Arrangements(p, gs) == 0
    decreases |p|
  {
    if p != [] {
      ArrangementsShort(p[1..], gs);
    }
  }

  /** The sum over start indices i .. latest of the arrangements starting there. */
  function SumPlace(p: string, gs: Groups, i: nat, latest: nat): nat
    requires latest <= |p|
    decreases latest + 1 - i
  {
    if i > latest then 0 else Place(p[i..], gs) + SumPlace(p, gs, i + 1, latest)
  }

  /** The cell-by-cell count from index i on is the sum over the start indices that
      the loop of CountMatches tries. */
  lemma {:induction false} ArrangementsUnroll(p: string, gs: Groups, i: nat)
    requires gs != [] && gs[0] >= 1 && |p| >= gs[0]
    requires i <= Latest(p, gs[0])
    ensures Arrangements(p[i..], gs) == SumPlace(p, gs, i, Latest(p, gs[0]))
    decreases Latest(p, gs[0]) - i
  {
    var g := gs[0];
    var latest := Latest(p, g);
    var q := p[i..];
    assert q[0] == p[i] && q[1..] == p[i + 1..];
    if p[i] == '.' {
      assert !NoDot(q[..g]) by {
        assert q[..g][0] == '.';
      }
    }
    if i < latest {
      assert p[i] == p[..latest][i];
      ArrangementsUnroll(p, gs, i + 1);
    } else {
      assert SumPlace(p, gs, i + 1, latest) == 0;
      if p[i] != '#' {
        assert |p[i + 1..]| < g;
        ArrangementsShort(p[i + 1..], gs);
      }
    }
  }

  lemma SumPlaceStep(p: string, gs: Groups, i: nat, latest: nat)
    requires i <= latest <= |p|
    ensures SumPlace(p, gs, i, latest) == Place(p[i..], gs) + SumPlace(p, gs, i + 1, latest)
  {
  }

  lemma PositiveTail(gs: Groups)
    requires gs != [] && Positive(gs)
    ensures Positive(gs[1..])
  {
    forall k | 0 <= k < |gs[1..]|
      ensures gs[1..][k] >= 1
    {
      assert gs[1..][k] == gs[k + 1];
    }
  }

  /** The term of CountMatches' loop at index i is the number of arrangements in
      which the first group starts there. */
  lemma TermIsPlace(p: string, gs: Groups, i: nat)
    requires gs != [] && Positive(gs) && i <= |p|
    ensures var m := MatchGroupAtStart(p[i..], gs[0]);
      (if m == 0 then 0 else CountSpec(p[i + m..], gs[1..])) == Place(p[i..], gs)
    decreases |gs|, 0, 0
  {
    var g := gs[0];
    var q := p[i..];
    var m := MatchGroupAtStart(q, g);
    if FitsAtStart(q, g) {
      assert q[m..] == p[i + m..];
      PositiveTail(gs);
      CountSpecIsArrangements(p[i + m..], gs[1..]);
    }
  }

  /** Each term of CountMatches' loop is the number of arrangements in which the
      first group starts at that index. */
  lemma SumFromIsSumPlace(p: string, gs: Groups, i: nat, latest: nat)
    requires gs != [] && Positive(gs) && latest <= |p|
    ensures SumFrom(p, gs, i, latest) == SumPlace(p, gs, i, latest)
    decreases |gs|, 0, latest + 1 - i
  {
    if i <= latest {
      SumFromStep(p, gs, i, latest);
      SumPlaceStep(p, gs, i, latest);
      SumFromIsSumPlace(p, gs, i + 1, latest);
      TermIsPlace(p, gs, i);
    }
  }

  /** CountMatches counts exactly the cell-by-cell arrangements, for groups of at
      least one damaged spring. */
  lemma CountSpecIsArrangements(p: string, gs: Groups)
    requires Positive(gs)
    ensures CountSpec(p, gs) == Arrangements(p, gs)
    decreases |gs|, 1, 0
  {
    if gs == [] {
      ArrangementsNoGroups(p);
    } else if p == [] {
    } else if |p| < gs[0] {
      ArrangementsShort(p, gs);
    } else {
      var latest := Latest(p, gs[0]);
      SumFromIsSumPlace(p, gs, 0, latest);
      ArrangementsUnroll(p, gs, 0);
      assert p[0..] == p;
    }
  }
}
