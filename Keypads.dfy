/** The keypad-indirection optimiser of source/2024/21: shortest routes between keys
    of a keypad with one gap, their expansion through further directional keypads,
    and the memoised cost of typing a code through a chain of robots. */
module Keypads {
  import opened Common
  import opened Grid

  type Route = string
  type KeyPad = map<char, Pos>
  type RouteMap = map<(char, char), seq<Route>>
  type BestRouteMap = map<(char, char), Route>

  /** The gap of a keypad is stored under the space character. */
  const GAP: char := ' '

  const NUM_PAD: KeyPad := map[
    '7' := Pos(0, 0), '8' := Pos(0, 1), '9' := Pos(0, 2),
    '4' := Pos(1, 0), '5' := Pos(1, 1), '6' := Pos(1, 2),
    '1' := Pos(2, 0), '2' := Pos(2, 1), '3' := Pos(2, 2),
    ' ' := Pos(3, 0), '0' := Pos(3, 1), 'A' := Pos(3, 2)]

  const DIR_PAD: KeyPad := map[
    ' ' := Pos(0, 0), '^' := Pos(0, 1), 'A' := Pos(0, 2),
    '<' := Pos(1, 0), 'v' := Pos(1, 1), '>' := Pos(1, 2)]

  // ---------------------------------------------------------------------------
  // What pressing keys on a directional keypad does to the arm it controls.

  /** Where the arm ends and which positions it activated, in order. */
  datatype Typed = Typed(end: Pos, pressed: seq<Pos>)

  /** Pressing a sequence of direction keys and 'A' with the arm starting at `at`:
      a direction moves the arm one cell, 'A' activates the cell under it. Moving
      onto the gap, or pressing any other key, is a failure. */
  function Press(at: Pos, gap: Pos, presses: string): Option<Typed>
    decreases |presses|
  {
    if presses == [] then Some(Typed(at, []))
    else if presses[0] == 'A' then
      match Press(at, gap, presses[1..])
      case None => None
      case Some(t) => Some(Typed(t.end, [at] + t.pressed))
    else
      match ParseDir(presses[0])
      case None => None
      case Some(d) =>
        var next := at.Plus(MoveDir(d));
        if next == gap then None else Press(next, gap, presses[1..])
  }

  /** Pressing b after a, continuing from where a left the arm. */
  function Then(t: Option<Typed>, gap: Pos, b: string): Option<Typed> {
    match t
    case None => None
    case Some(t1) =>
      match Press(t1.end, gap, b)
      case None => None
      case Some(t2) => Some(Typed(t2.end, t1.pressed + t2.pressed))
  }

  lemma {:induction false} PressConcat(at: Pos, gap: Pos, a: string, b: string)
    ensures Press(at, gap, a + b) == Then(Press(at, gap, a), gap, b)
    decreases |a|
  {
    if a == [] {
      assert a + b == b;
      if Press(at, gap, b).Some? {
        var t2 := Press(at, gap, b).value;
        assert [] + t2.pressed == t2.pressed;
      }
    } else {
      assert (a + b)[0] == a[0];
      assert (a + b)[1..] == a[1..] + b;
      if a[0] == 'A' {
        PressConcat(at, gap, a[1..], b);
        var r := Press(at, gap, a[1..]);
        if r.Some? && Press(r.value.end, gap, b).Some? {
          var t2 := Press(r.value.end, gap, b).value;
          assert ([at] + r.value.pressed) + t2.pressed == [at] + (r.value.pressed + t2.pressed);
        }
      } else if ParseDir(a[0]).Some? {
        PressConcat(at.Plus(MoveDir(ParseDir(a[0]).value)), gap, a[1..], b);
      }
    }
  }

  /** The position after k steps in direction d. */
  function Shift(p: Pos, d: Dir, k: int): Pos {
    match d
    case N => Pos(p.i - k, p.j)
    case E => Pos(p.i, p.j + k)
    case S => Pos(p.i + k, p.j)
    case W => Pos(p.i, p.j - k)
  }

  function Manhattan(a: Pos, b: Pos): nat {
    Abs(a.i - b.i) + Abs(a.j - b.j)
  }

  /** The string of n copies of c. */
  function Repeat(c: char, n: nat): (r: string)
    ensures |r| == n && forall k :: 0 <= k < n ==> r[k] == c
  {
    if n == 0 then [] else [c] + Repeat(c, n - 1)
  }

  /** A straight run of n steps that avoids the gap leaves the arm n cells on. */
  lemma {:induction false} PressRun(at: Pos, gap: Pos, d: Dir, n: nat, rest: string)
    requires forall k :: 1 <= k <= n ==> Shift(at, d, k) != gap
    ensures Press(at, gap, Repeat(DirChar(d), n) + rest) == Press(Shift(at, d, n), gap, rest)
    decreases n
  {
    if n == 0 {
      assert Repeat(DirChar(d), 0) + rest == rest;
      assert Shift(at, d, 0) == at;
    } else {
      var s := Repeat(DirChar(d), n) + rest;
      var next := at.Plus(MoveDir(d));
      assert s[0] == DirChar(d);
      assert s[1..] == Repeat(DirChar(d), n - 1) + rest;
      ParseDirChar(d);
      assert next == Shift(at, d, 1);
      forall k | 1 <= k <= n - 1
        ensures Shift(next, d, k) != gap
      {
        assert Shift(next, d, k) == Shift(at, d, k + 1);
      }
      PressRun(next, gap, d, n - 1, rest);
      assert Shift(next, d, n - 1) == Shift(at, d, n);
    }
  }

  /** Any presses that activate `out` and leave the arm at e need at least the
      Manhattan distance in moves plus one press per activation. */
  lemma {:induction false} NoShorterPresses(at: Pos, gap: Pos, presses: string)
    requires Press(at, gap, presses).Some?
    ensures |presses| >= Manhattan(at, Press(at, gap, presses).value.end) + |Press(at, gap, presses).value.pressed|
    decreases |presses|
  {
    if presses != [] {
      if presses[0] == 'A' {
        NoShorterPresses(at, gap, presses[1..]);
      } else {
        var next := at.Plus(MoveDir(ParseDir(presses[0]).value));
        NoShorterPresses(next, gap, presses[1..]);
      }
    }
  }

  // ---------------------------------------------------------------------------
  // IsSafeFromBlank

  /** The position after following the directions from `from`. */
  function Walk(from: Pos, dirs: seq<Dir>): Pos
    decreases |dirs|
  {
    if dirs == [] then from else Walk(from.Plus(MoveDir(dirs[0])), dirs[1..])
  }

  lemma {:induction false} WalkSnoc(from: Pos, dirs: seq<Dir>, d: Dir)
    ensures Walk(from, dirs + [d]) == Walk(from, dirs).Plus(MoveDir(d))
    decreases |dirs|
  {
    if dirs == [] {
      assert Walk(from.Plus(MoveDir(d)), []) == from.Plus(MoveDir(d));
    } else {
      assert (dirs + [d])[1..] == dirs[1..] + [d];
      WalkSnoc(from.Plus(MoveDir(dirs[0])), dirs[1..], d);
    }
  }

  /** IsSafeFromBlank: no position reached after a step of the route is the gap. */
  method IsSafeFromBlank(from: Pos, blank: Pos, routeDir: seq<Dir>) returns (safe: bool)
    ensures safe <==> forall k :: 1 <= k <= |routeDir| ==> Walk(from, routeDir[..k]) != blank
  {
    var p := from;
    var n := 0;
    while n < |routeDir|
      invariant 0 <= n <= |routeDir|
      invariant p == Walk(from, routeDir[..n])
      invariant forall k :: 1 <= k <= n ==> Walk(from, routeDir[..k]) != blank
    {
      WalkSnoc(from, routeDir[..n], routeDir[n]);
      assert routeDir[..n] + [routeDir[n]] == routeDir[..n + 1];
      p := p.Plus(MoveDir(routeDir[n]));
      if p == blank {
        return false;
      }
      n := n + 1;
    }
    return true;
  }

  function DirString(dirs: seq<Dir>): (r: string)
    ensures |r| == |dirs| && forall k :: 0 <= k < |dirs| ==> r[k] == DirChar(dirs[k])
  {
    if dirs == [] then [] else [DirChar(dirs[0])] + DirString(dirs[1..])
  }

  /** The route is safe exactly when pressing its keys never moves the arm onto
      the gap. */
  lemma {:induction false} SafeIffPressable(from: Pos, blank: Pos, dirs: seq<Dir>)
    ensures Press(from, blank, DirString(dirs)).Some?
        <==> forall k :: 1 <= k <= |dirs| ==> Walk(from, dirs[..k]) != blank
    decreases |dirs|
  {
    if dirs != [] {
      var next := from.Plus(MoveDir(dirs[0]));
      ParseDirChar(dirs[0]);
      assert DirString(dirs)[1..] == DirString(dirs[1..]);
      SafeIffPressable(next, blank, dirs[1..]);
      forall k | 1 <= k <= |dirs|
        ensures Walk(from, dirs[..k]) == Walk(next, dirs[1..][..k - 1])
      {
        assert dirs[..k][1..] == dirs[1..][..k - 1];
      }
      assert dirs[..1] == [dirs[0]];
      if next != blank && !(forall k :: 1 <= k <= |dirs| - 1 ==> Walk(next, dirs[1..][..k]) != blank) {
        var k :| 1 <= k <= |dirs| - 1 && Walk(next, dirs[1..][..k]) == blank;
        assert Walk(from, dirs[..k + 1]) == blank;
      }
    }
  }

  // ---------------------------------------------------------------------------
  // ShortestRoutes

  /** The vertical and horizontal directions that lead from s towards e. */
  function VDir(s: Pos, e: Pos): Dir {
    if e.i > s.i then S else N
  }

  function HDir(s: Pos, e: Pos): Dir {
    if e.j > s.j then E else W
  }

  /** ShortestRoutes: the routes worth considering between two keys, each ending
      with the 'A' that presses the destination key. The vertical-first and the
      horizontal-first route are both offered unless a leg is empty (one route)
      or the bend of one of them is the gap (only the other one). A key missing
      from the pad, which the source looks up with `at`, gives None. */
  function ShortestRoutes(pad: KeyPad, from: char, to: char): (r: Option<seq<Route>>)
    ensures from == to ==> r == Some(["A"])
    ensures r.Some? <==> from == to || (from in pad && to in pad && GAP in pad)
    ensures r.Some? ==> 1 <= |r.value| <= 2
    ensures r.Some? && from != to ==> forall route :: route in r.value ==>
      |route| == Manhattan(pad[from], pad[to]) + 1 && route[|route| - 1] == 'A'
    ensures r.Some? && |r.value| == 2 ==>
      pad[GAP] != Pos(pad[from].i, pad[to].j) && pad[GAP] != Pos(pad[to].i, pad[from].j)
    ensures r.Some? && from != to && pad[from].i != pad[to].i && pad[from].j != pad[to].j ==>
      (pad[GAP] == Pos(pad[from].i, pad[to].j) ==> r.value == [VertFirst(pad[from], pad[to])]) &&
      (pad[GAP] == Pos(pad[to].i, pad[from].j) ==> r.value == [HorizFirst(pad[from], pad[to])])
    ensures r.Some? && from != to && (pad[from].i == pad[to].i || pad[from].j == pad[to].j) ==>
      r.value == [VertFirst(pad[from], pad[to])]
    ensures (r.Some? && from != to && pad[from].i != pad[to].i && pad[from].j != pad[to].j &&
             pad[GAP] != Pos(pad[from].i, pad[to].j) && pad[GAP] != Pos(pad[to].i, pad[from].j)) ==>
      r.value == [VertFirst(pad[from], pad[to]), HorizFirst(pad[from], pad[to])]
  {
    if from == to then Some(["A"])
    else if from !in pad || to !in pad || GAP !in pad then None
    else
      var start, end, blank := pad[from], pad[to], pad[GAP];
      var vDir := DirChar(VDir(start, end));
      var hDir := DirChar(HDir(start, end));
      var vNum := Abs(end.i - start.i);
      var hNum := Abs(end.j - start.j);
      if hNum == 0 then
        assert Repeat(hDir, 0) == [];
        assert VertFirst(start, end) == Repeat(vDir, vNum) + [] + "A" == Repeat(vDir, vNum) + "A";
        Some([Repeat(vDir, vNum) + "A"])
      else if vNum == 0 then
        assert Repeat(vDir, 0) == [];
        assert VertFirst(start, end) == [] + Repeat(hDir, hNum) + "A" == Repeat(hDir, hNum) + "A";
        Some([Repeat(hDir, hNum) + "A"])
      else if blank.i == start.i && blank.j == end.j then Some([VertFirst(start, end)])
      else if blank.i == end.i && blank.j == start.j then Some([HorizFirst(start, end)])
      else Some([VertFirst(start, end), HorizFirst(start, end)])
  }

  /** The route with the vertical leg first, and the one with the horizontal leg first. */
  function VertFirst(s: Pos, e: Pos): Route {
    Repeat(DirChar(VDir(s, e)), Abs(e.i - s.i)) + Repeat(DirChar(HDir(s, e)), Abs(e.j - s.j)) + "A"
  }

  function HorizFirst(s: Pos, e: Pos): Route {
    Repeat(DirChar(HDir(s, e)), Abs(e.j - s.j)) + Repeat(DirChar(VDir(s, e)), Abs(e.i - s.i)) + "A"
  }

  /** Whether b lies in the rectangle spanned by s and e. */
  predicate InBox(s: Pos, e: Pos, b: Pos) {
    (s.i <= b.i <= e.i || e.i <= b.i <= s.i) && (s.j <= b.j <= e.j || e.j <= b.j <= s.j)
  }

  /** The gap is outside the rectangle from s to e or on one of its two bends. */
  predicate GapClear(s: Pos, e: Pos, b: Pos) {
    !InBox(s, e, b) || b == Pos(s.i, e.j) || b == Pos(e.i, s.j)
  }

  /** The two-leg route: first leg in direction d1 of n1 steps, then d2 of n2 steps,
      then 'A'. It types the cell where the legs end, provided no step lands on the
      gap. */
  lemma PressTwoLegs(s: Pos, b: Pos, d1: Dir, n1: nat, d2: Dir, n2: nat)
    requires forall k :: 1 <= k <= n1 ==> Shift(s, d1, k) != b
    requires forall k :: 1 <= k <= n2 ==> Shift(Shift(s, d1, n1), d2, k) != b
    ensures Press(s, b, Repeat(DirChar(d1), n1) + Repeat(DirChar(d2), n2) + "A")
         == Some(Typed(Shift(Shift(s, d1, n1), d2, n2), [Shift(Shift(s, d1, n1), d2, n2)]))
  {
    var x, y := Repeat(DirChar(d1), n1), Repeat(DirChar(d2), n2);
    assert x + y + "A" == x + (y + "A");
    PressRun(s, b, d1, n1, y + "A");
    PressRun(Shift(s, d1, n1), b, d2, n2, "A");
    var e := Shift(Shift(s, d1, n1), d2, n2);
    assert "A"[0] == 'A' && "A"[1..] == [];
    assert Press(e, b, []) == Some(Typed(e, []));
    assert [e] + [] == [e];
  }

  /** The vertical-first route never lands on a gap that is clear of the
      rectangle, unless the gap is its bend. */
  lemma VertFirstAvoidsGap(s: Pos, e: Pos, b: Pos)
    requires b != e && GapClear(s, e, b) && b != Pos(e.i, s.j)
    ensures forall k :: 1 <= k <= Abs(e.i - s.i) ==> Shift(s, VDir(s, e), k) != b
    ensures Shift(s, VDir(s, e), Abs(e.i - s.i)) == Pos(e.i, s.j)
    ensures forall k :: 1 <= k <= Abs(e.j - s.j) ==> Shift(Pos(e.i, s.j), HDir(s, e), k) != b
  {
  }

  lemma HorizFirstAvoidsGap(s: Pos, e: Pos, b: Pos)
    requires b != e && GapClear(s, e, b) && b != Pos(s.i, e.j)
    ensures forall k :: 1 <= k <= Abs(e.j - s.j) ==> Shift(s, HDir(s, e), k) != b
    ensures Shift(s, HDir(s, e), Abs(e.j - s.j)) == Pos(s.i, e.j)
    ensures forall k :: 1 <= k <= Abs(e.i - s.i) ==> Shift(Pos(s.i, e.j), VDir(s, e), k) != b
  {
  }

  /** The vertical-first route types e from s. */
  lemma PressVertFirst(s: Pos, e: Pos, b: Pos)
    requires b != e && GapClear(s, e, b) && b != Pos(e.i, s.j)
    ensures Press(s, b, VertFirst(s, e)) == Some(Typed(e, [e]))
  {
    VertFirstAvoidsGap(s, e, b);
    PressTwoLegs(s, b, VDir(s, e), Abs(e.i - s.i), HDir(s, e), Abs(e.j - s.j));
    assert Shift(Shift(s, VDir(s, e), Abs(e.i - s.i)), HDir(s, e), Abs(e.j - s.j)) == e;
  }

  lemma PressHorizFirst(s: Pos, e: Pos, b: Pos)
    requires b != e && GapClear(s, e, b) && b != Pos(s.i, e.j)
    ensures Press(s, b, HorizFirst(s, e)) == Some(Typed(e, [e]))
  {
    HorizFirstAvoidsGap(s, e, b);
    PressTwoLegs(s, b, HDir(s, e), Abs(e.j - s.j), VDir(s, e), Abs(e.i - s.i));
    assert Shift(Shift(s, HDir(s, e), Abs(e.j - s.j)), VDir(s, e), Abs(e.i - s.i)) == e;
  }

  /** Every route ShortestRoutes offers types exactly the destination key, provided
      the gap is clear of the rectangle between the keys (or on a bend) and is not
      the destination itself. */
  lemma ShortestRoutesPress(pad: KeyPad, from: char, to: char)
    requires from in pad && to in pad && GAP in pad
    requires pad[to] != pad[GAP]
    requires GapClear(pad[from], pad[to], pad[GAP])
    ensures ShortestRoutes(pad, from, to).Some?
    ensures forall route :: route in ShortestRoutes(pad, from, to).value ==>
      Press(pad[from], pad[GAP], route) == Some(Typed(pad[to], [pad[to]]))
  {
    var s, e, b := pad[from], pad[to], pad[GAP];
    var vc, hc := DirChar(VDir(s, e)), DirChar(HDir(s, e));
    var vNum, hNum := Abs(e.i - s.i), Abs(e.j - s.j);
    if from == to {
      assert Press(s, b, []) == Some(Typed(s, []));
      assert "A"[0] == 'A' && "A"[1..] == [];
      assert [s] + [] == [s];
    } else if hNum == 0 {
      assert Repeat(vc, vNum) + "A" == VertFirst(s, e);
      PressVertFirst(s, e, b);
    } else if vNum == 0 {
      assert Repeat(hc, hNum) + "A" == HorizFirst(s, e);
      PressHorizFirst(s, e, b);
    } else {
      if b != Pos(e.i, s.j) { PressVertFirst(s, e, b); }
      if b != Pos(s.i, e.j) { PressHorizFirst(s, e, b); }
    }
  }

  /** A gap in a corner of the pad: every key lies on the same side of it in both
      coordinates. */
  predicate GapInCorner(pad: KeyPad) {
    GAP in pad &&
    ((forall c :: c in pad ==> pad[c].i <= pad[GAP].i) || (forall c :: c in pad ==> pad[c].i >= pad[GAP].i)) &&
    ((forall c :: c in pad ==> pad[c].j <= pad[GAP].j) || (forall c :: c in pad ==> pad[c].j >= pad[GAP].j)) &&
    (forall c :: c in pad && c != GAP ==> pad[c] != pad[GAP])
  }

  lemma CornerGapIsClear(pad: KeyPad, from: char, to: char)
    requires GapInCorner(pad) && from in pad && to in pad && from != GAP && to != GAP
    ensures GapClear(pad[from], pad[to], pad[GAP]) && pad[to] != pad[GAP]
  {
  }

  lemma NumPadGapInCorner()
    ensures GapInCorner(NUM_PAD)
  {
  }

  lemma DirPadGapInCorner()
    ensures GapInCorner(DIR_PAD)
  {
  }

  /** On either keypad of the puzzle every route offered between two keys types
      exactly the destination key. */
  lemma PadRoutesPress(pad: KeyPad, from: char, to: char)
    requires pad == NUM_PAD || pad == DIR_PAD
    requires from in pad && to in pad && from != GAP && to != GAP
    ensures ShortestRoutes(pad, from, to).Some?
    ensures forall route :: route in ShortestRoutes(pad, from, to).value ==>
      Press(pad[from], pad[GAP], route) == Some(Typed(pad[to], [pad[to]]))
  {
    NumPadGapInCorner();
    DirPadGapInCorner();
    CornerGapIsClear(pad, from, to);
    ShortestRoutesPress(pad, from, to);
  }

  // ---------------------------------------------------------------------------
  // DeleteLongSequences

  const U64_MAX: nat := TWO_64 - 1

  /** The running minimum of DeleteLongSequences: the shortest length among the
      routes, starting from the largest u64. */
  function MinLength(routes: seq<Route>): (n: nat)
    ensures n <= U64_MAX
    ensures forall k :: 0 <= k < |routes| ==> n <= |routes[k]|
    ensures n == U64_MAX || exists k :: 0 <= k < |routes| && |routes[k]| == n
  {
    if routes == [] then U64_MAX
    else
      var rest := MinLength(routes[1..]);
      if |routes[0]| < rest then |routes[0]|
      else
        assert rest == U64_MAX || exists k :: 1 <= k < |routes| && |routes[k]| == rest by {
          if rest != U64_MAX {
            var k :| 0 <= k < |routes[1..]| && |routes[1..][k]| == rest;
            assert |routes[k + 1]| == rest;
          }
        }
        rest
  }

  /** The routes no longer than n, in their original order. */
  function NoLongerThan(routes: seq<Route>, n: nat): seq<Route>
    decreases |routes|
  {
    if routes == [] then []
    else if |routes[0]| <= n then [routes[0]] + NoLongerThan(routes[1..], n)
    else NoLongerThan(routes[1..], n)
  }

  /** The filter keeps a route exactly when the route is no longer than n. */
  lemma {:induction false} NoLongerThanMembers(routes: seq<Route>, n: nat)
    ensures forall x :: x in NoLongerThan(routes, n) <==> x in routes && |x| <= n
    decreases |routes|
  {
    if routes != [] {
      NoLongerThanMembers(routes[1..], n);
      assert forall x :: x in routes <==> x == routes[0] || x in routes[1..];
    }
  }

  /** DeleteLongSequences: keeps exactly the routes of minimum length, in order. */
  method DeleteLongSequences(routes: seq<Route>) returns (kept: seq<Route>)
    ensures kept == NoLongerThan(routes, MinLength(routes))
    ensures forall x :: x in kept ==> x in routes && |x| == MinLength(routes)
    ensures forall x :: x in routes && |x| == MinLength(routes) ==> x in kept
  {
    var minLen := U64_MAX;
    var n := 0;
    while n < |routes|
      invariant 0 <= n <= |routes|
      invariant minLen == MinLength(routes[..n])
    {
      MinLengthSnoc(routes[..n], routes[n]);
      assert routes[..n] + [routes[n]] == routes[..n + 1];
      if minLen > |routes[n]| {
        minLen := |routes[n]|;
      }
      n := n + 1;
    }
    assert routes[..n] == routes;
    kept := EraseLonger(routes, minLen);
    NoLongerThanMembers(routes, minLen);
  }

  /** std::erase_if with the predicate "longer than n": keeps, in order, the routes
      of length at most n. */
  method EraseLonger(routes: seq<Route>, n: nat) returns (kept: seq<Route>)
    ensures kept == NoLongerThan(routes, n)
  {
    kept := [];
    var t := 0;
    while t < |routes|
      invariant 0 <= t <= |routes|
      invariant kept + NoLongerThan(routes[t..], n) == NoLongerThan(routes, n)
    {
      assert routes[t..][1..] == routes[t + 1..];
      var tail := NoLongerThan(routes[t + 1..], n);
      if |routes[t]| <= n {
        assert NoLongerThan(routes[t..], n) == [routes[t]] + tail;
        assert kept + ([routes[t]] + tail) == (kept + [routes[t]]) + tail;
        kept := kept + [routes[t]];
      } else {
        assert NoLongerThan(routes[t..], n) == tail;
      }
      t := t + 1;
    }
    assert kept == kept + NoLongerThan(routes[t..], n);
  }

  /** The loop's running minimum: adding one more route. */
  lemma {:induction false} MinLengthSnoc(routes: seq<Route>, x: Route)
    ensures MinLength(routes + [x]) == if |x| < MinLength(routes) then |x| else MinLength(routes)
    decreases |routes|
  {
    if routes == [] {
      assert [x][1..] == [];
    } else {
      assert (routes + [x])[1..] == routes[1..] + [x];
      MinLengthSnoc(routes[1..], x);
    }
  }

  // ---------------------------------------------------------------------------
  // GetKeySequences

  /** Every partial sequence followed by one route. */
  function Block(acc: seq<string>, route: Route): (r: seq<string>)
    ensures |r| == |acc| && forall k :: 0 <= k < |acc| ==> r[k] == acc[k] + route
  {
    seq(|acc|, k requires 0 <= k < |acc| => acc[k] + route)
  }

  /** One round of the cross product: for each route in order, every partial
      sequence followed by that route. */
  function Cross(acc: seq<string>, routes: seq<Route>): seq<string>
    decreases |routes|
  {
    if routes == [] then [] else Block(acc, routes[0]) + Cross(acc, routes[1..])
  }

  /** Every combination of a partial sequence and a route is in the cross product. */
  lemma {:induction false} CrossContains(acc: seq<string>, routes: seq<Route>, k1: nat, k2: nat)
    requires k1 < |acc| && k2 < |routes|
    ensures acc[k1] + routes[k2] in Cross(acc, routes)
    decreases |routes|
  {
    if k2 == 0 {
      assert Block(acc, routes[0])[k1] == acc[k1] + routes[0];
    } else {
      assert routes[1..][k2 - 1] == routes[k2];
      CrossContains(acc, routes[1..], k1, k2 - 1);
    }
  }

  /** Every element of the cross product is a partial sequence followed by a route. */
  lemma {:induction false} CrossMember(acc: seq<string>, routes: seq<Route>, s: string)
    requires s in Cross(acc, routes)
    ensures exists k1, k2 :: 0 <= k1 < |acc| && 0 <= k2 < |routes| && s == acc[k1] + routes[k2]
    decreases |routes|
  {
    var first := Block(acc, routes[0]);
    if s in first {
      var k1 :| 0 <= k1 < |acc| && first[k1] == s;
      assert s == acc[k1] + routes[0];
    } else {
      CrossMember(acc, routes[1..], s);
      var k1, k2 :| 0 <= k1 < |acc| && 0 <= k2 < |routes[1..]| && s == acc[k1] + routes[1..][k2];
      assert s == acc[k1] + routes[k2 + 1];
    }
  }

  /** The loop of GetKeySequences from some point on: acc holds the sequences for
      the part of the code already typed and `from` is the last key of that part.
      A pair missing from the map is the source's failing `at` lookup. */
  function KeySeqs(code: string, from: char, routeMap: RouteMap, acc: seq<string>): Option<seq<string>>
    decreases |code|
  {
    if code == [] then Some(acc)
    else if (from, code[0]) !in routeMap then None
    else KeySeqs(code[1..], code[0], routeMap, Cross(acc, routeMap[(from, code[0])]))
  }

  /** GetKeySequences: every way of typing code from 'A' by picking one route for
      each consecutive pair of keys. */
  method GetKeySequences(code: string, routeMap: RouteMap) returns (result: Option<seq<string>>)
    ensures result == KeySeqs(code, 'A', routeMap, [""])
  {
    var from := 'A';
    var acc: seq<string> := [""];
    var c := 0;
    while c < |code|
      invariant 0 <= c <= |code|
      invariant KeySeqs(code[c..], from, routeMap, acc) == KeySeqs(code, 'A', routeMap, [""])
    {
      var to := code[c];
      assert code[c..][0] == to && code[c..][1..] == code[c + 1..];
      if (from, to) !in routeMap {
        return None;
      }
      var newResult := CrossProduct(acc, routeMap[(from, to)]);
      acc := newResult;
      from := to;
      c := c + 1;
    }
    assert code[c..] == [];
    return Some(acc);
  }

  /** The two inner loops of GetKeySequences: the next round of partial sequences. */
  method CrossProduct(acc: seq<string>, routes: seq<Route>) returns (newResult: seq<string>)
    ensures newResult == Cross(acc, routes)
  {
    newResult := [];
    var r := 0;
    while r < |routes|
      invariant 0 <= r <= |routes|
      invariant newResult + Cross(acc, routes[r..]) == Cross(acc, routes)
    {
      var k := 0;
      var block: seq<string> := [];
      while k < |acc|
        invariant 0 <= k <= |acc|
        invariant block == Block(acc[..k], routes[r])
      {
        assert acc[..k + 1] == acc[..k] + [acc[k]];
        block := block + [acc[k] + routes[r]];
        k := k + 1;
      }
      assert acc[..k] == acc;
      assert routes[r..][1..] == routes[r + 1..];
      assert Cross(acc, routes[r..]) == block + Cross(acc, routes[r + 1..]);
      newResult := newResult + block;
      r := r + 1;
    }
    assert newResult == newResult + Cross(acc, routes[r..]);
  }

  /** The positions of the keys of code on the pad. */
  function KeyPositions(pad: KeyPad, code: string): (r: seq<Pos>)
    requires forall k :: 0 <= k < |code| ==> code[k] in pad
    ensures |r| == |code| && forall k :: 0 <= k < |code| ==> r[k] == pad[code[k]]
  {
    if code == [] then [] else [pad[code[0]]] + KeyPositions(pad, code[1..])
  }

  /** Every route of the map between two keys types the second key from the first. */
  predicate RoutesType(pad: KeyPad, routeMap: RouteMap) {
    GAP in pad &&
    forall x, y :: (x, y) in routeMap ==>
      x in pad && y in pad &&
      forall k :: 0 <= k < |routeMap[(x, y)]| ==>
        Press(pad[x], pad[GAP], routeMap[(x, y)][k]) == Some(Typed(pad[y], [pad[y]]))
  }

  /** One round of the cross product extends what every partial sequence types by
      the next key. */
  lemma CrossTypes(pad: KeyPad, from: char, to: char, routes: seq<Route>, acc: seq<string>, typed: seq<Pos>)
    requires GAP in pad && 'A' in pad && from in pad && to in pad
    requires forall k :: 0 <= k < |routes| ==> Press(pad[from], pad[GAP], routes[k]) == Some(Typed(pad[to], [pad[to]]))
    requires forall k :: 0 <= k < |acc| ==> Press(pad['A'], pad[GAP], acc[k]) == Some(Typed(pad[from], typed))
    ensures forall k :: 0 <= k < |Cross(acc, routes)| ==>
      Press(pad['A'], pad[GAP], Cross(acc, routes)[k]) == Some(Typed(pad[to], typed + [pad[to]]))
  {
    var next := Cross(acc, routes);
    forall k | 0 <= k < |next|
      ensures Press(pad['A'], pad[GAP], next[k]) == Some(Typed(pad[to], typed + [pad[to]]))
    {
      CrossMember(acc, routes, next[k]);
      var k1, k2 :| 0 <= k1 < |acc| && 0 <= k2 < |routes| && next[k] == acc[k1] + routes[k2];
      PressConcat(pad['A'], pad[GAP], acc[k1], routes[k2]);
    }
  }

  /** When the map's routes type their keys, every sequence GetKeySequences produces
      types the whole code, starting with the arm on 'A'. */
  lemma {:induction false} KeySeqsType(pad: KeyPad, code: string, from: char, routeMap: RouteMap,
                                        acc: seq<string>, typed: seq<Pos>)
    requires RoutesType(pad, routeMap) && from in pad && 'A' in pad
    requires forall k :: 0 <= k < |acc| ==> Press(pad['A'], pad[GAP], acc[k]) == Some(Typed(pad[from], typed))
    requires KeySeqs(code, from, routeMap, acc).Some?
    ensures forall k :: 0 <= k < |code| ==> code[k] in pad
    ensures forall s :: s in KeySeqs(code, from, routeMap, acc).value ==>
      Press(pad['A'], pad[GAP], s) == Some(Typed(pad[if code == [] then from else code[|code| - 1]],
                                                 typed + KeyPositions(pad, code)))
    decreases |code|
  {
    if code == [] {
      forall s | s in acc
        ensures Press(pad['A'], pad[GAP], s) == Some(Typed(pad[from], typed + KeyPositions(pad, code)))
      {
        assert typed + [] == typed;
      }
    } else {
      var to := code[0];
      var routes := routeMap[(from, to)];
      var next := Cross(acc, routes);
      CrossTypes(pad, from, to, routes, acc, typed);
      KeySeqsType(pad, code[1..], to, routeMap, next, typed + [pad[to]]);
      assert KeyPositions(pad, code) == [pad[to]] + KeyPositions(pad, code[1..]);
      assert (typed + [pad[to]]) + KeyPositions(pad, code[1..]) == typed + KeyPositions(pad, code);
      if code[1..] != [] {
        assert code[1..][|code[1..]| - 1] == code[|code| - 1];
      }
    }
  }

  // ---------------------------------------------------------------------------
  // GetBestKeySequence

  /** An optional string after a fixed prefix. */
  function Prefixed(s: string, o: Option<string>): Option<string> {
    if o.None? then None else Some(s + o.value)
  }

  /** The presses for code when each pair of consecutive keys, starting from key
      from, is typed by its one best route; None when a pair has no best route. */
  function BestFrom(code: string, from: char, best: BestRouteMap): Option<string>
    decreases |code|
  {
    if code == [] then Some("")
    else if (from, code[0]) !in best then None
    else Prefixed(best[(from, code[0])], BestFrom(code[1..], code[0], best))
  }

  lemma PrefixedAssoc(a: string, b: string, o: Option<string>)
    ensures Prefixed(a, Prefixed(b, o)) == Prefixed(a + b, o)
  {
    if o.Some? {
      assert a + (b + o.value) == (a + b) + o.value;
    }
  }

  /** GetBestKeySequence: the best routes of the pairs of code, starting from 'A',
      one after the other. */
  method GetBestKeySequence(code: string, best: BestRouteMap) returns (result: Option<string>)
    ensures result == BestFrom(code, 'A', best)
  {
    var from := 'A';
    var acc: string := "";
    var c := 0;
    assert Prefixed(acc, BestFrom(code, 'A', best)) == BestFrom(code, 'A', best) by {
      if BestFrom(code, 'A', best).Some? {
        assert "" + BestFrom(code, 'A', best).value == BestFrom(code, 'A', best).value;
      }
    }
    while c < |code|
      invariant 0 <= c <= |code|
      invariant Prefixed(acc, BestFrom(code[c..], from, best)) == BestFrom(code, 'A', best)
    {
      var to := code[c];
      assert code[c..][0] == to && code[c..][1..] == code[c + 1..];
      if (from, to) !in best {
        return None;
      }
      PrefixedAssoc(acc, best[(from, to)], BestFrom(code[c + 1..], to, best));
      acc := acc + best[(from, to)];
      from := to;
      c := c + 1;
    }
    assert code[c..] == [];
    assert acc + "" == acc;
    return Some(acc);
  }

  /** Every best route is one of the map's routes for the same pair. */
  predicate BestAmong(best: BestRouteMap, routeMap: RouteMap) {
    forall x, y :: (x, y) in best ==> (x, y) in routeMap && best[(x, y)] in routeMap[(x, y)]
  }

  /** Choosing the best route for each pair picks one of the sequences the cross
      product builds. */
  lemma {:induction false} BestFromIsAKeySeq(code: string, from: char, best: BestRouteMap,
                                             routeMap: RouteMap, acc: seq<string>, s: string)
    requires BestAmong(best, routeMap) && s in acc && BestFrom(code, from, best).Some?
    ensures KeySeqs(code, from, routeMap, acc).Some?
    ensures s + BestFrom(code, from, best).value in KeySeqs(code, from, routeMap, acc).value
    decreases |code|
  {
    if code == [] {
      assert s + "" == s;
    } else {
      var to := code[0];
      var route := best[(from, to)];
      var routes := routeMap[(from, to)];
      var k1 :| 0 <= k1 < |acc| && acc[k1] == s;
      var k2 :| 0 <= k2 < |routes| && routes[k2] == route;
      CrossContains(acc, routes, k1, k2);
      BestFromIsAKeySeq(code[1..], to, best, routeMap, Cross(acc, routes), s + route);
      assert (s + route) + BestFrom(code[1..], to, best).value == s + BestFrom(code, from, best).value;
    }
  }

  /** The best key sequence is one of the sequences GetKeySequences returns. */
  lemma BestIsAKeySeq(code: string, best: BestRouteMap, routeMap: RouteMap)
    requires BestAmong(best, routeMap) && BestFrom(code, 'A', best).Some?
    ensures KeySeqs(code, 'A', routeMap, [""]).Some?
    ensures BestFrom(code, 'A', best).value in KeySeqs(code, 'A', routeMap, [""]).value
  {
    BestFromIsAKeySeq(code, 'A', best, routeMap, [""], "");
    assert "" + BestFrom(code, 'A', best).value == BestFrom(code, 'A', best).value;
  }

  /** When the map's routes type their keys and the best routes are among them,
      the best key sequence types exactly the keys of code, from the arm on 'A'. */
  lemma BestSequenceTypes(pad: KeyPad, code: string, best: BestRouteMap, routeMap: RouteMap)
    requires RoutesType(pad, routeMap) && 'A' in pad
    requires BestAmong(best, routeMap) && BestFrom(code, 'A', best).Some?
    ensures forall k :: 0 <= k < |code| ==> code[k] in pad
    ensures Press(pad['A'], pad[GAP], BestFrom(code, 'A', best).value)
         == Some(Typed(pad[if code == [] then 'A' else code[|code| - 1]], KeyPositions(pad, code)))
  {
    BestIsAKeySeq(code, best, routeMap);
    KeySeqsType(pad, code, 'A', routeMap, [""], []);
    assert [] + KeyPositions(pad, code) == KeyPositions(pad, code);
  }

  // ---------------------------------------------------------------------------
  // DFSForPair / DFSForCode

  /** Cached lengths, keyed by the pair of keys and the number of robot layers. */
  type LenCache = map<((char, char), nat), nat>

  function AddOpt(a: Option<nat>, b: Option<nat>): Option<nat> {
    if a.None? || b.None? then None else Some(a.value + b.value)
  }

  /** The number of presses at the outermost keypad needed to move from key from
      to key to and press it, depth robot layers down; None when a route is missing. */
  function PairCost(from: char, to: char, best: BestRouteMap, depth: nat): Option<nat>
    decreases depth, 0, 0
  {
    if depth == 0 then Some(1)
    else if (from, to) !in best then None
    else CodeCost(best[(from, to)], 'A', best, depth - 1)
  }

  /** The sum of PairCost over the consecutive pairs of code, starting from key from. */
  function CodeCost(code: string, from: char, best: BestRouteMap, depth: nat): Option<nat>
    decreases depth, 1, |code|
  {
    if code == [] then Some(0)
    else AddOpt(PairCost(from, code[0], best, depth), CodeCost(code[1..], code[0], best, depth))
  }

  /** Every cached length is the exact cost of its pair at its depth. */
  predicate CacheSound(cache: LenCache, best: BestRouteMap) {
    forall key :: key in cache ==> PairCost(key.0.0, key.0.1, best, key.1) == Some(cache[key])
  }

  /** DFSForPair: the cost of one pair, through the cache. The cache is passed by
      reference in the source; here it goes in and comes back out. */
  method DFSForPair(from: char, to: char, best: BestRouteMap, depth: nat, cache0: LenCache)
    returns (r: Option<nat>, cache: LenCache)
    requires CacheSound(cache0, best)
    ensures r == PairCost(from, to, best, depth)
    ensures CacheSound(cache, best)
    decreases depth, 0, 0
  {
    if depth == 0 {
      return Some(1), cache0;
    }
    var key := ((from, to), depth);
    if key in cache0 {
      return Some(cache0[key]), cache0;
    }
    if (from, to) !in best {
      return None, cache0;
    }
    r, cache := DFSForCode(best[(from, to)], best, depth - 1, cache0);
    if r.Some? {
      cache := cache[key := r.value];
    }
  }

  /** DFSForCode: the cost of a whole code, pair by pair, starting from 'A'. */
  method DFSForCode(code: string, best: BestRouteMap, depth: nat, cache0: LenCache)
    returns (r: Option<nat>, cache: LenCache)
    requires CacheSound(cache0, best)
    ensures r == CodeCost(code, 'A', best, depth)
    ensures CacheSound(cache, best)
    decreases depth, 1, |code|
  {
    cache := cache0;
    var total: nat := 0;
    var from := 'A';
    var c := 0;
    while c < |code|
      invariant 0 <= c <= |code|
      invariant CacheSound(cache, best)
      invariant AddOpt(Some(total), CodeCost(code[c..], from, best, depth)) == CodeCost(code, 'A', best, depth)
    {
      var to := code[c];
      assert code[c..][0] == to && code[c..][1..] == code[c + 1..];
      var p;
      p, cache := DFSForPair(from, to, best, depth, cache);
      if p.None? {
        return None, cache;
      }
      total := total + p.value;
      from := to;
      c := c + 1;
    }
    assert code[c..] == [];
    return Some(total), cache;
  }

  /** With no robot in between, every key costs one press. */
  lemma {:induction false} DepthZeroCost(code: string, from: char, best: BestRouteMap)
    ensures CodeCost(code, from, best, 0) == Some(|code|)
    decreases |code|
  {
    if code != [] {
      DepthZeroCost(code[1..], code[0], best);
    }
  }

  /** Every best route is nonempty and ends by pressing 'A', as ShortestRoutes builds them. */
  predicate RoutesEndInA(best: BestRouteMap) {
    forall p :: p in best ==> |best[p]| > 0 && best[p][|best[p]| - 1] == 'A'
  }

  function CatOpt(a: Option<string>, b: Option<string>): Option<string> {
    if a.None? || b.None? then None else Some(a.value + b.value)
  }

  function LenOpt(a: Option<string>): Option<nat> {
    if a.None? then None else Some(|a.value|)
  }

  /** The presses at the outermost keypad: code expanded depth times through the
      best routes, the first layer starting from key from and the others from 'A'. */
  function ExpandFrom(code: string, from: char, best: BestRouteMap, depth: nat): Option<string>
    decreases depth
  {
    if depth == 0 then Some(code)
    else match BestFrom(code, from, best)
      case None => None
      case Some(s) => ExpandFrom(s, 'A', best, depth - 1)
  }

  function LastKey(code: string, from: char): char {
    if code == [] then from else code[|code| - 1]
  }

  lemma {:induction false} BestFromSplit(x: string, y: string, from: char, best: BestRouteMap)
    ensures BestFrom(x + y, from, best) == CatOpt(BestFrom(x, from, best), BestFrom(y, LastKey(x, from), best))
    decreases |x|
  {
    if x == [] {
      assert [] + y == y;
      if BestFrom(y, from, best).Some? {
        assert "" + BestFrom(y, from, best).value == BestFrom(y, from, best).value;
      }
    } else {
      assert (x + y)[0] == x[0] && (x + y)[1..] == x[1..] + y;
      BestFromSplit(x[1..], y, x[0], best);
      assert LastKey(x[1..], x[0]) == LastKey(x, from);
      var t := BestFrom(x[1..], x[0], best);
      var u := BestFrom(y, LastKey(x, from), best);
      if (from, x[0]) in best && t.Some? && u.Some? {
        var route := best[(from, x[0])];
        assert route + (t.value + u.value) == (route + t.value) + u.value;
      }
    }
  }

  lemma {:induction false} BestFromEndsInA(x: string, from: char, best: BestRouteMap)
    requires RoutesEndInA(best) && x != [] && BestFrom(x, from, best).Some?
    ensures |BestFrom(x, from, best).value| > 0
    ensures BestFrom(x, from, best).value[|BestFrom(x, from, best).value| - 1] == 'A'
    decreases |x|
  {
    var route := best[(from, x[0])];
    var rest := BestFrom(x[1..], x[0], best).value;
    if x[1..] == [] {
      assert route + rest == route;
    } else {
      BestFromEndsInA(x[1..], x[0], best);
      assert (route + rest)[|route + rest| - 1] == rest[|rest| - 1];
    }
  }

  lemma {:induction false} ExpandEmpty(from: char, best: BestRouteMap, depth: nat)
    ensures ExpandFrom("", from, best, depth) == Some("")
    decreases depth
  {
    if depth > 0 {
      ExpandEmpty('A', best, depth - 1);
    }
  }

  /** Expanding a code that ends by pressing 'A' and then more keys is expanding the
      two parts separately: the arm is back on 'A' in between, at every layer. */
  lemma {:induction false} ExpandSplit(x: string, y: string, best: BestRouteMap, depth: nat)
    requires RoutesEndInA(best) && x != [] && x[|x| - 1] == 'A'
    ensures ExpandFrom(x + y, 'A', best, depth) == CatOpt(ExpandFrom(x, 'A', best, depth), ExpandFrom(y, 'A', best, depth))
    decreases depth
  {
    if depth > 0 {
      BestFromSplit(x, y, 'A', best);
      var bX := BestFrom(x, 'A', best);
      var bY := BestFrom(y, 'A', best);
      if bX.Some? && bY.Some? {
        BestFromEndsInA(x, 'A', best);
        ExpandSplit(bX.value, bY.value, best, depth - 1);
      }
    }
  }

  /** The cost DFSForCode computes is the length of the fully expanded presses. */
  lemma {:induction false} CostIsExpandedLength(code: string, from: char, best: BestRouteMap, depth: nat)
    requires RoutesEndInA(best)
    ensures CodeCost(code, from, best, depth) == LenOpt(ExpandFrom(code, from, best, depth))
    decreases depth, |code|
  {
    if depth == 0 {
      DepthZeroCost(code, from, best);
    } else if code == [] {
      ExpandEmpty('A', best, depth - 1);
    } else if (from, code[0]) in best {
      var route := best[(from, code[0])];
      CostIsExpandedLength(route, 'A', best, depth - 1);
      CostIsExpandedLength(code[1..], code[0], best, depth);
      var rest := BestFrom(code[1..], code[0], best);
      if rest.Some? {
        ExpandSplit(route, rest.value, best, depth - 1);
      }
    }
  }

  // ---------------------------------------------------------------------------
  // Compare

  /** The key sequences of every route in turn, in order; None when one of them
      needs a pair the map lacks. */
  function AllSeqs(routes: seq<Route>, m: RouteMap): Option<seq<string>>
    decreases |routes|
  {
    if routes == [] then Some([])
    else
      match AllSeqs(routes[..|routes| - 1], m)
      case None => None
      case Some(prev) =>
        match KeySeqs(routes[|routes| - 1], 'A', m, [""])
        case None => None
        case Some(next) => Some(prev + next)
  }

  /** One round of Compare: the shortest of all key sequences of the routes. */
  function Shortest(routes: seq<Route>, m: RouteMap): Option<seq<string>> {
    match AllSeqs(routes, m)
    case None => None
    case Some(all) => Some(NoLongerThan(all, MinLength(all)))
  }

  /** Whether the routes xs lead to shorter presses than the routes ys, going one
      robot layer up per round while the first routes of both have equal length;
      None when a round fails, a list runs empty or the fuel runs out. The round
      is a parameter: Compare uses Shortest over its direction-pad routes. */
  function Race(xs: seq<Route>, ys: seq<Route>, round: seq<Route> -> Option<seq<Route>>, fuel: nat): Option<bool>
    decreases fuel
  {
    if xs == [] || ys == [] then None
    else if |xs[0]| != |ys[0]| then Some(|xs[0]| < |ys[0]|)
    else if fuel == 0 then None
    else
      match round(xs)
      case None => None
      case Some(xs') =>
        match round(ys)
        case None => None
        case Some(ys') => Race(xs', ys', round, fuel - 1)
  }

  /** Compare's round over the routes of the map. */
  function RoundOf(m: RouteMap): seq<Route> -> Option<seq<Route>> {
    rs => Shortest(rs, m)
  }

  lemma {:induction false} NoLongerThanSnoc(routes: seq<Route>, x: Route, n: nat)
    ensures NoLongerThan(routes + [x], n) == NoLongerThan(routes, n) + (if |x| <= n then [x] else [])
    decreases |routes|
  {
    if routes == [] {
      assert [x][1..] == [];
    } else {
      assert (routes + [x])[0] == routes[0] && (routes + [x])[1..] == routes[1..] + [x];
      NoLongerThanSnoc(routes[1..], x, n);
    }
  }

  lemma {:induction false} NoLongerThanTwice(routes: seq<Route>, n: nat, n': nat)
    requires n' <= n
    ensures NoLongerThan(NoLongerThan(routes, n), n') == NoLongerThan(routes, n')
    decreases |routes|
  {
    if routes != [] {
      NoLongerThanTwice(routes[1..], n, n');
    }
  }

  /** One step of the running minimum: the kept routes still agree with all routes
      seen on the routes no longer than the shortest. */
  lemma KeepStep(kept: seq<string>, before: seq<string>, x: string, n: nat)
    requires NoLongerThan(kept, n) == NoLongerThan(before, n)
    ensures |x| > n ==> NoLongerThan(kept, n) == NoLongerThan(before + [x], n)
    ensures |x| <= n ==> NoLongerThan(kept + [x], |x|) == NoLongerThan(before + [x], |x|)
    ensures |x| <= n ==> NoLongerThan(kept + [x], n) == NoLongerThan(before + [x], n)
  {
    NoLongerThanSnoc(before, x, n);
    NoLongerThanSnoc(kept, x, n);
    if |x| > n {
      assert NoLongerThan(before, n) + [] == NoLongerThan(before, n);
    } else {
      NoLongerThanTwice(kept, n, |x|);
      NoLongerThanTwice(before, n, |x|);
      NoLongerThanSnoc(kept, x, |x|);
      NoLongerThanSnoc(before, x, |x|);
    }
  }

  lemma SnocAssoc(a: seq<string>, b: seq<string>, x: string)
    ensures a + (b + [x]) == (a + b) + [x]
  {
  }

  /** The running-minimum inner loop of one round: routes longer than the shortest
      seen so far are skipped, the others are kept. */
  method KeepShortest(kept0: seq<string>, shortest0: nat, ghost seen: seq<string>, batch: seq<string>)
    returns (kept: seq<string>, shortest: nat)
    requires shortest0 == MinLength(seen)
    requires NoLongerThan(kept0, shortest0) == NoLongerThan(seen, shortest0)
    ensures shortest == MinLength(seen + batch)
    ensures NoLongerThan(kept, shortest) == NoLongerThan(seen + batch, shortest)
  {
    kept, shortest := kept0, shortest0;
    var j := 0;
    assert seen + batch[..0] == seen;
    while j < |batch|
      invariant 0 <= j <= |batch|
      invariant shortest == MinLength(seen + batch[..j])
      invariant NoLongerThan(kept, shortest) == NoLongerThan(seen + batch[..j], shortest)
    {
      var x := batch[j];
      ghost var before := seen + batch[..j];
      assert batch[..j + 1] == batch[..j] + [x];
      SnocAssoc(seen, batch[..j], x);
      MinLengthSnoc(before, x);
      KeepStep(kept, before, x, shortest);
      if |x| > shortest {
        j := j + 1;
        continue;
      } else if |x| < shortest {
        shortest := |x|;
      }
      kept := kept + [x];
      j := j + 1;
    }
    assert batch[..j] == batch;
  }

  lemma AllSeqsSnoc(routes: seq<Route>, m: RouteMap, i: nat)
    requires i < |routes|
    ensures AllSeqs(routes[..i + 1], m) ==
      match AllSeqs(routes[..i], m)
      case None => None
      case Some(prev) =>
        match KeySeqs(routes[i], 'A', m, [""])
        case None => None
        case Some(next) => Some(prev + next)
  {
    assert routes[..i + 1][..i] == routes[..i] && routes[..i + 1][i] == routes[i];
  }

  lemma {:induction false} AllSeqsPrefixNone(routes: seq<Route>, m: RouteMap, i: nat)
    requires i <= |routes| && AllSeqs(routes[..i], m).None?
    ensures AllSeqs(routes, m).None?
    decreases |routes| - i
  {
    if i < |routes| {
      AllSeqsSnoc(routes, m, i);
      AllSeqsPrefixNone(routes, m, i + 1);
    } else {
      assert routes[..i] == routes;
    }
  }

  /** One round of Compare's loop: all key sequences of the routes, keeping only
      the shortest, as DeleteLongSequences would. */
  method ShortestRound(routes: seq<Route>, m: RouteMap) returns (r: Option<seq<string>>)
    ensures r == Shortest(routes, m)
  {
    var kept: seq<string> := [];
    ghost var seen: seq<string> := [];
    var shortest: nat := U64_MAX;
    var i := 0;
    while i < |routes|
      invariant 0 <= i <= |routes|
      invariant AllSeqs(routes[..i], m) == Some(seen)
      invariant shortest == MinLength(seen)
      invariant NoLongerThan(kept, shortest) == NoLongerThan(seen, shortest)
    {
      AllSeqsSnoc(routes, m, i);
      var next := GetKeySequences(routes[i], m);
      if next.None? {
        AllSeqsPrefixNone(routes, m, i + 1);
        return None;
      }
      kept, shortest := KeepShortest(kept, shortest, seen, next.value);
      seen := seen + next.value;
      i := i + 1;
    }
    assert routes[..i] == routes;
    kept := EraseLonger(kept, shortest);
    return Some(kept);
  }

  /** Compare's memo: per ordered pair of routes, whether the first is better. */
  type CompareCache = map<(Route, Route), bool>

  /** Every cached verdict is the outcome of the race for some amount of fuel. */
  ghost predicate CompareSound(cache: CompareCache, m: RouteMap) {
    forall a, b :: (a, b) in cache ==> exists fuel: nat :: Race([a], [b], RoundOf(m), fuel) == Some(cache[(a, b)])
  }

  /** Compare: whether route a is the better way to type a pair of keys than route b,
      through the cache. The loop of the source has no bound; here it has fuel, and
      running out of it is a None. */
  method Compare(a: Route, b: Route, m: RouteMap, cache0: CompareCache, fuel: nat)
    returns (r: Option<bool>, cache: CompareCache)
    requires CompareSound(cache0, m)
    ensures (a, b) in cache0 ==> r == Some(cache0[(a, b)]) && cache == cache0
    ensures (a, b) !in cache0 ==> r == Race([a], [b], RoundOf(m), fuel)
    ensures (a, b) !in cache0 && r.Some? ==> cache == cache0[(a, b) := r.value][(b, a) := !r.value]
    ensures (a, b) !in cache0 && r.None? ==> cache == cache0
    ensures CompareSound(cache, m)
  {
    if (a, b) in cache0 {
      return Some(cache0[(a, b)]), cache0;
    }
    r := RaceLoop(a, b, m, fuel);
    if r.None? {
      return None, cache0;
    }
    RaceAntisymmetric([a], [b], RoundOf(m), fuel);
    CompareStaysSound(cache0, m, a, b, r.value, fuel);
    return r, cache0[(a, b) := r.value][(b, a) := !r.value];
  }

  /** The loop of Compare: rounds on both sides until the first routes differ in
      length, then whether a's is the shorter. */
  method RaceLoop(a: Route, b: Route, m: RouteMap, fuel: nat) returns (r: Option<bool>)
    ensures r == Race([a], [b], RoundOf(m), fuel)
  {
    var xs: seq<string> := [a];
    var ys: seq<string> := [b];
    var f := fuel;
    while |xs[0]| == |ys[0]|
      invariant xs != [] && ys != []
      invariant Race(xs, ys, RoundOf(m), f) == Race([a], [b], RoundOf(m), fuel)
      decreases f
    {
      var stop, nx, ny := RaceRound(xs, ys, m, f);
      if stop {
        return None;
      }
      xs, ys, f := nx, ny, f - 1;
    }
    return Some(|xs[0]| < |ys[0]|);
  }

  /** The body of Compare's loop: one round on both sides; stop when the fuel is
      out, a round fails or leaves no routes. */
  method RaceRound(xs: seq<Route>, ys: seq<Route>, m: RouteMap, f: nat)
    returns (stop: bool, xs': seq<Route>, ys': seq<Route>)
    requires xs != [] && ys != [] && |xs[0]| == |ys[0]|
    ensures stop ==> Race(xs, ys, RoundOf(m), f).None?
    ensures !stop ==> f > 0 && xs' != [] && ys' != []
    ensures !stop ==> Race(xs', ys', RoundOf(m), f - 1) == Race(xs, ys, RoundOf(m), f)
  {
    if f == 0 {
      return true, xs, ys;
    }
    var nx := ShortestRound(xs, m);
    assert nx == RoundOf(m)(xs);
    if nx.None? || nx.value == [] {
      return true, xs, ys;
    }
    var ny := ShortestRound(ys, m);
    assert ny == RoundOf(m)(ys);
    if ny.None? || ny.value == [] {
      return true, xs, ys;
    }
    RaceStep(xs, ys, RoundOf(m), f, nx.value, ny.value);
    return false, nx.value, ny.value;
  }

  /** One round of a race that is not decided yet. */
  lemma RaceStep(xs: seq<Route>, ys: seq<Route>, round: seq<Route> -> Option<seq<Route>>, fuel: nat,
                 xs': seq<Route>, ys': seq<Route>)
    requires xs != [] && ys != [] && |xs[0]| == |ys[0]| && fuel > 0
    requires round(xs) == Some(xs') && round(ys) == Some(ys')
    ensures Race(xs, ys, round, fuel) == Race(xs', ys', round, fuel - 1)
  {
  }

  /** Swapping the two sides of a race flips its verdict. */
  lemma {:induction false} RaceAntisymmetric(xs: seq<Route>, ys: seq<Route>,
                                             round: seq<Route> -> Option<seq<Route>>, fuel: nat)
    ensures Race(xs, ys, round, fuel).Some? ==> Race(ys, xs, round, fuel) == Some(!Race(xs, ys, round, fuel).value)
    decreases fuel
  {
    if xs != [] && ys != [] && |xs[0]| == |ys[0]| && fuel > 0 && round(xs).Some? && round(ys).Some? {
      RaceAntisymmetric(round(xs).value, round(ys).value, round, fuel - 1);
    }
  }

  /** A list of routes never wins against itself: that race never ends. */
  lemma {:induction false} RaceWithItself(xs: seq<Route>, round: seq<Route> -> Option<seq<Route>>, fuel: nat)
    ensures Race(xs, xs, round, fuel).None?
    decreases fuel
  {
    if xs != [] && fuel > 0 && round(xs).Some? {
      RaceWithItself(round(xs).value, round, fuel - 1);
    }
  }

  /** More fuel never changes a verdict already reached. */
  lemma {:induction false} RaceFuelMonotone(xs: seq<Route>, ys: seq<Route>,
                                            round: seq<Route> -> Option<seq<Route>>, fuel: nat, more: nat)
    requires fuel <= more && Race(xs, ys, round, fuel).Some?
    ensures Race(xs, ys, round, more) == Race(xs, ys, round, fuel)
    decreases fuel
  {
    if |xs[0]| == |ys[0]| {
      RaceFuelMonotone(round(xs).value, round(ys).value, round, fuel - 1, more - 1);
    }
  }

  lemma CompareStaysSound(cache0: CompareCache, m: RouteMap, a: Route, b: Route, v: bool, fuel: nat)
    requires CompareSound(cache0, m)
    requires Race([a], [b], RoundOf(m), fuel) == Some(v) && Race([b], [a], RoundOf(m), fuel) == Some(!v)
    ensures CompareSound(cache0[(a, b) := v][(b, a) := !v], m)
  {
    var cache := cache0[(a, b) := v][(b, a) := !v];
    forall x, y | (x, y) in cache
      ensures exists f: nat :: Race([x], [y], RoundOf(m), f) == Some(cache[(x, y)])
    {
      if (x, y) == (b, a) {
        assert Race([x], [y], RoundOf(m), fuel) == Some(cache[(x, y)]);
      } else if (x, y) == (a, b) {
        assert Race([x], [y], RoundOf(m), fuel) == Some(cache[(x, y)]);
      } else {
        assert cache[(x, y)] == cache0[(x, y)];
      }
    }
  }
}
