/** CanPushEW and CanPushNS of 2024/15: which box halves a move of the robot on
    the wide map pushes, or that the move is blocked. Both are proved against the
    push sets of WideMoves: when the push can go, the cells listed are exactly the
    least closed set of the half ahead of the robot, in an order the shifting loop
    can follow; when it cannot, no closed set holds that half. */
module WidePush {
  import opened Grid
  import opened WarehouseMap
  import opened WideMoves

  /** The run of halves CanPushEW has listed: it starts at `from`, each cell is
      one step past the one before, each is a half whose push is forced, and the
      k-th lies k + 1 steps ahead of the robot. The first half's box reaches away
      from the robot. */
  ghost predicate Run(b: Board, from: Pos, robot: Pos, d: Dir, s: seq<Pos>) {
    Rect(b) && Inside(b, robot) && |s| >= 1 && s[0] == from
    && (forall k :: 0 <= k < |s| ==>
          Inside(b, s[k]) && IsHalf(At(b, s[k])) && Forced(b, from, d, s[k])
          && Reach(b, s[k], d) + k + 1 == Reach(b, robot, d))
    && (forall k :: 0 < k < |s| ==> s[k] == s[k - 1].Plus(MoveDir(d)))
    && Partner(b, from) == from.Plus(MoveDir(d))
  }

  /** The half in front of a robot moving east or west belongs to a box that
      reaches away from the robot. */
  lemma RunStart(b: Board, robot: Pos, d: Dir)
    requires WideValid(b, robot) && (d == E || d == W)
    requires Inside(b, robot.Plus(MoveDir(d))) && IsHalf(At(b, robot.Plus(MoveDir(d))))
    ensures Run(b, robot.Plus(MoveDir(d)), robot, d, [robot.Plus(MoveDir(d))])
  {
    var from := robot.Plus(MoveDir(d));
    StepFrom(b, robot, d);
    assert PairedAt(b, from);
    assert West(from) == robot || East(from) == robot;
  }

  /** The run grows by the half in front of its last cell. */
  lemma RunGrow(b: Board, from: Pos, robot: Pos, d: Dir, s: seq<Pos>)
    requires Enclosed(b) && Run(b, from, robot, d, s)
    requires Inside(b, s[|s| - 1].Plus(MoveDir(d))) && IsHalf(At(b, s[|s| - 1].Plus(MoveDir(d))))
    ensures Run(b, from, robot, d, s + [s[|s| - 1].Plus(MoveDir(d))])
  {
    var x := s[|s| - 1];
    ForcedNext(b, from, d, x);
    StepFrom(b, x, d);
  }

  /** Past the run there is an empty cell or a wall. */
  lemma RunStop(b: Board, from: Pos, robot: Pos, d: Dir, s: seq<Pos>)
    requires WideValid(b, robot) && Run(b, from, robot, d, s)
    ensures Inside(b, s[|s| - 1].Plus(MoveDir(d)))
    ensures Reach(b, s[|s| - 1].Plus(MoveDir(d)), d) + |s| + 1 == Reach(b, robot, d)
    ensures !IsHalf(At(b, s[|s| - 1].Plus(MoveDir(d)))) ==>
      At(b, s[|s| - 1].Plus(MoveDir(d))) in {Empty, Wall}
  {
    var x := s[|s| - 1];
    StepFrom(b, x, d);
  }

  /** A run ending at an empty cell is the least closed set of its first cell. */
  lemma RunClosed(b: Board, from: Pos, robot: Pos, d: Dir, s: seq<Pos>)
    requires WideValid(b, robot) && (d == E || d == W) && Run(b, from, robot, d, s)
    requires Inside(b, s[|s| - 1].Plus(MoveDir(d))) && At(b, s[|s| - 1].Plus(MoveDir(d))) == Empty
    ensures PushOrder(b, s, d) && Closed(b, SetOf(s), d)
    ensures Least(b, SetOf(s), from, d) && Ahead(b, SetOf(s), robot, d)
  {
    forall p
      ensures ClosedAt(b, SetOf(s), d, p)
    {
      if p in s {
        var k :| 0 <= k < |s| && s[k] == p;
        RunCell(b, from, robot, d, s, k);
      }
    }
    forall x | x in SetOf(s)
      ensures Forced(b, from, d, x)
    {
      var k :| 0 <= k < |s| && s[k] == x;
    }
    ForcedLeast(b, SetOf(s), from, d);
  }

  /** One cell of a run ending at an empty cell: its partner and the cell in
      front of it are in the run, or the latter is that empty cell. */
  lemma RunCell(b: Board, from: Pos, robot: Pos, d: Dir, s: seq<Pos>, k: nat)
    requires WideValid(b, robot) && (d == E || d == W) && Run(b, from, robot, d, s)
    requires Inside(b, s[|s| - 1].Plus(MoveDir(d))) && At(b, s[|s| - 1].Plus(MoveDir(d))) == Empty
    requires k < |s|
    ensures ClosedAt(b, SetOf(s), d, s[k])
  {
    var x := s[k];
    var m := MoveDir(d);
    assert PairedAt(b, x);
    if k + 1 < |s| {
      assert s[k + 1] == x.Plus(m);
    }
    if k > 0 {
      assert s[k] == s[k - 1].Plus(m);
    }
  }

  /** A run ending at a wall: no closed set holds its first cell. */
  lemma RunBlocked(b: Board, from: Pos, robot: Pos, d: Dir, s: seq<Pos>)
    requires Run(b, from, robot, d, s)
    requires Inside(b, s[|s| - 1].Plus(MoveDir(d))) && At(b, s[|s| - 1].Plus(MoveDir(d))) == Wall
    ensures !exists Q :: from in Q && Closed(b, Q, d)
  {
    ForcedBlocked(b, from, d, s[|s| - 1]);
  }

  /** CanPushEW: the run of halves from the one in front of the robot up to the
      first cell that is no half; the push can go when that cell is empty. */
  method CanPushEW(grid: Board, from: Pos, dir: Dir, ghost robot: Pos) returns (ok: bool, pushed: seq<Pos>)
    requires WideValid(grid, robot) && (dir == E || dir == W)
    requires from == robot.Plus(MoveDir(dir)) && Inside(grid, from) && IsHalf(At(grid, from))
    ensures ok <==> exists Q :: from in Q && Closed(grid, Q, dir)
    ensures ok ==> |pushed| >= 1 && pushed[0] == from
    ensures ok ==> forall k :: 0 < k < |pushed| ==> pushed[k] == pushed[k - 1].Plus(MoveDir(dir))
    ensures ok ==> PushOrder(grid, pushed, dir) && Pushed(grid, SetOf(pushed), robot, dir)
    ensures !ok ==> pushed == []
  {
    var move := MoveDir(dir);
    RunStart(grid, robot, dir);
    // The do-while loop: its first pass, then the loop.
    pushed := [from];
    RunStop(grid, from, robot, dir, pushed);
    var lastBox := from.Plus(move);
    var afterBoxes := At(grid, lastBox);
    while IsHalf(afterBoxes)
      invariant Run(grid, from, robot, dir, pushed)
      invariant lastBox == pushed[|pushed| - 1].Plus(move) && Inside(grid, lastBox)
      invariant afterBoxes == At(grid, lastBox)
      decreases Reach(grid, lastBox, dir)
    {
      RunGrow(grid, from, robot, dir, pushed);
      pushed := pushed + [lastBox];
      RunStop(grid, from, robot, dir, pushed);
      lastBox := lastBox.Plus(move);
      afterBoxes := At(grid, lastBox);
    }
    match afterBoxes
    case Wall =>
      RunBlocked(grid, from, robot, dir, pushed);
      return false, [];
    case Empty =>
      RunClosed(grid, from, robot, dir, pushed);
      return true, pushed;
    case _ =>
      assert false;
  }

  /** A cell CanPushNS lists: a half ahead of the robot that the push is forced
      to move. */
  ghost predicate Cell(b: Board, q: Pos, robot: Pos, d: Dir, x: Pos) {
    Rect(b) && Inside(b, robot) && Inside(b, x) && IsHalf(At(b, x)) && Forced(b, q, d, x)
    && Reach(b, x, d) < Reach(b, robot, d)
  }

  /** y, when in Row, is a listed cell lvl steps from the edge, with its partner in Row. */
  ghost predicate InLevel(b: Board, q: Pos, robot: Pos, d: Dir, Row: set<Pos>, lvl: int, y: Pos) {
    y in Row ==> Cell(b, q, robot, d, y) && Reach(b, y, d) == lvl && Partner(b, y) in Row
  }

  /** Row is one row of CanPushNS's search: whole boxes, all lvl steps from the edge. */
  ghost predicate LevelSet(b: Board, q: Pos, robot: Pos, d: Dir, Row: set<Pos>, lvl: int) {
    forall y :: InLevel(b, q, robot, d, Row, lvl, y)
  }

  ghost predicate Distinct(s: seq<Pos>) {
    forall i, j :: 0 <= i < j < |s| ==> s[i] != s[j]
  }

  /** The cells listed so far: in push order, forced, none nearer the edge than lvl. */
  ghost predicate Done(b: Board, q: Pos, robot: Pos, d: Dir, s: seq<Pos>, lvl: int) {
    PushOrder(b, s, d)
    && forall k :: 0 <= k < |s| ==> Cell(b, q, robot, d, s[k]) && Reach(b, s[k], d) >= lvl
  }

  /** The other half of x's box is in T, and so is the cell in front of x unless
      it is empty. */
  ghost predicate Succ(b: Board, d: Dir, x: Pos, T: set<Pos>) {
    Inside(b, x) && Partner(b, x) in T && Inside(b, x.Plus(MoveDir(d)))
    && (x.Plus(MoveDir(d)) in T || At(b, x.Plus(MoveDir(d))) == Empty)
  }

  ghost predicate AllSucc(b: Board, d: Dir, s: seq<Pos>, T: set<Pos>) {
    forall k :: 0 <= k < |s| ==> Succ(b, d, s[k], T)
  }

  /** The box in front of the robot and its partner, as WMoveRobot lists them
      for CanPushNS: left half first. */
  function FirstRow(b: Board, q: Pos): seq<Pos>
    requires Inside(b, q)
  {
    if At(b, q) == WBoxLeft then [q, East(q)] else [West(q), q]
  }

  /** The box in front of the robot is the first row of the search. */
  lemma NSStart(b: Board, robot: Pos, d: Dir)
    requires WideValid(b, robot) && (d == N || d == S)
    requires Inside(b, robot.Plus(MoveDir(d))) && IsHalf(At(b, robot.Plus(MoveDir(d))))
    ensures var q := robot.Plus(MoveDir(d));
      LevelSet(b, q, robot, d, SetOf(FirstRow(b, q)), Reach(b, q, d))
      && Distinct(FirstRow(b, q)) && q in FirstRow(b, q)
  {
    var q := robot.Plus(MoveDir(d));
    StepFrom(b, robot, d);
    assert PairedAt(b, q);
    var p := Partner(b, q);
    ForcedPartner(b, q, d, q);
    assert PairedAt(b, p);
    assert Reach(b, p, d) == Reach(b, q, d) by {
      assert |b[p.i]| == |b[0]| && |b[q.i]| == |b[0]|;
    }
    assert SetOf(FirstRow(b, q)) == {q, p};
    forall y
      ensures InLevel(b, q, robot, d, {q, p}, Reach(b, q, d), y)
    {
    }
  }

  /** Listing the next cell of the current row keeps the push order; the cell in
      front of it is one row on and holds no narrow box and no robot. */
  lemma NSVisit(b: Board, q: Pos, robot: Pos, d: Dir, pushed0: seq<Pos>, push: seq<Pos>, idx: nat, lvl: int,
                pushed: seq<Pos>)
    requires WideValid(b, robot)
    requires LevelSet(b, q, robot, d, SetOf(push), lvl) && Distinct(push) && idx < |push|
    requires pushed == pushed0 + push[..idx]
    requires Done(b, q, robot, d, pushed0, lvl + 1) && Done(b, q, robot, d, pushed, lvl)
    ensures pushed + [push[idx]] == pushed0 + push[..idx + 1]
    ensures Done(b, q, robot, d, pushed + [push[idx]], lvl)
    ensures Cell(b, q, robot, d, push[idx]) && Partner(b, push[idx]) in SetOf(push)
    ensures Inside(b, push[idx].Plus(MoveDir(d))) && Reach(b, push[idx].Plus(MoveDir(d)), d) + 1 == lvl
    ensures At(b, push[idx].Plus(MoveDir(d))) in {Wall, Empty, WBoxLeft, WBoxRight}
  {
    var x := push[idx];
    assert InLevel(b, q, robot, d, SetOf(push), lvl, x);
    StepFrom(b, x, d);
    var s := pushed;
    assert push[..idx + 1] == push[..idx] + [x];
    forall i | 0 <= i < |s|
      ensures s[i] != x && Reach(b, x, d) <= Reach(b, s[i], d)
    {
      if i >= |pushed0| {
        assert s[i] == push[i - |pushed0|];
      }
    }
  }

  /** Adding a box whose half stands in front of a listed cell keeps the next row
      whole. */
  lemma NSAdd(b: Board, q: Pos, robot: Pos, d: Dir, Row: set<Pos>, x: Pos, lvl: int)
    requires WideValid(b, robot) && (d == N || d == S) && LevelSet(b, q, robot, d, Row, lvl)
    requires Cell(b, q, robot, d, x) && Inside(b, x.Plus(MoveDir(d)))
    requires IsHalf(At(b, x.Plus(MoveDir(d)))) && Reach(b, x.Plus(MoveDir(d)), d) == lvl
    ensures LevelSet(b, q, robot, d, Row + {x.Plus(MoveDir(d)), Partner(b, x.Plus(MoveDir(d)))}, lvl)
  {
    var y := x.Plus(MoveDir(d));
    var p := Partner(b, y);
    var Row' := Row + {y, p};
    ForcedNext(b, q, d, x);
    ForcedPartner(b, q, d, y);
    assert PairedAt(b, y) && PairedAt(b, p);
    assert Reach(b, p, d) == Reach(b, y, d) by {
      assert |b[p.i]| == |b[0]| && |b[y.i]| == |b[0]|;
    }
    forall z
      ensures InLevel(b, q, robot, d, Row', lvl, z)
    {
      assert InLevel(b, q, robot, d, Row, lvl, z);
    }
  }

  /** A row that is not empty lies at a level on the grid. */
  lemma LevelLow(b: Board, q: Pos, robot: Pos, d: Dir, s: seq<Pos>, lvl: int)
    requires LevelSet(b, q, robot, d, SetOf(s), lvl)
    ensures s != [] ==> lvl >= 0
  {
    if s != [] {
      assert InLevel(b, q, robot, d, SetOf(s), lvl, s[0]);
    }
  }

  /** A listed cell whose successors are in T joins the cells with that property. */
  lemma SuccAppend(b: Board, d: Dir, s: seq<Pos>, T: set<Pos>, T': set<Pos>, x: Pos)
    requires AllSucc(b, d, s, T) && T <= T' && Succ(b, d, x, T')
    ensures AllSucc(b, d, s + [x], T')
  {
  }

  /** A row finished: what was listed from it and the next row together. */
  lemma NSRow(b: Board, q: Pos, robot: Pos, d: Dir, pushed: seq<Pos>, push: seq<Pos>, next: seq<Pos>, Row: set<Pos>)
    requires AllSucc(b, d, pushed, SetOf(push) + Row) && SetOf(next) == Row && SetOf(push) <= SetOf(pushed)
    ensures AllSucc(b, d, pushed, SetOf(pushed + next))
  {
  }

  /** A listed cell of a finished search: it is a forced half ahead of the
      robot, and the set of listed cells is closed at it. */
  lemma NSCell(b: Board, q: Pos, robot: Pos, d: Dir, pushed: seq<Pos>, lvl: int, x: Pos)
    requires Done(b, q, robot, d, pushed, lvl) && AllSucc(b, d, pushed, SetOf(pushed)) && x in pushed
    ensures ClosedAt(b, SetOf(pushed), d, x) && Forced(b, q, d, x)
    ensures Inside(b, x) && Reach(b, x, d) < Reach(b, robot, d)
  {
    var k :| 0 <= k < |pushed| && pushed[k] == x;
    assert Succ(b, d, pushed[k], SetOf(pushed)) && Cell(b, q, robot, d, pushed[k]);
  }

  /** The search ends with every row done: the listed cells are the least
      closed set of q. */
  lemma NSClosed(b: Board, q: Pos, robot: Pos, d: Dir, pushed: seq<Pos>, lvl: int)
    requires Rect(b) && Inside(b, robot) && Inside(b, q) && At(b, q) != Empty
    requires q == robot.Plus(MoveDir(d))
    requires Done(b, q, robot, d, pushed, lvl) && AllSucc(b, d, pushed, SetOf(pushed)) && q in pushed
    ensures Pushed(b, SetOf(pushed), robot, d) && PushOrder(b, pushed, d)
    ensures exists Q :: q in Q && Closed(b, Q, d)
  {
    var P := SetOf(pushed);
    forall p
      ensures ClosedAt(b, P, d, p) && (p in P ==> Forced(b, q, d, p) && Inside(b, p) && Reach(b, p, d) < Reach(b, robot, d))
    {
      if p in pushed {
        NSCell(b, q, robot, d, pushed, lvl, p);
      }
    }
    ForcedLeast(b, P, q, d);
    assert q in P && Closed(b, P, d);
  }

  /** The cells of a set, in some order (the source walks its hash set). */
  method ListOf(s: set<Pos>) returns (r: seq<Pos>)
    ensures SetOf(r) == s && Distinct(r)
  {
    r := [];
    var rest := s;
    while rest != {}
      invariant SetOf(r) + rest == s && SetOf(r) !! rest && Distinct(r)
      decreases |rest|
    {
      var x :| x in rest;
      r := r + [x];
      rest := rest - {x};
    }
  }

  /** One pass of CanPushNS's outer loop: every cell of the row is listed, and
      the box halves in front of them make up the next row; a wall in front of
      one of them stops the search. */
  method ScanRow(grid: Board, push: seq<Pos>, pushed0: seq<Pos>, dir: Dir, ghost q: Pos, ghost robot: Pos,
                 ghost lvl: int)
    returns (ok: bool, pushed: seq<Pos>, newPush: set<Pos>)
    requires WideValid(grid, robot) && (dir == N || dir == S)
    requires LevelSet(grid, q, robot, dir, SetOf(push), lvl) && Distinct(push)
    requires Done(grid, q, robot, dir, pushed0, lvl + 1) && AllSucc(grid, dir, pushed0, SetOf(pushed0 + push))
    ensures ok ==> pushed == pushed0 + push
    ensures ok ==> LevelSet(grid, q, robot, dir, newPush, lvl - 1) && Done(grid, q, robot, dir, pushed, lvl)
    ensures ok ==> AllSucc(grid, dir, pushed, SetOf(pushed0 + push) + newPush)
    ensures !ok ==> forall Q :: q in Q ==> !Closed(grid, Q, dir)
  {
    var move := MoveDir(dir);
    pushed := pushed0;
    newPush := {};
    for idx := 0 to |push|
      invariant pushed == pushed0 + push[..idx]
      invariant LevelSet(grid, q, robot, dir, newPush, lvl - 1)
      invariant Done(grid, q, robot, dir, pushed, lvl)
      invariant AllSucc(grid, dir, pushed, SetOf(pushed0 + push) + newPush)
    {
      var pos := push[idx];
      NSVisit(grid, q, robot, dir, pushed0, push, idx, lvl, pushed);
      ghost var before := newPush;
      pushed := pushed + [pos];
      var newPos := pos.Plus(move);
      var tile := At(grid, newPos);
      match tile {
        case Wall =>
          ForcedBlocked(grid, q, dir, pos);
          return false, pushed, newPush;
        case Empty =>
        case WBoxLeft =>
          NSAdd(grid, q, robot, dir, newPush, pos, lvl - 1);
          newPush := newPush + {newPos, Pos(newPos.i, newPos.j + 1)};
        case WBoxRight =>
          NSAdd(grid, q, robot, dir, newPush, pos, lvl - 1);
          newPush := newPush + {newPos, Pos(newPos.i, newPos.j - 1)};
        case _ =>
          assert false;
      }
      SuccAppend(grid, dir, pushed0 + push[..idx], SetOf(pushed0 + push) + before,
        SetOf(pushed0 + push) + newPush, pos);
    }
    assert push[..|push|] == push;
    return true, pushed, newPush;
  }

  /** The state CanPushNS's outer loop keeps: the current row is the set of
      forced halves at level lvl, the cells listed before it are done, and every
      listed cell has its successors among the listed cells and the row. */
  ghost predicate Searching(grid: Board, q: Pos, robot: Pos, dir: Dir, pushed: seq<Pos>, push: seq<Pos>, lvl: int) {
    LevelSet(grid, q, robot, dir, SetOf(push), lvl) && Distinct(push)
    && Done(grid, q, robot, dir, pushed, lvl + 1)
    && AllSucc(grid, dir, pushed, SetOf(pushed + push))
    && q in pushed + push
    && lvl >= -1
  }

  /** CanPushNS: a row-by-row search from the box in front of the robot; each
      listed half pushes the box half in front of it, and a wall in front of any
      of them blocks the move. */
  method CanPushNS(grid: Board, from: seq<Pos>, dir: Dir, ghost robot: Pos) returns (ok: bool, pushed: seq<Pos>)
    requires WideValid(grid, robot) && (dir == N || dir == S)
    requires Inside(grid, robot.Plus(MoveDir(dir))) && IsHalf(At(grid, robot.Plus(MoveDir(dir))))
    requires from == FirstRow(grid, robot.Plus(MoveDir(dir)))
    ensures ok <==> exists Q :: robot.Plus(MoveDir(dir)) in Q && Closed(grid, Q, dir)
    ensures ok ==> PushOrder(grid, pushed, dir) && Pushed(grid, SetOf(pushed), robot, dir)
    ensures !ok ==> pushed == []
  {
    ghost var q := robot.Plus(MoveDir(dir));
    ghost var lvl: int := Reach(grid, q, dir);
    NSStart(grid, robot, dir);
    pushed := [];
    var push := from;
    while push != []
      invariant Searching(grid, q, robot, dir, pushed, push, lvl)
      decreases lvl + 1
    {
      LevelLow(grid, q, robot, dir, push, lvl);
      var rowOk, rowPushed, newPush := ScanRow(grid, push, pushed, dir, q, robot, lvl);
      if !rowOk {
        return false, [];
      }
      pushed := rowPushed;
      push := ListOf(newPush);
      NSRow(grid, q, robot, dir, pushed, pushed, push, newPush);
      lvl := lvl - 1;
    }
    NSClosed(grid, q, robot, dir, pushed, lvl + 1);
    return true, pushed;
  }
}
