/** MoveRobot and WMoveRobot of 2024/15: one move of the robot on the narrow and
    on the wide map. The source updates the map and the robot's position through
    references; here both come in as values and go out as results. */
module Warehouse {
  import opened Grid
  import opened WarehouseMap
  import opened NarrowMoves
  import opened WideMoves
  import opened WidePush

  /** MoveRobot: the do-while loop walks the run of boxes in front of the robot;
      the BOX case falls through into the EMPTY case, which steps the robot. */
  method MoveRobot(grid: Board, robot: Pos, dir: Dir) returns (grid': Board, robot': Pos)
    requires Valid(grid, robot)
    ensures (grid', robot') == Step(grid, robot, dir)
    ensures Valid(grid', robot') && Tiles(grid') == Tiles(grid)
  {
    StepSound(grid, robot, dir);
    AheadTile(grid, robot, dir);
    var move := MoveDir(dir);
    var newPos := robot.Plus(move);
    grid', robot' := grid, robot;
    var tile := At(grid, newPos);
    if tile == Wall {
      return;
    }
    if tile == Box {
      ghost var prev := newPos;
      StepFrom(grid, newPos, dir);
      var lastBox := newPos.Plus(move);
      var afterBoxes := At(grid, lastBox);
      while afterBoxes == Box
        invariant Inside(grid, prev) && At(grid, prev) == Box && lastBox == prev.Plus(move)
        invariant Inside(grid, lastBox) && afterBoxes == At(grid, lastBox)
        invariant RunEnd(grid, prev, dir) == RunEnd(grid, newPos, dir)
        decreases Reach(grid, lastBox, dir)
      {
        StepFrom(grid, lastBox, dir);
        prev := lastBox;
        lastBox := lastBox.Plus(move);
        afterBoxes := At(grid, lastBox);
      }
      if afterBoxes == Wall {
        return;
      }
      grid' := Put(grid', lastBox, Box);
    }
    grid' := Put(grid', robot, Empty);
    grid' := Put(grid', newPos, Robot);
    robot' := newPos;
  }

  /** The wide move is blocked: a wall ahead, or a box ahead that no closed set
      of halves can move. */
  ghost predicate Blocked(b: Board, robot: Pos, d: Dir)
    requires WideValid(b, robot)
  {
    WideAhead(b, robot, d);
    var q := robot.Plus(MoveDir(d));
    At(b, q) == Wall || (IsHalf(At(b, q)) && !exists Q :: q in Q && Closed(b, Q, d))
  }

  /** The cells a push lists, and the cells they move to, are on the map. */
  lemma PushedInside(b: Board, s: seq<Pos>, robot: Pos, d: Dir)
    requires WideValid(b, robot) && Pushed(b, SetOf(s), robot, d)
    requires At(b, robot.Plus(MoveDir(d))) != Empty
    ensures forall i :: 0 <= i < |s| ==> Inside(b, s[i]) && Inside(b, s[i].Plus(MoveDir(d)))
  {
    forall i | 0 <= i < |s|
      ensures Inside(b, s[i]) && Inside(b, s[i].Plus(MoveDir(d)))
    {
      assert ClosedAt(b, SetOf(s), d, s[i]);
    }
  }

  /** Nothing shifted is the map itself. */
  lemma ShiftedNothing(b: Board, d: Dir)
    ensures Shifted(b, {}, d) == b
  {
    BoardsEqual(Shifted(b, {}, d), b);
  }

  /** WMoveRobot's shifting loop: the listed cells moved one step, the last
      first. */
  method ShiftPushed(grid: Board, pushed: seq<Pos>, dir: Dir) returns (grid': Board)
    requires PushOrder(grid, pushed, dir)
    requires forall i :: 0 <= i < |pushed| ==> Inside(grid, pushed[i].Plus(MoveDir(dir)))
    ensures grid' == Shifted(grid, SetOf(pushed), dir)
  {
    var move := MoveDir(dir);
    grid' := grid;
    var p := |pushed|;
    while p > 0
      invariant 0 <= p <= |pushed| && grid' == ShiftFrom(grid, pushed, p, dir)
    {
      p := p - 1;
      var boxFrom := pushed[p];
      var boxTo := boxFrom.Plus(move);
      grid' := Put(grid', boxTo, At(grid', boxFrom));
      grid' := Put(grid', boxFrom, Empty);
    }
    ShiftFromShifted(grid, pushed, dir);
  }

  /** The map after the robot's step onto the cell the push cleared. */
  lemma StepAfterPush(b: Board, P: set<Pos>, robot: Pos, d: Dir, shifted: Board, r: Board)
    requires WideValid(b, robot) && Pushed(b, P, robot, d) && At(b, robot.Plus(MoveDir(d))) != Wall
    requires shifted == Shifted(b, P, d)
    requires Inside(shifted, robot) && Inside(Put(shifted, robot, Empty), robot.Plus(MoveDir(d)))
    requires r == Put(Put(shifted, robot, Empty), robot.Plus(MoveDir(d)), Robot)
    ensures r == Moved(b, P, robot, d) && WideValid(r, robot.Plus(MoveDir(d)))
  {
    PushedFrame(b, P, robot, d);
    MovedValid(b, P, robot, d);
  }

  /** WMoveRobot: a box half ahead asks CanPushNS or CanPushEW what the move
      pushes; the listed cells are then moved one step, the last first, and the
      case falls through into the EMPTY case, which steps the robot. */
  method WMoveRobot(grid: Board, robot: Pos, dir: Dir) returns (grid': Board, robot': Pos)
    requires WideValid(grid, robot)
    ensures WideValid(grid', robot')
    ensures robot' == robot || robot' == robot.Plus(MoveDir(dir))
    ensures robot' == robot <==> Blocked(grid, robot, dir)
    ensures robot' == robot ==> grid' == grid
    ensures robot' != robot ==>
      exists P :: Pushed(grid, P, robot, dir) && grid' == Moved(grid, P, robot, dir)
  {
    var move := MoveDir(dir);
    var newPos := robot.Plus(move);
    WideAhead(grid, robot, dir);
    var tile := At(grid, newPos);
    grid', robot' := grid, robot;
    if tile == Wall {
      return;
    }
    var pushed: seq<Pos> := [];
    var shifted := grid;
    if tile == WBoxLeft || tile == WBoxRight {
      var ok: bool;
      if dir == N || dir == S {
        var from: seq<Pos>;
        if tile == WBoxLeft {
          from := [newPos, Pos(newPos.i, newPos.j + 1)];
        } else {
          from := [Pos(newPos.i, newPos.j - 1), newPos];
        }
        ok, pushed := CanPushNS(grid, from, dir, robot);
      } else {
        ok, pushed := CanPushEW(grid, newPos, dir, robot);
      }
      if !ok {
        return;
      }
      PushedInside(grid, pushed, robot, dir);
      shifted := ShiftPushed(grid, pushed, dir);
    } else {
      ShiftedNothing(grid, dir);
    }
    grid' := Put(shifted, robot, Empty);
    grid' := Put(grid', newPos, Robot);
    robot' := newPos;
    StepAfterPush(grid, SetOf(pushed), robot, dir, shifted, grid');
  }
}
