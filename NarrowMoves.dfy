/** The robot's moves on the narrow map of 2024/15 (MoveRobot), as a function of
    the map and the robot's position, with what a move keeps. */
module NarrowMoves {
  import opened Grid
  import opened WarehouseMap

  /** A map the first part's moves keep: walled in, no wide-box halves, and the
      robot standing on the one ROBOT tile. Under it none of MoveRobot's CHECKs
      (the robot bumping into itself, a wide box) can fail. */
  ghost predicate Valid(b: Board, robot: Pos) {
    Enclosed(b) && Narrow(b) && Inside(b, robot) && At(b, robot) == Robot && Tiles(b)[Robot] == 1
  }

  /** The first cell past the run of boxes that starts at p (MoveRobot's do-while
      loop), and it is no box. */
  function RunEnd(b: Board, p: Pos, d: Dir): (e: Pos)
    requires Enclosed(b) && Inside(b, p) && At(b, p) == Box
    ensures Inside(b, e) && At(b, e) != Box && Reach(b, e, d) < Reach(b, p, d)
    decreases Reach(b, p, d)
  {
    StepFrom(b, p, d);
    var q := p.Plus(MoveDir(d));
    if At(b, q) == Box then RunEnd(b, q, d) else q
  }

  /** One move of MoveRobot: a wall ahead, or a run of boxes ending at a wall,
      leaves everything as it is; otherwise the box run (if any) gains a box at its
      end, and the robot steps forward. */
  function Step(b: Board, robot: Pos, d: Dir): (r: (Board, Pos))
    requires Valid(b, robot)
  {
    AheadTile(b, robot, d);
    var q := robot.Plus(MoveDir(d));
    match At(b, q)
    case Wall => (b, robot)
    case Box =>
      var e := RunEnd(b, q, d);
      if At(b, e) == Wall then (b, robot)
      else (Put(Put(Put(b, e, Box), robot, Empty), q, Robot), q)
    case Empty => (Put(Put(b, robot, Empty), q, Robot), q)
    case _ => assert false; (b, robot)
  }

  /** Robot == Empty only at q; the tile ahead of the robot is neither the robot
      nor a wide half. */
  lemma AheadTile(b: Board, robot: Pos, d: Dir)
    requires Valid(b, robot)
    ensures Inside(b, robot.Plus(MoveDir(d))) && At(b, robot.Plus(MoveDir(d))) in {Empty, Wall, Box}
  {
    StepFrom(b, robot, d);
    var q := robot.Plus(MoveDir(d));
    assert q != robot;
    if At(b, q) == Robot {
      TwoCells(b, q, robot);
    }
  }

  /** The end of a box run in front of the robot is an empty cell or a wall. */
  lemma RunEndTile(b: Board, robot: Pos, d: Dir)
    requires Valid(b, robot)
    requires Inside(b, robot.Plus(MoveDir(d))) && At(b, robot.Plus(MoveDir(d))) == Box
    ensures At(b, RunEnd(b, robot.Plus(MoveDir(d)), d)) in {Empty, Wall}
  {
    StepFrom(b, robot, d);
    var e := RunEnd(b, robot.Plus(MoveDir(d)), d);
    assert Reach(b, e, d) < Reach(b, robot, d);
    if At(b, e) == Robot {
      TwoCells(b, e, robot);
    }
  }

  /** What a move keeps: the new map is valid with the robot at its new place, the
      robot has moved one cell forward or not at all (and then nothing has changed,
      exactly when a wall is ahead or a box run ends at one), and the map holds the
      same tiles, so the same number of boxes. */
  lemma StepSound(b: Board, robot: Pos, d: Dir)
    requires Valid(b, robot)
    ensures Valid(Step(b, robot, d).0, Step(b, robot, d).1)
    ensures Tiles(Step(b, robot, d).0) == Tiles(b)
    ensures Tiles(Step(b, robot, d).0)[Box] == Tiles(b)[Box]
    ensures Step(b, robot, d).1 == robot || Step(b, robot, d).1 == robot.Plus(MoveDir(d))
    ensures Step(b, robot, d).1 == robot ==> Step(b, robot, d).0 == b
    ensures Step(b, robot, d).1 == robot <==>
      At(b, robot.Plus(MoveDir(d))) == Wall
      || (At(b, robot.Plus(MoveDir(d))) == Box && At(b, RunEnd(b, robot.Plus(MoveDir(d)), d)) == Wall)
  {
    AheadTile(b, robot, d);
    var q := robot.Plus(MoveDir(d));
    StepFrom(b, robot, d);
    if At(b, q) == Box {
      RunEndTile(b, robot, d);
      var e := RunEnd(b, q, d);
      if At(b, e) == Empty {
        StepFrom(b, q, d);
        StepFrom(b, e, d);
        PushStep(b, robot, q, e, Step(b, robot, d).0);
      }
    } else if At(b, q) == Empty {
      StepFrom(b, q, d);
      WalkStep(b, robot, q, Step(b, robot, d).0);
    }
  }

  /** A push: the run's end e gets a box, the robot's cell is emptied and the
      robot takes the first box's cell q. */
  lemma PushStep(b: Board, robot: Pos, q: Pos, e: Pos, r: Board)
    requires Valid(b, robot) && Inside(b, q) && Inside(b, e) && Interior(b, q) && Interior(b, e)
    requires q != robot && e != robot && e != q && At(b, q) == Box && At(b, e) == Empty
    requires r == Put(Put(Put(b, e, Box), robot, Empty), q, Robot)
    ensures Valid(r, q) && Tiles(r) == Tiles(b)
  {
    StepFrom(b, robot, N);
    var b1 := Put(b, e, Box);
    var b2 := Put(b1, robot, Empty);
    PutTiles(b, e, Box);
    PutTiles(b1, robot, Empty);
    PutTiles(b2, q, Robot);
    TradesCancel(Tiles(b), Tiles(b1), Tiles(b2), Tiles(r), Empty, Box, Robot);
    PutEnclosed(b, e, Box);
    PutEnclosed(b1, robot, Empty);
    PutEnclosed(b2, q, Robot);
    PutNarrow(b, e, Box);
    PutNarrow(b1, robot, Empty);
    PutNarrow(b2, q, Robot);
  }

  /** A step onto the empty cell q: the two cells trade their tiles. */
  lemma WalkStep(b: Board, robot: Pos, q: Pos, r: Board)
    requires Valid(b, robot) && Inside(b, q) && Interior(b, q) && q != robot && At(b, q) == Empty
    requires r == Put(Put(b, robot, Empty), q, Robot)
    ensures Valid(r, q) && Tiles(r) == Tiles(b)
  {
    StepFrom(b, robot, N);
    var b1 := Put(b, robot, Empty);
    PutTiles(b, robot, Empty);
    PutTiles(b1, q, Robot);
    TradeBack(Tiles(b), Tiles(b1), Tiles(r), Robot, Empty);
    PutEnclosed(b, robot, Empty);
    PutEnclosed(b1, q, Robot);
    PutNarrow(b, robot, Empty);
    PutNarrow(b1, q, Robot);
  }
}
