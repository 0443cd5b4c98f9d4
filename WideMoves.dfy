/** The robot's moves on the wide map of 2024/15 (CanPushEW, CanPushNS and the
    box shifting of WMoveRobot). A push is described by the set of box halves it
    moves: the least set that holds the half in front of the robot, holds the
    other half of each of its boxes, and holds whatever half stands in front of
    one of its cells; the push is blocked when no such set avoids the walls. */
module WideMoves {
  import opened Grid
  import opened WarehouseMap
  import opened NarrowMoves

  function East(p: Pos): Pos {
    Pos(p.i, p.j + 1)
  }

  function West(p: Pos): Pos {
    Pos(p.i, p.j - 1)
  }

  /** Every left half has a right half east of it, and every right half a left
      half west of it. */
  predicate PairedAt(b: Board, p: Pos) {
    Inside(b, p) ==>
      (At(b, p) == WBoxLeft ==> Inside(b, East(p)) && At(b, East(p)) == WBoxRight)
      && (At(b, p) == WBoxRight ==> Inside(b, West(p)) && At(b, West(p)) == WBoxLeft)
  }

  ghost predicate Paired(b: Board) {
    forall p :: PairedAt(b, p)
  }

  /** A map the second part's moves keep: walled in, no narrow box, wide boxes
      whole, and the robot on the one ROBOT tile. Under it none of WMoveRobot's,
      CanPushEW's or CanPushNS's CHECKs can fail. */
  ghost predicate WideValid(b: Board, robot: Pos) {
    Enclosed(b) && Paired(b) && Inside(b, robot) && At(b, robot) == Robot
    && (forall p :: Inside(b, p) ==> At(b, p) != Box)
    && (forall p :: Inside(b, p) && At(b, p) == Robot ==> p == robot)
  }

  /** The cell holding the other half of the box at p. */
  function Partner(b: Board, p: Pos): Pos
    requires Inside(b, p)
  {
    if At(b, p) == WBoxLeft then East(p) else West(p)
  }

  /** P is a set of box halves that can all move one step in direction d: with
      each half it holds the other half of its box, and in front of each half
      there is another of its halves or an empty cell. */
  predicate ClosedAt(b: Board, P: set<Pos>, d: Dir, p: Pos) {
    p in P ==>
      Inside(b, p) && IsHalf(At(b, p)) && Partner(b, p) in P
      && Inside(b, p.Plus(MoveDir(d)))
      && (p.Plus(MoveDir(d)) in P || At(b, p.Plus(MoveDir(d))) == Empty)
  }

  ghost predicate Closed(b: Board, P: set<Pos>, d: Dir) {
    forall p :: ClosedAt(b, P, d, p)
  }

  /** P is the least closed set holding q: what a push from q moves. */
  ghost predicate Least(b: Board, P: set<Pos>, q: Pos, d: Dir) {
    q in P && Closed(b, P, d) && forall Q :: q in Q && Closed(b, Q, d) ==> P <= Q
  }

  /** Every cell of P lies ahead of the robot. */
  ghost predicate Ahead(b: Board, P: set<Pos>, robot: Pos, d: Dir)
    requires Rect(b) && Inside(b, robot)
  {
    forall p :: p in P ==> Inside(b, p) && Reach(b, p, d) < Reach(b, robot, d)
  }

  /** What the move of the robot at `robot` in direction d pushes: nothing when the
      cell ahead is empty, otherwise the least closed set of the half there. */
  ghost predicate Pushed(b: Board, P: set<Pos>, robot: Pos, d: Dir)
    requires Rect(b) && Inside(b, robot)
  {
    var q := robot.Plus(MoveDir(d));
    Inside(b, q) && (At(b, q) == Empty ==> P == {})
    && (At(b, q) != Empty ==> Least(b, P, q, d) && Ahead(b, P, robot, d))
  }

  /** A cell after the cells of P have moved one step in direction d: it takes
      the tile of the cell behind it when that one moved, it is left empty when
      its own tile moved away, and otherwise it keeps its tile. */
  function ShiftedAt(b: Board, P: set<Pos>, d: Dir, c: Pos): Tile
    requires Inside(b, c) && forall p :: p in P ==> Inside(b, p)
  {
    var s := c.Minus(MoveDir(d));
    if s in P then At(b, s) else if c in P then Empty else At(b, c)
  }

  /** The whole map after the cells of P have moved one step. */
  function Shifted(b: Board, P: set<Pos>, d: Dir): (r: Board)
    requires forall p :: p in P ==> Inside(b, p)
    ensures |r| == |b| && forall i :: 0 <= i < |b| ==> |r[i]| == |b[i]|
    ensures forall c :: Inside(b, c) ==> At(r, c) == ShiftedAt(b, P, d, c)
  {
    seq(|b|, i requires 0 <= i < |b| =>
      seq(|b[i]|, j requires 0 <= j < |b[i]| => ShiftedAt(b, P, d, Pos(i, j))))
  }

  /** The map after a move that pushes P: P shifted, then the robot's cell
      emptied and the robot written one cell ahead (the source's fall-through
      into the EMPTY case). */
  function Moved(b: Board, P: set<Pos>, robot: Pos, d: Dir): Board
    requires forall p :: p in P ==> Inside(b, p)
    requires Inside(b, robot) && Inside(b, robot.Plus(MoveDir(d)))
  {
    Put(Put(Shifted(b, P, d), robot, Empty), robot.Plus(MoveDir(d)), Robot)
  }

  /** The tile ahead of the robot is an empty cell, a wall or a box half. */
  lemma WideAhead(b: Board, robot: Pos, d: Dir)
    requires WideValid(b, robot)
    ensures Interior(b, robot)
    ensures Inside(b, robot.Plus(MoveDir(d)))
    ensures At(b, robot.Plus(MoveDir(d))) in {Empty, Wall, WBoxLeft, WBoxRight}
  {
    StepFrom(b, robot, d);
    assert robot.Plus(MoveDir(d)) != robot;
  }

  /** The cell behind p is one step farther from the edge. */
  lemma ReachBack(b: Board, p: Pos, d: Dir)
    requires Rect(b) && Inside(b, p)
    ensures Inside(b, p.Minus(MoveDir(d))) ==> Reach(b, p.Minus(MoveDir(d)), d) == Reach(b, p, d) + 1
  {
    assert |b[p.i]| == |b[0]|;
  }

  /** A set ahead of the robot does not hold the cell behind it. */
  lemma NotBehind(b: Board, robot: Pos, d: Dir, P: set<Pos>)
    requires Rect(b) && Inside(b, robot) && Ahead(b, P, robot, d)
    ensures robot.Minus(MoveDir(d)) !in P
  {
    ReachBack(b, robot, d);
  }

  /** The cells of a closed set, and the cells they move into, are off the edge. */
  lemma ClosedInterior(b: Board, P: set<Pos>, d: Dir, p: Pos)
    requires Enclosed(b) && Closed(b, P, d)
    ensures p in P ==> Inside(b, p) && Interior(b, p) && Interior(b, p.Plus(MoveDir(d)))
  {
    if p in P {
      assert ClosedAt(b, P, d, p) && ClosedAt(b, P, d, p.Plus(MoveDir(d)));
      StepFrom(b, p, d);
      StepFrom(b, p.Plus(MoveDir(d)), d);
    }
  }

  /** The facts about a push that the cells of the moved map depend on. */
  ghost predicate Frame(b: Board, P: set<Pos>, robot: Pos, d: Dir) {
    Paired(b) && Closed(b, P, d) && (forall p :: p in P ==> Inside(b, p))
    && Inside(b, robot) && At(b, robot) == Robot
    && robot.Minus(MoveDir(d)) !in P
    && Inside(b, robot.Plus(MoveDir(d)))
    && (robot.Plus(MoveDir(d)) in P || At(b, robot.Plus(MoveDir(d))) == Empty)
  }

  /** A cell of the moved map: the robot ahead, its old cell empty, the rest shifted. */
  lemma MovedAt(b: Board, P: set<Pos>, robot: Pos, d: Dir, c: Pos)
    requires forall p :: p in P ==> Inside(b, p)
    requires Inside(b, robot) && Inside(b, robot.Plus(MoveDir(d))) && Inside(b, c)
    ensures Inside(Moved(b, P, robot, d), c)
    ensures At(Moved(b, P, robot, d), c) ==
      if c == robot.Plus(MoveDir(d)) then Robot else if c == robot then Empty else ShiftedAt(b, P, d, c)
  {
    var s := Shifted(b, P, d);
    assert Inside(s, c) && Inside(s, robot);
    var s1 := Put(s, robot, Empty);
    assert Inside(s1, c) && Inside(s1, robot.Plus(MoveDir(d)));
  }

  /** A left half that moved: its right half moved beside it. */
  lemma LeftShifted(b: Board, P: set<Pos>, robot: Pos, d: Dir, c: Pos)
    requires Frame(b, P, robot, d) && Inside(b, c)
    requires c.Minus(MoveDir(d)) in P && At(b, c.Minus(MoveDir(d))) == WBoxLeft
    ensures Inside(b, East(c)) && ShiftedAt(b, P, d, East(c)) == WBoxRight
    ensures East(c) != robot && East(c) != robot.Plus(MoveDir(d))
  {
    var m := MoveDir(d);
    var s := c.Minus(m);
    var t := East(s);
    assert ClosedAt(b, P, d, s) && PairedAt(b, s);
    assert ClosedAt(b, P, d, t);
    assert t.Plus(m) == East(c) && East(c).Minus(m) == t;
  }

  /** A left half that stayed: its right half stayed beside it. */
  lemma LeftStayed(b: Board, P: set<Pos>, robot: Pos, d: Dir, c: Pos)
    requires Frame(b, P, robot, d) && Inside(b, c)
    requires c.Minus(MoveDir(d)) !in P && c !in P && At(b, c) == WBoxLeft
    ensures Inside(b, East(c)) && ShiftedAt(b, P, d, East(c)) == WBoxRight
    ensures East(c) != robot && East(c) != robot.Plus(MoveDir(d))
  {
    var m := MoveDir(d);
    var e := East(c);
    assert PairedAt(b, c);
    assert ClosedAt(b, P, d, e) && West(e) == c;
    assert ClosedAt(b, P, d, e.Minus(m)) && e.Minus(m).Plus(m) == e;
  }

  /** A right half that moved: its left half moved beside it. */
  lemma RightShifted(b: Board, P: set<Pos>, robot: Pos, d: Dir, c: Pos)
    requires Frame(b, P, robot, d) && Inside(b, c)
    requires c.Minus(MoveDir(d)) in P && At(b, c.Minus(MoveDir(d))) == WBoxRight
    ensures Inside(b, West(c)) && ShiftedAt(b, P, d, West(c)) == WBoxLeft
    ensures West(c) != robot && West(c) != robot.Plus(MoveDir(d))
  {
    var m := MoveDir(d);
    var s := c.Minus(m);
    var t := West(s);
    assert ClosedAt(b, P, d, s) && PairedAt(b, s);
    assert ClosedAt(b, P, d, t);
    assert t.Plus(m) == West(c) && West(c).Minus(m) == t;
  }

  /** A right half that stayed: its left half stayed beside it. */
  lemma RightStayed(b: Board, P: set<Pos>, robot: Pos, d: Dir, c: Pos)
    requires Frame(b, P, robot, d) && Inside(b, c)
    requires c.Minus(MoveDir(d)) !in P && c !in P && At(b, c) == WBoxRight
    ensures Inside(b, West(c)) && ShiftedAt(b, P, d, West(c)) == WBoxLeft
    ensures West(c) != robot && West(c) != robot.Plus(MoveDir(d))
  {
    var m := MoveDir(d);
    var w := West(c);
    assert PairedAt(b, c);
    assert ClosedAt(b, P, d, w) && East(w) == c;
    assert ClosedAt(b, P, d, w.Minus(m)) && w.Minus(m).Plus(m) == w;
  }

  /** What WMoveRobot relies on to keep its map: the map is valid and P is a
      closed set ahead of the robot that holds the cell in front of it unless
      that cell is empty. */
  ghost predicate PushFrame(b: Board, P: set<Pos>, robot: Pos, d: Dir) {
    WideValid(b, robot) && Frame(b, P, robot, d)
  }

  /** A cell of the moved map on the edge is still a wall. */
  lemma MovedEdge(b: Board, P: set<Pos>, robot: Pos, d: Dir, c: Pos)
    requires PushFrame(b, P, robot, d) && Inside(b, c) && !Interior(b, c)
    ensures At(Moved(b, P, robot, d), c) == Wall
  {
    var q := robot.Plus(MoveDir(d));
    StepFrom(b, robot, d);
    ClosedInterior(b, P, d, q);
    ClosedInterior(b, P, d, c);
    ClosedInterior(b, P, d, c.Minus(MoveDir(d)));
    if q !in P {
      StepFrom(b, q, d);
    }
    MovedAt(b, P, robot, d, c);
  }

  /** A half of the moved map has its other half beside it. */
  lemma MovedPaired(b: Board, P: set<Pos>, robot: Pos, d: Dir, c: Pos)
    requires PushFrame(b, P, robot, d) && Inside(b, c)
    ensures PairedAt(Moved(b, P, robot, d), c)
  {
    var m := MoveDir(d);
    var s := c.Minus(m);
    MovedAt(b, P, robot, d, c);
    if c != robot && c != robot.Plus(m) {
      if ShiftedAt(b, P, d, c) == WBoxLeft {
        if s in P {
          LeftShifted(b, P, robot, d, c);
        } else {
          LeftStayed(b, P, robot, d, c);
        }
        MovedAt(b, P, robot, d, East(c));
      } else if ShiftedAt(b, P, d, c) == WBoxRight {
        if s in P {
          RightShifted(b, P, robot, d, c);
        } else {
          RightStayed(b, P, robot, d, c);
        }
        MovedAt(b, P, robot, d, West(c));
      }
    }
  }

  /** The moved map has no narrow box and its one robot one step ahead. */
  lemma MovedRobot(b: Board, P: set<Pos>, robot: Pos, d: Dir, c: Pos)
    requires PushFrame(b, P, robot, d) && Inside(b, c)
    ensures At(Moved(b, P, robot, d), c) != Box
    ensures At(Moved(b, P, robot, d), c) == Robot ==> c == robot.Plus(MoveDir(d))
  {
    var s := c.Minus(MoveDir(d));
    MovedAt(b, P, robot, d, c);
    assert ClosedAt(b, P, d, s);
  }

  /** A move that pushes a closed set keeps the map valid, the robot one step
      ahead. */
  lemma MovedValid(b: Board, P: set<Pos>, robot: Pos, d: Dir)
    requires PushFrame(b, P, robot, d)
    ensures WideValid(Moved(b, P, robot, d), robot.Plus(MoveDir(d)))
  {
    var r := Moved(b, P, robot, d);
    var q := robot.Plus(MoveDir(d));
    forall c | Inside(r, c) && !Interior(r, c)
      ensures At(r, c) == Wall
    {
      MovedEdge(b, P, robot, d, c);
    }
    forall c
      ensures PairedAt(r, c)
    {
      if Inside(r, c) {
        MovedPaired(b, P, robot, d, c);
      }
    }
    forall c | Inside(r, c)
      ensures At(r, c) != Box && (At(r, c) == Robot ==> c == q)
    {
      MovedRobot(b, P, robot, d, c);
    }
    MovedAt(b, P, robot, d, q);
  }

  /** What a move pushes meets the frame MovedValid needs. */
  lemma PushedFrame(b: Board, P: set<Pos>, robot: Pos, d: Dir)
    requires WideValid(b, robot) && Pushed(b, P, robot, d)
    requires At(b, robot.Plus(MoveDir(d))) != Wall
    ensures PushFrame(b, P, robot, d)
  {
    NotBehind(b, robot, d, P);
  }

  /** x belongs to every closed set that holds q: a push from q has to move it. */
  ghost predicate Forced(b: Board, q: Pos, d: Dir, x: Pos) {
    forall Q :: q in Q && Closed(b, Q, d) ==> x in Q
  }

  /** A half forced to move pushes the tile in front of it, unless that is empty. */
  lemma ForcedNext(b: Board, q: Pos, d: Dir, x: Pos)
    requires Forced(b, q, d, x) && Inside(b, x.Plus(MoveDir(d))) && At(b, x.Plus(MoveDir(d))) != Empty
    ensures Forced(b, q, d, x.Plus(MoveDir(d)))
  {
    forall Q | q in Q && Closed(b, Q, d)
      ensures x.Plus(MoveDir(d)) in Q
    {
      assert ClosedAt(b, Q, d, x);
    }
  }

  /** A half forced to move takes the other half of its box along. */
  lemma ForcedPartner(b: Board, q: Pos, d: Dir, x: Pos)
    requires Forced(b, q, d, x) && Inside(b, x)
    ensures Forced(b, q, d, Partner(b, x))
  {
    forall Q | q in Q && Closed(b, Q, d)
      ensures Partner(b, x) in Q
    {
      assert ClosedAt(b, Q, d, x);
    }
  }

  /** A half forced to move with a wall in front of it: no push from q can go. */
  lemma ForcedBlocked(b: Board, q: Pos, d: Dir, x: Pos)
    requires Forced(b, q, d, x) && Inside(b, x.Plus(MoveDir(d))) && At(b, x.Plus(MoveDir(d))) == Wall
    ensures forall Q :: q in Q ==> !Closed(b, Q, d)
  {
    forall Q | q in Q
      ensures !Closed(b, Q, d)
    {
      if x in Q {
        assert !ClosedAt(b, Q, d, x) || !ClosedAt(b, Q, d, x.Plus(MoveDir(d)));
      }
    }
  }

  /** A closed set of forced cells is the least closed set. */
  lemma ForcedLeast(b: Board, P: set<Pos>, q: Pos, d: Dir)
    requires q in P && Closed(b, P, d) && forall x :: x in P ==> Forced(b, q, d, x)
    ensures Least(b, P, q, d)
  {
    forall Q | q in Q && Closed(b, Q, d)
      ensures P <= Q
    {
      forall x | x in P
        ensures x in Q
      {
        assert Forced(b, q, d, x);
      }
    }
  }

  function SetOf(s: seq<Pos>): set<Pos> {
    set x | x in s
  }

  /** The order CanPushEW and CanPushNS list the cells in: no cell twice, and
      none closer to the edge ahead than a cell after it. */
  ghost predicate PushOrder(b: Board, s: seq<Pos>, d: Dir) {
    Rect(b) && (forall i :: 0 <= i < |s| ==> Inside(b, s[i]))
    && (forall i, j :: 0 <= i < j < |s| ==> s[i] != s[j] && Reach(b, s[j], d) <= Reach(b, s[i], d))
  }

  lemma SetOfSuffix(s: seq<Pos>, k: nat)
    requires k < |s|
    ensures SetOf(s[k..]) == SetOf(s[k + 1..]) + {s[k]}
  {
    assert s[k..] == [s[k]] + s[k + 1..];
  }

  /** One cell moved one step: the cell ahead takes its tile and it is left empty
      (one pass of WMoveRobot's shifting loop). */
  function MoveCell(b: Board, c: Pos, d: Dir): (r: Board)
    requires Inside(b, c) && Inside(b, c.Plus(MoveDir(d)))
    ensures |r| == |b| && forall i :: 0 <= i < |b| ==> |r[i]| == |b[i]|
  {
    Put(Put(b, c.Plus(MoveDir(d)), At(b, c)), c, Empty)
  }

  /** The cells s[k..] moved one by one, the last first. */
  function ShiftFrom(b: Board, s: seq<Pos>, k: nat, d: Dir): (r: Board)
    requires k <= |s| && forall i :: 0 <= i < |s| ==> Inside(b, s[i]) && Inside(b, s[i].Plus(MoveDir(d)))
    ensures |r| == |b| && forall i :: 0 <= i < |b| ==> |r[i]| == |b[i]|
    decreases |s| - k
  {
    if k == |s| then b else MoveCell(ShiftFrom(b, s, k + 1, d), s[k], d)
  }

  /** A cell listed before the cells of s[k + 1..] is not one of them, nor is
      the cell behind it. */
  lemma NotLater(b: Board, s: seq<Pos>, k: nat, d: Dir)
    requires k < |s| && PushOrder(b, s, d)
    ensures s[k] !in SetOf(s[k + 1..]) && s[k].Minus(MoveDir(d)) !in SetOf(s[k + 1..])
  {
    var x := s[k];
    ReachBack(b, x, d);
    forall j | k < j < |s|
      ensures s[j] != x && s[j] != x.Minus(MoveDir(d))
    {
      assert Reach(b, s[j], d) <= Reach(b, x, d);
    }
  }

  /** Moving one more cell x, ahead of whatever has moved already, onto a map
      where the cells of S have moved. */
  lemma ShiftStep(b: Board, X: Board, S: set<Pos>, x: Pos, d: Dir)
    requires |X| == |b| && forall i :: 0 <= i < |b| ==> |X[i]| == |b[i]|
    requires forall p :: p in S ==> Inside(b, p)
    requires forall c :: Inside(b, c) ==> At(X, c) == ShiftedAt(b, S, d, c)
    requires Inside(b, x) && Inside(b, x.Plus(MoveDir(d))) && x !in S && x.Minus(MoveDir(d)) !in S
    ensures forall c :: Inside(b, c) ==> At(MoveCell(X, x, d), c) == ShiftedAt(b, S + {x}, d, c)
  {
    var m := MoveDir(d);
    assert Inside(X, x) && At(X, x) == At(b, x);
    var X1 := Put(X, x.Plus(m), At(X, x));
    forall c | Inside(b, c)
      ensures At(MoveCell(X, x, d), c) == ShiftedAt(b, S + {x}, d, c)
    {
      assert Inside(X, c) && Inside(X1, c) && Inside(X1, x);
      assert c == x.Plus(m) <==> c.Minus(m) == x;
    }
  }

  /** Moving the cells of s one by one from the last is moving them all at once. */
  lemma {:induction false} ShiftFromAt(b: Board, s: seq<Pos>, k: nat, d: Dir)
    requires k <= |s| && PushOrder(b, s, d)
    requires forall i :: 0 <= i < |s| ==> Inside(b, s[i].Plus(MoveDir(d)))
    ensures forall c :: Inside(b, c) ==> At(ShiftFrom(b, s, k, d), c) == ShiftedAt(b, SetOf(s[k..]), d, c)
    decreases |s| - k
  {
    if k < |s| {
      ShiftFromAt(b, s, k + 1, d);
      NotLater(b, s, k, d);
      SetOfSuffix(s, k);
      ShiftStep(b, ShiftFrom(b, s, k + 1, d), SetOf(s[k + 1..]), s[k], d);
    }
  }

  /** The shifting loop's result is the shifted map. */
  lemma ShiftFromShifted(b: Board, s: seq<Pos>, d: Dir)
    requires PushOrder(b, s, d)
    requires forall i :: 0 <= i < |s| ==> Inside(b, s[i].Plus(MoveDir(d)))
    ensures ShiftFrom(b, s, 0, d) == Shifted(b, SetOf(s), d)
  {
    ShiftFromAt(b, s, 0, d);
    assert s[0..] == s;
    var r := ShiftFrom(b, s, 0, d);
    var t := Shifted(b, SetOf(s), d);
    forall c | Inside(r, c)
      ensures At(r, c) == At(t, c)
    {
      assert Inside(b, c);
    }
    BoardsEqual(r, t);
  }

  /** A cell of the widened map of a valid narrow map: a wall on the edge, no
      narrow box, and the robot only on the left cell of the robot's pair. */
  lemma WidenCell(b: Board, robot: Pos, p: Pos)
    requires Valid(b, robot) && Inside(Widen(b), p)
    ensures !Interior(Widen(b), p) ==> At(Widen(b), p) == Wall
    ensures At(Widen(b), p) != Box
    ensures At(Widen(b), p) == Robot ==> p == Pos(robot.i, 2 * robot.j)
  {
    var c := Pos(p.i, p.j / 2);
    WidenAt(b, p);
    assert |b[p.i]| == |b[0]|;
    if c != robot && At(b, c) == Robot {
      TwoCells(b, c, robot);
    }
  }

  /** A box of the narrow map becomes a left half with its right half east of it. */
  lemma WidenPaired(b: Board, p: Pos)
    requires Narrow(b)
    ensures PairedAt(Widen(b), p)
  {
    WidenAt(b, p);
    if Inside(Widen(b), p) {
      if p.j % 2 == 0 {
        WidenAt(b, East(p));
      } else {
        WidenAt(b, West(p));
      }
    }
  }

  /** WidenMap turns a valid narrow map into a valid wide one, the robot on the
      left cell of its pair. */
  lemma WidenValid(b: Board, robot: Pos)
    requires Valid(b, robot)
    ensures WideValid(Widen(b), Pos(robot.i, 2 * robot.j))
  {
    var w := Widen(b);
    WidenAt(b, Pos(robot.i, 2 * robot.j));
    assert Rect(w) by {
      assert |w[0]| == 2 * |b[0]|;
    }
    forall p
      ensures PairedAt(w, p)
    {
      WidenPaired(b, p);
    }
    forall p | Inside(w, p)
      ensures (!Interior(w, p) ==> At(w, p) == Wall) && At(w, p) != Box
      ensures At(w, p) == Robot ==> p == Pos(robot.i, 2 * robot.j)
    {
      WidenCell(b, robot, p);
    }
  }
}
