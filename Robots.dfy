/** The robots of 2024/14: each moves in a straight line on a torus of height ×
    width cells, and the map's four quadrants are counted. */
module Robots {
  import opened Common
  import opened Grid

  /** A robot: its position and its velocity per second. */
  datatype Robot = Robot(p: Pos, v: Pos)

  /** The remainder after Euclidean division does not see multiples of n. */
  lemma ModShift(x: int, k: int, n: int)
    requires n > 0
    ensures (x + n * k) % n == x % n
  {
    assert x == n * (x / n) + x % n;
    assert x + n * k == n * (x / n + k) + x % n;
    DivModUnique(x + n * k, n, x / n + k, x % n);
  }

  /** The remainder differs from its dividend by a multiple of n. */
  lemma ModOfMod(x: int, n: int)
    requires n > 0
    ensures (x % n - x) % n == 0
  {
    assert x == n * (x / n) + x % n;
    MulMod(n, -(x / n));
  }

  /** Reducing a summand first does not change the remainder. */
  lemma ModAddMod(x: int, y: int, n: int)
    requires n > 0
    ensures (x % n + y) % n == (x + y) % n
  {
    assert x == n * (x / n) + x % n;
    assert x % n + y == (x + y) + n * (-(x / n));
    ModShift(x + y, -(x / n), n);
  }

  /** C++'s remainder, moved up by n when negative, is the Euclidean remainder. */
  lemma FixSign(a: int, n: int)
    requires n > 0
    ensures var r := TruncMod(a, n); (if r < 0 then r + n else r) == a % n
  {
    if a < 0 {
      var q, m := (-a) / n, (-a) % n;
      assert -a == n * q + m;
      if m == 0 {
        DivModUnique(a, n, -q, 0);
      } else {
        assert a == n * (-q - 1) + (n - m);
        DivModUnique(a, n, -q - 1, n - m);
      }
    }
  }

  /** Where a robot stands after t seconds on the torus. */
  function Position(r: Robot, t: int, height: nat, width: nat): (q: Pos)
    requires height > 0 && width > 0
    ensures 0 <= q.i < height && 0 <= q.j < width
  {
    Pos((r.p.i + t * r.v.i) % height, (r.p.j + t * r.v.j) % width)
  }

  /** MoveRobot: the position advanced by seconds × velocity, wrapped back onto the
      map: within its bounds and congruent to the unwrapped position. */
  method MoveRobot(height: nat, width: nat, seconds: nat, robot: Robot) returns (robot': Robot)
    requires height > 0 && width > 0
    ensures 0 <= robot'.p.i < height && 0 <= robot'.p.j < width
    ensures (robot'.p.i - (robot.p.i + seconds * robot.v.i)) % height == 0
    ensures (robot'.p.j - (robot.p.j + seconds * robot.v.j)) % width == 0
    ensures robot'.v == robot.v
    ensures robot'.p == Position(robot, seconds, height, width)
  {
    var move := robot.v.Times(seconds);
    var i := TruncMod(robot.p.i + move.i, height);
    if i < 0 {
      i := i + height;
    }
    var j := TruncMod(robot.p.j + move.j + width, width);
    if j < 0 {
      j := j + width;
    }
    var x, y := robot.p.i + move.i, robot.p.j + move.j;
    FixSign(x, height);
    FixSign(y + width, width);
    ModShift(y, 1, width);
    ModOfMod(x, height);
    ModOfMod(y, width);
    assert x == robot.p.i + seconds * robot.v.i && y == robot.p.j + seconds * robot.v.j;
    assert i == x % height && j == y % width;
    robot' := Robot(Pos(i, j), robot.v);
  }

  /** One coordinate of PositionCompose. */
  lemma ComposeAxis(p: int, v: int, a: int, b: int, n: int)
    requires n > 0
    ensures ((p + a * v) % n + b * v) % n == (p + (a + b) * v) % n
  {
    Distrib(a, b, v);
    ModAddMod(p + a * v, b * v, n);
  }

  /** One coordinate of PositionPeriod. */
  lemma PeriodAxis(p: int, v: int, t: int, n: int, m: int)
    requires n > 0
    ensures (p + (t + n * m) * v) % n == (p + t * v) % n
  {
    Distrib(t, n * m, v);
    MulAssoc(n, m, v);
    ModShift(p + t * v, m * v, n);
  }

  /** Moving a seconds and then b seconds is moving a + b seconds. */
  lemma PositionCompose(r: Robot, a: int, b: int, height: nat, width: nat)
    requires height > 0 && width > 0
    ensures Position(Robot(Position(r, a, height, width), r.v), b, height, width)
         == Position(r, a + b, height, width)
  {
    ComposeAxis(r.p.i, r.v.i, a, b, height);
    ComposeAxis(r.p.j, r.v.j, a, b, width);
    var q := Position(r, a, height, width);
    assert q.i == (r.p.i + a * r.v.i) % height;
    assert q.j == (r.p.j + a * r.v.j) % width;
    var q2 := Position(Robot(q, r.v), b, height, width);
    assert q2.i == (q.i + b * r.v.i) % height;
    assert q2.j == (q.j + b * r.v.j) % width;
  }

  /** After height × width seconds every robot is back where it started. */
  lemma PositionPeriod(r: Robot, t: int, height: nat, width: nat)
    requires height > 0 && width > 0
    ensures Position(r, t + height * width, height, width) == Position(r, t, height, width)
  {
    PeriodAxis(r.p.i, r.v.i, t, height, width);
    PeriodAxis(r.p.j, r.v.j, t, width, height);
    assert width * height == height * width;
  }

  /** CalcQuadrants' classification: 0 top left, 1 top right, 2 bottom left,
      3 bottom right, none on the middle row or the middle column. */
  function Quadrant(p: Pos, midI: int, midJ: int): Option<nat> {
    if p.i < midI && p.j < midJ then Some(0)
    else if p.i < midI && p.j > midJ then Some(1)
    else if p.i > midI && p.j < midJ then Some(2)
    else if p.i > midI && p.j > midJ then Some(3)
    else None
  }

  /** A robot is in no quadrant exactly when it stands on the middle row or the
      middle column; quadrant q has its upper half in q < 2 and its left half in
      the even q. */
  lemma QuadrantSides(p: Pos, midI: int, midJ: int)
    ensures Quadrant(p, midI, midJ) == None <==> p.i == midI || p.j == midJ
    ensures Quadrant(p, midI, midJ).Some? ==>
      var q := Quadrant(p, midI, midJ).value;
      q < 4 && (q < 2 <==> p.i < midI) && (q % 2 == 0 <==> p.j < midJ)
  {
  }

  /** The number of robots in quadrant q (or, with None, on the middle lines). */
  function CountIn(robots: seq<Robot>, q: Option<nat>, midI: int, midJ: int): nat {
    if robots == [] then 0
    else
      CountIn(robots[..|robots| - 1], q, midI, midJ)
      + (if Quadrant(robots[|robots| - 1].p, midI, midJ) == q then 1 else 0)
  }

  /** The four quadrants and the middle lines share out all the robots. */
  lemma {:induction false} CountsPartition(robots: seq<Robot>, midI: int, midJ: int)
    ensures CountIn(robots, Some(0), midI, midJ) + CountIn(robots, Some(1), midI, midJ)
          + CountIn(robots, Some(2), midI, midJ) + CountIn(robots, Some(3), midI, midJ)
          + CountIn(robots, None, midI, midJ) == |robots|
  {
    if robots != [] {
      CountsPartition(robots[..|robots| - 1], midI, midJ);
    }
  }

  /** CalcQuadrants' loop: the count of each quadrant, in a vector of four. */
  method CountQuadrants(height: nat, width: nat, robots: seq<Robot>) returns (counts: seq<nat>)
    ensures |counts| == 4
    ensures forall q :: 0 <= q < 4 ==> counts[q] == CountIn(robots, Some(q), height / 2, width / 2)
  {
    var quadrants := new nat[4](_ => 0);
    var midJ := width / 2;
    var midI := height / 2;
    for k := 0 to |robots|
      invariant forall q :: 0 <= q < 4 ==> quadrants[q] == CountIn(robots[..k], Some(q), midI, midJ)
    {
      assert robots[..k + 1][..k] == robots[..k];
      var robot := robots[k];
      if robot.p.i < midI && robot.p.j < midJ {
        quadrants[0] := quadrants[0] + 1;
      } else if robot.p.i < midI && robot.p.j > midJ {
        quadrants[1] := quadrants[1] + 1;
      } else if robot.p.i > midI && robot.p.j < midJ {
        quadrants[2] := quadrants[2] + 1;
      } else if robot.p.i > midI && robot.p.j > midJ {
        quadrants[3] := quadrants[3] + 1;
      }
    }
    assert robots[..|robots|] == robots;
    counts := quadrants[..];
  }

  /** The product CalcQuadrants means to return (its result type is 64 bits wide). */
  function Safety(q0: nat, q1: nat, q2: nat, q3: nat): nat {
    q0 * q1 * q2 * q3
  }

  lemma WrapMul(a: nat, b: nat)
    ensures Wrap32(Wrap32(a) * b) == Wrap32(a * b)
  {
    var q := a / TWO_32;
    assert a == TWO_32 * q + Wrap32(a);
    assert Wrap32(a) * b == a * b + TWO_32 * (-(q * b));
    ModShift(a * b, -(q * b), TWO_32);
  }

  /** The product as the source computes it: the counts are 32-bit, so each
      multiplication wraps at 2^32 before the result is widened to 64 bits. */
  function SafetyAsWritten(q0: nat, q1: nat, q2: nat, q3: nat): (r: nat)
    ensures r == Wrap32(Safety(q0, q1, q2, q3))
  {
    WrapMul(q0 * q1, q2);
    WrapMul(Wrap32(q0 * q1) * q2, q3);
    WrapMul(q0 * q1 * q2, q3);
    Wrap32(Wrap32(Wrap32(q0 * q1) * q2) * q3)
  }

  /** 257 robots in each quadrant: the product 4362470401 comes out as 67503105. */
  lemma SafetyWraps()
    ensures Safety(257, 257, 257, 257) == 4362470401
    ensures SafetyAsWritten(257, 257, 257, 257) == 67503105
  {
  }

  /** The wrapped product is right whenever the true product fits in 32 bits. */
  lemma SafetyAgrees(q0: nat, q1: nat, q2: nat, q3: nat)
    requires Safety(q0, q1, q2, q3) < TWO_32
    ensures SafetyAsWritten(q0, q1, q2, q3) == Safety(q0, q1, q2, q3)
  {
  }

  /** CalcQuadrants, with the product taken at full width: the product of the four
      quadrants' counts. */
  method CalcQuadrants(height: nat, width: nat, robots: seq<Robot>) returns (r: nat)
    ensures r == Safety(CountIn(robots, Some(0), height / 2, width / 2), CountIn(robots, Some(1), height / 2, width / 2),
                        CountIn(robots, Some(2), height / 2, width / 2), CountIn(robots, Some(3), height / 2, width / 2))
  {
    var quadrants := CountQuadrants(height, width, robots);
    r := quadrants[0] * quadrants[1] * quadrants[2] * quadrants[3];
  }

  /** CalcQuadrants as the source writes it, with the 32-bit product. */
  method CalcQuadrantsAsWritten(height: nat, width: nat, robots: seq<Robot>) returns (r: nat)
    ensures r == SafetyAsWritten(CountIn(robots, Some(0), height / 2, width / 2), CountIn(robots, Some(1), height / 2, width / 2),
                                 CountIn(robots, Some(2), height / 2, width / 2), CountIn(robots, Some(3), height / 2, width / 2))
  {
    var quadrants := CountQuadrants(height, width, robots);
    r := Wrap32(Wrap32(Wrap32(quadrants[0] * quadrants[1]) * quadrants[2]) * quadrants[3]);
  }
}
