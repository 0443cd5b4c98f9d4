/** Grid positions and the four compass directions (aoc_lib/aoc.h). */
module Grid {
  import opened Common

  /** A (row, column) position; rows grow downwards. */
  datatype Pos = Pos(i: int, j: int) {
    function Plus(r: Pos): Pos {
      Pos(i + r.i, j + r.j)
    }

    function Minus(r: Pos): (p: Pos)
      ensures p.Plus(r) == this
    {
      Pos(i - r.i, j - r.j)
    }

    function Times(x: int): Pos {
      Pos(i * x, j * x)
    }

    /** Row-major order: by row first, then by column. */
    predicate Less(r: Pos) {
      i < r.i || (i == r.i && j < r.j)
    }
  }

  /** Offsets add as vectors: in either order, grouped either way, with the
      origin as the neutral offset. */
  lemma PlusLaws(p: Pos, q: Pos, r: Pos)
    ensures p.Plus(q) == q.Plus(p)
    ensures p.Plus(q).Plus(r) == p.Plus(q.Plus(r))
    ensures p.Plus(Pos(0, 0)) == p
  {
  }

  /** Scaling distributes over adding positions and over adding factors, scaling
      twice is scaling by the product, 0 gives the origin and 1 changes nothing. */
  lemma TimesLaws(p: Pos, q: Pos, a: int, b: int)
    ensures p.Plus(q).Times(a) == p.Times(a).Plus(q.Times(a))
    ensures p.Times(a).Plus(p.Times(b)) == p.Times(a + b)
    ensures p.Times(a).Times(b) == p.Times(a * b)
    ensures p.Times(0) == Pos(0, 0) && p.Times(1) == p
  {
    Distrib(p.i, q.i, a);
    Distrib(p.j, q.j, a);
    Distrib(a, b, p.i);
    Distrib(a, b, p.j);
    MulAssoc(p.i, a, b);
    MulAssoc(p.j, a, b);
    assert p.i * (a + b) == (a + b) * p.i && p.i * a == a * p.i && p.i * b == b * p.i;
    assert p.j * (a + b) == (a + b) * p.j && p.j * a == a * p.j && p.j * b == b * p.j;
  }

  /** Pos::operator< is a strict total order, lexicographic on (i, j). */
  lemma PosLessIsStrictTotalOrder(a: Pos, b: Pos, c: Pos)
    ensures !a.Less(a)
    ensures a.Less(b) ==> !b.Less(a)
    ensures a.Less(b) && b.Less(c) ==> a.Less(c)
    ensures a != b ==> a.Less(b) || b.Less(a)
  {
  }

  datatype Dir = N | E | S | W

  /** The character each direction is written as. */
  function DirChar(d: Dir): char {
    match d
    case N => '^'
    case E => '>'
    case S => 'v'
    case W => '<'
  }

  /** ParseDir: the inverse of DirChar; an unknown character is the CHECK failure. */
  function ParseDir(ch: char): (r: Option<Dir>)
    ensures r.Some? <==> ch in {'^', '>', 'v', '<'}
    ensures r.Some? ==> DirChar(r.value) == ch
  {
    match ch
    case '^' => Some(N)
    case '>' => Some(E)
    case 'v' => Some(S)
    case '<' => Some(W)
    case _ => None
  }

  lemma ParseDirChar(d: Dir)
    ensures ParseDir(DirChar(d)) == Some(d)
  {
  }

  /** The unit step of a direction: north is one row up. */
  function MoveDir(d: Dir): (p: Pos)
    ensures Abs(p.i) + Abs(p.j) == 1
  {
    match d
    case N => Pos(-1, 0)
    case E => Pos(0, 1)
    case S => Pos(1, 0)
    case W => Pos(0, -1)
  }

  function Abs(x: int): (r: nat)
    ensures r == x || r == -x
  {
    if x < 0 then -x else x
  }

  function OppositeDir(d: Dir): (r: Dir)
    ensures MoveDir(r) == MoveDir(d).Times(-1)
    ensures r != d
  {
    match d
    case N => S
    case E => W
    case S => N
    case W => E
  }

  /** A quarter turn counter-clockwise. */
  function TurnLeft(d: Dir): (r: Dir)
    ensures MoveDir(r) == Pos(-MoveDir(d).j, MoveDir(d).i)
  {
    match d
    case N => W
    case E => N
    case S => E
    case W => S
  }

  /** A quarter turn clockwise. */
  function TurnRight(d: Dir): (r: Dir)
    ensures MoveDir(r) == Pos(MoveDir(d).j, -MoveDir(d).i)
  {
    match d
    case N => E
    case E => S
    case S => W
    case W => N
  }

  lemma OppositeIsInvolution(d: Dir)
    ensures OppositeDir(OppositeDir(d)) == d
  {
  }

  lemma TurnsCancel(d: Dir)
    ensures TurnRight(TurnLeft(d)) == d
    ensures TurnLeft(TurnRight(d)) == d
    ensures TurnRight(TurnRight(d)) == OppositeDir(d)
    ensures TurnRight(TurnRight(TurnRight(TurnRight(d)))) == d
  {
  }

  /** MoveDir is injective: distinct directions step to distinct neighbours. */
  lemma MoveDirInjective(d: Dir, e: Dir)
    ensures MoveDir(d) == MoveDir(e) ==> d == e
  {
  }

  /** signum on 32-bit integers: -1, 0 or 1 with the sign of the argument. */
  function Signum(x: int): (r: int)
    ensures r in {-1, 0, 1}
    ensures r > 0 <==> x > 0
    ensures r < 0 <==> x < 0
    ensures r * x == Abs(x)
  {
    (if 0 < x then 1 else 0) - (if x < 0 then 1 else 0)
  }

  predicate IsInMap(height: nat, width: nat, p: Pos) {
    p.i >= 0 && p.i < height && p.j >= 0 && p.j < width
  }

  predicate IsOutOfMap(height: nat, width: nat, p: Pos) {
    p.i < 0 || p.i >= height || p.j < 0 || p.j >= width
  }

  /** The two bounds checks are exact complements. */
  lemma InMapIffNotOut(height: nat, width: nat, p: Pos)
    ensures IsInMap(height, width, p) <==> !IsOutOfMap(height, width, p)
  {
  }
}
