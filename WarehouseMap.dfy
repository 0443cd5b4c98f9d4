/** The warehouse grid of 2024/15: a rectangle of tiles, how a cell is read and
    overwritten, the GPS sum over the boxes, and the widening of the grid for the
    second part. */
module WarehouseMap {
  import opened Common
  import opened Grid

  /** The tiles of the grid; the two halves of a wide box are separate tiles. */
  datatype Tile = Empty | Wall | Box | WBoxLeft | WBoxRight | Robot

  predicate IsHalf(t: Tile) {
    t == WBoxLeft || t == WBoxRight
  }

  /** The rows of the grid, row 0 at the top. */
  type Board = seq<seq<Tile>>

  /** At least one row, and every row as wide as the first. */
  predicate Rect(b: Board) {
    |b| >= 1 && forall i :: 0 <= i < |b| ==> |b[i]| == |b[0]|
  }

  predicate Inside(b: Board, p: Pos) {
    0 <= p.i < |b| && 0 <= p.j < |b[p.i]|
  }

  /** Not on the outermost rows or columns. */
  predicate Interior(b: Board, p: Pos) {
    1 <= p.i && p.i + 1 < |b| && 1 <= p.j && p.j + 1 < |b[p.i]|
  }

  function At(b: Board, p: Pos): Tile
    requires Inside(b, p)
  {
    b[p.i][p.j]
  }

  /** The grid with one cell overwritten (map[i][j] = t). */
  function Put(b: Board, p: Pos, t: Tile): (r: Board)
    requires Inside(b, p)
    ensures |r| == |b| && forall i :: 0 <= i < |b| ==> |r[i]| == |b[i]|
    ensures forall q :: Inside(b, q) ==> At(r, q) == if q == p then t else At(b, q)
  {
    b[p.i := b[p.i][p.j := t]]
  }

  /** Two maps of the same shape that agree on every cell are the same map. */
  lemma BoardsEqual(a: Board, b: Board)
    requires |a| == |b| && forall i :: 0 <= i < |a| ==> |a[i]| == |b[i]|
    requires forall p :: Inside(a, p) ==> At(a, p) == At(b, p)
    ensures a == b
  {
    forall i | 0 <= i < |a|
      ensures a[i] == b[i]
    {
      forall j | 0 <= j < |a[i]|
        ensures a[i][j] == b[i][j]
      {
        assert Inside(a, Pos(i, j));
      }
    }
  }

  /** Walled in: every cell on the edge of the grid is a wall. The puzzle's maps
      are, and it is what keeps every `map.at` of the moves inside the grid. */
  ghost predicate Enclosed(b: Board) {
    Rect(b) && forall p :: Inside(b, p) && !Interior(b, p) ==> At(b, p) == Wall
  }

  /** How many steps in direction d are left before the edge of the grid. */
  function Reach(b: Board, p: Pos, d: Dir): nat
    requires Rect(b) && Inside(b, p)
  {
    match d
    case N => p.i
    case S => |b| - 1 - p.i
    case W => p.j
    case E => |b[0]| - 1 - p.j
  }

  /** A tile other than a wall is off the edge, so one step from it stays on the
      grid and brings the edge one step closer. */
  lemma StepFrom(b: Board, p: Pos, d: Dir)
    requires Enclosed(b) && Inside(b, p) && At(b, p) != Wall
    ensures Interior(b, p)
    ensures Inside(b, p.Plus(MoveDir(d))) && Reach(b, p.Plus(MoveDir(d)), d) + 1 == Reach(b, p, d)
  {
    assert |b[p.i]| == |b[0]|;
    var q := p.Plus(MoveDir(d));
    assert |b[q.i]| == |b[0]|;
  }

  /** All the tiles of the grid, as a multiset. */
  function Tiles(b: Board): multiset<Tile> {
    if b == [] then multiset{} else Tiles(b[..|b| - 1]) + multiset(b[|b| - 1])
  }

  /** Overwriting a cell trades its old tile for the new one. */
  lemma {:induction false} PutTiles(b: Board, p: Pos, t: Tile)
    requires Inside(b, p)
    ensures At(b, p) in Tiles(b)
    ensures Tiles(Put(b, p, t)) == Tiles(b) - multiset{At(b, p)} + multiset{t}
  {
    var n := |b| - 1;
    var r := Put(b, p, t);
    assert b == b[..n] + [b[n]];
    if p.i == n {
      assert r[..n] == b[..n];
      assert r[n] == b[n][p.j := t];
      assert b[n][p.j] in multiset(b[n]);
    } else {
      assert r[..n] == Put(b[..n], p, t);
      assert r[n] == b[n];
      PutTiles(b[..n], p, t);
    }
  }

  /** Three trades that give back what they take leave the multiset as it was. */
  lemma TradesCancel(m0: multiset<Tile>, m1: multiset<Tile>, m2: multiset<Tile>, m3: multiset<Tile>, x: Tile, y: Tile, z: Tile)
    requires x in m0 && m1 == m0 - multiset{x} + multiset{y}
    requires z in m1 && m2 == m1 - multiset{z} + multiset{x}
    requires y in m2 && m3 == m2 - multiset{y} + multiset{z}
    ensures m3 == m0
  {
    TradeCount(m0, m1, x, y);
    TradeCount(m1, m2, z, x);
    TradeCount(m2, m3, y, z);
    assert forall t :: m3[t] == m0[t];
  }

  /** A trade and its reverse leave the multiset as it was. */
  lemma TradeBack(m0: multiset<Tile>, m1: multiset<Tile>, m2: multiset<Tile>, x: Tile, y: Tile)
    requires x in m0 && m1 == m0 - multiset{x} + multiset{y}
    requires y in m1 && m2 == m1 - multiset{y} + multiset{x}
    ensures m2 == m0
  {
    TradeCount(m0, m1, x, y);
    TradeCount(m1, m2, y, x);
    assert forall t :: m2[t] == m0[t];
  }

  lemma TradeCount(m0: multiset<Tile>, m1: multiset<Tile>, x: Tile, y: Tile)
    requires x in m0 && m1 == m0 - multiset{x} + multiset{y}
    ensures forall t :: m1[t] == m0[t] - (if t == x then 1 else 0) + (if t == y then 1 else 0)
  {
  }

  /** Two different cells holding the same tile count twice in the multiset. */
  lemma TwoCells(b: Board, p: Pos, r: Pos)
    requires Inside(b, p) && Inside(b, r) && p != r && At(b, p) == At(b, r)
    ensures Tiles(b)[At(b, p)] >= 2
  {
    var t := At(b, p);
    var o := if t == Empty then Wall else Empty;
    PutTiles(b, p, o);
    PutTiles(Put(b, p, o), r, t);
  }

  /** Writing a tile other than a wall into a cell off the edge keeps the map walled in. */
  lemma PutEnclosed(b: Board, p: Pos, t: Tile)
    requires Enclosed(b) && Inside(b, p) && Interior(b, p)
    ensures Enclosed(Put(b, p, t))
  {
    var r := Put(b, p, t);
    assert |r[0]| == |b[0]|;
    forall c | Inside(r, c) && !Interior(r, c)
      ensures At(r, c) == Wall
    {
      assert Inside(b, c);
    }
  }

  /** Writing a tile that is no wide half keeps the map narrow. */
  lemma PutNarrow(b: Board, p: Pos, t: Tile)
    requires Narrow(b) && Inside(b, p) && !IsHalf(t)
    ensures Narrow(Put(b, p, t))
  {
    var r := Put(b, p, t);
    forall c | Inside(r, c)
      ensures !IsHalf(At(r, c))
    {
      assert Inside(b, c);
    }
  }

  /** The tiles that count for the GPS sum: boxes and the left halves of wide ones. */
  predicate Scored(t: Tile) {
    t == Box || t == WBoxLeft
  }

  /** A cell's GPS coordinate, 100 times its row plus its column, if it is scored. */
  function CellGPS(t: Tile, i: nat, j: nat): nat {
    if Scored(t) then 100 * i + j else 0
  }

  /** The GPS coordinates of the first n cells of row i. */
  function RowGPS(row: seq<Tile>, i: nat, n: nat): nat
    requires n <= |row|
  {
    if n == 0 then 0 else RowGPS(row, i, n - 1) + CellGPS(row[n - 1], i, n - 1)
  }

  /** The GPS coordinates of the first n rows. */
  function RowsGPS(b: Board, n: nat): nat
    requires n <= |b|
  {
    if n == 0 then 0 else RowsGPS(b, n - 1) + RowGPS(b[n - 1], n - 1, |b[n - 1]|)
  }

  /** The sum of the GPS coordinates of every box on the grid. */
  function GPS(b: Board): nat {
    RowsGPS(b, |b|)
  }

  /** CalcBoxGPS: the two loops over the rows and the columns of the grid. */
  method CalcBoxGPS(grid: Board, height: nat, width: nat) returns (result: nat)
    requires Rect(grid) && height == |grid| && width == |grid[0]|
    ensures result == GPS(grid)
  {
    result := 0;
    for i := 0 to height
      invariant result == RowsGPS(grid, i)
    {
      assert |grid[i]| == width;
      for j := 0 to width
        invariant result == RowsGPS(grid, i) + RowGPS(grid[i], i, j)
      {
        if grid[i][j] == Box || grid[i][j] == WBoxLeft {
          result := result + 100 * i + j;
        }
      }
    }
  }

  lemma {:induction false} RowGPSPut(row: seq<Tile>, i: nat, n: nat, j: nat, t: Tile)
    requires j < |row| && n <= |row|
    ensures RowGPS(row[j := t], i, n) + (if j < n then CellGPS(row[j], i, j) else 0)
         == RowGPS(row, i, n) + (if j < n then CellGPS(t, i, j) else 0)
  {
    if n > 0 {
      RowGPSPut(row, i, n - 1, j, t);
    }
  }

  lemma {:induction false} RowsGPSPut(b: Board, n: nat, p: Pos, t: Tile)
    requires Inside(b, p) && n <= |b|
    ensures RowsGPS(Put(b, p, t), n) + (if p.i < n then CellGPS(At(b, p), p.i, p.j) else 0)
         == RowsGPS(b, n) + (if p.i < n then CellGPS(t, p.i, p.j) else 0)
  {
    if n > 0 {
      RowsGPSPut(b, n - 1, p, t);
      var r := Put(b, p, t);
      if p.i == n - 1 {
        RowGPSPut(b[n - 1], n - 1, |b[n - 1]|, p.j, t);
      } else {
        assert r[n - 1] == b[n - 1];
      }
    }
  }

  /** Writing a tile changes the GPS sum by the coordinate the cell gains minus
      the one it loses: a box that moves one cell east adds 1, one row down 100. */
  lemma GPSPut(b: Board, p: Pos, t: Tile)
    requires Inside(b, p)
    ensures GPS(Put(b, p, t)) + CellGPS(At(b, p), p.i, p.j) == GPS(b) + CellGPS(t, p.i, p.j)
  {
    RowsGPSPut(b, |b|, p, t);
  }

  /** No wide-box halves on the grid (the grid of the first part). */
  ghost predicate Narrow(b: Board) {
    forall p :: Inside(b, p) ==> !IsHalf(At(b, p))
  }

  /** The two tiles WidenMap writes for a tile of the narrow grid. */
  function WidePair(t: Tile): (r: seq<Tile>)
    requires !IsHalf(t)
    ensures |r| == 2
  {
    match t
    case Box => [WBoxLeft, WBoxRight]
    case Robot => [Robot, Empty]
    case _ => [t, t]
  }

  predicate NarrowRow(row: seq<Tile>) {
    forall j :: 0 <= j < |row| ==> !IsHalf(row[j])
  }

  lemma NarrowRowOf(b: Board, i: nat)
    requires Narrow(b) && i < |b|
    ensures NarrowRow(b[i])
  {
    forall j | 0 <= j < |b[i]|
      ensures !IsHalf(b[i][j])
    {
      assert Inside(b, Pos(i, j));
    }
  }

  /** One row of the wide grid: the pairs of the row's tiles, left to right. */
  function WidenRow(row: seq<Tile>): (r: seq<Tile>)
    requires NarrowRow(row)
    ensures |r| == 2 * |row|
  {
    if row == [] then [] else WidenRow(row[..|row| - 1]) + WidePair(row[|row| - 1])
  }

  /** The wide grid: every row widened. */
  function Widen(b: Board): (r: Board)
    requires Narrow(b)
  {
    seq(|b|, i requires 0 <= i < |b| => NarrowRowOf(b, i); WidenRow(b[i]))
  }

  /** WidenMap: each row is built by appending the pair for each tile; a wide-box
      half on the input is the source's CHECK failure (None). */
  method WidenMap(grid: Board) returns (wide: Option<Board>)
    ensures wide.Some? <==> Narrow(grid)
    ensures wide.Some? ==> wide.value == Widen(grid)
  {
    var rows: Board := [];
    for i := 0 to |grid|
      invariant |rows| == i
      invariant forall k :: 0 <= k < i ==> NarrowRow(grid[k]) && rows[k] == WidenRow(grid[k])
    {
      var row: seq<Tile> := [];
      for j := 0 to |grid[i]|
        invariant NarrowRow(grid[i][..j]) && row == WidenRow(grid[i][..j])
      {
        var tile := grid[i][j];
        if tile == WBoxLeft || tile == WBoxRight {
          assert Inside(grid, Pos(i, j)) && IsHalf(At(grid, Pos(i, j)));
          return None;
        }
        assert grid[i][..j + 1][..j] == grid[i][..j];
        row := row + WidePair(tile);
      }
      assert grid[i][..|grid[i]|] == grid[i];
      rows := rows + [row];
    }
    wide := Some(rows);
  }

  lemma {:induction false} WidenRowAt(row: seq<Tile>, j: nat)
    requires NarrowRow(row) && j < 2 * |row|
    ensures WidenRow(row)[j] == WidePair(row[j / 2])[j % 2]
    decreases |row|
  {
    var n := |row| - 1;
    assert row[..n][..] == row[..n];
    if j < 2 * n {
      WidenRowAt(row[..n], j);
    }
  }

  /** WidenMap doubles the width of every row, and the two cells of column j come
      from the tile in column j / 2: "[]" for a box, "@." for the robot, the tile
      twice for a wall or an empty cell. */
  lemma WidenAt(b: Board, p: Pos)
    requires Narrow(b)
    ensures |Widen(b)| == |b| && forall i :: 0 <= i < |b| ==> |Widen(b)[i]| == 2 * |b[i]|
    ensures Inside(Widen(b), p) <==> Inside(b, Pos(p.i, p.j / 2))
    ensures Inside(Widen(b), p) ==> At(Widen(b), p) == WidePair(At(b, Pos(p.i, p.j / 2)))[p.j % 2]
  {
    if Inside(Widen(b), p) {
      assert Inside(b, Pos(p.i, p.j / 2));
      NarrowRowOf(b, p.i);
      WidenRowAt(b[p.i], p.j);
    }
  }
}
