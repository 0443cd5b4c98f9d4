/** Mapping seed ranges through the almanac's range maps (2023/05). */
module Almanac {
  import opened Common

  /** An inclusive range of 64-bit values: [3, 7] is {3, 4, 5, 6, 7}. */
  datatype Range = Range(start: nat, end: nat)

  predicate ValidRange(r: Range) {
    r.start <= r.end < TWO_64
  }

  predicate In(x: nat, r: Range) {
    r.start <= x <= r.end
  }

  /** A mapping line: the from range and the to range have the same number of
      elements. */
  predicate ValidMapping(from: Range, to: Range) {
    ValidRange(from) && ValidRange(to) && to.end - to.start == from.end - from.start
  }

  /** MapValue: values outside the from range are kept; values inside are shifted by
      the same offset into the to range. */
  function MapValue(value: nat, from: Range, to: Range): (r: nat)
    requires ValidMapping(from, to)
    ensures !In(value, from) ==> r == value
    ensures In(value, from) ==> In(r, to) && r - to.start == value - from.start
  {
    if value < from.start || value > from.end then value else value - from.start + to.start
  }

  /** Inside the from range MapValue is injective: the to range is its exact image. */
  lemma MapValueIsBijection(from: Range, to: Range, y: nat)
    requires ValidMapping(from, to) && In(y, to)
    ensures In(y - to.start + from.start, from)
    ensures MapValue(y - to.start + from.start, from, to) == y
  {
  }

  /** A piece of a mapped range, with whether it went through the mapping. */
  type Piece = (Range, bool)

  /** MapRange: the range cut by the from range into up to three pieces; the piece
      inside is carried into the to range, the pieces outside are kept. */
  function MapRange(range: Range, from: Range, to: Range): (r: seq<Piece>)
    requires ValidRange(range) && ValidMapping(from, to)
    ensures 1 <= |r| <= 3
    ensures forall k :: 0 <= k < |r| ==> ValidRange(r[k].0)
    ensures range.end < from.start || range.start > from.end ==> r == [(range, false)]
  {
    if range.start < from.start then
      if range.end < from.start then [(range, false)]
      else if range.end <= from.end then
        [(Range(range.start, from.start - 1), false), (Range(to.start, MapValue(range.end, from, to)), true)]
      else
        [(Range(range.start, from.start - 1), false), (Range(to.start, to.end), true), (Range(from.end + 1, range.end), false)]
    else if range.start <= from.end then
      if range.end <= from.end then
        [(Range(MapValue(range.start, from, to), MapValue(range.end, from, to)), true)]
      else
        [(Range(MapValue(range.start, from, to), to.end), true), (Range(from.end + 1, range.end), false)]
    else [(range, false)]
  }

  /** Whether a value lies in some piece with the given flag. */
  predicate Covered(ps: seq<Piece>, mapped: bool, x: nat) {
    exists k :: 0 <= k < |ps| && ps[k].1 == mapped && In(x, ps[k].0)
  }

  /** The pieces kept unmapped are exactly the part of the range outside the from
      range. */
  lemma UnmappedTile(range: Range, from: Range, to: Range, x: nat)
    requires ValidRange(range) && ValidMapping(from, to)
    ensures Covered(MapRange(range, from, to), false, x) <==> In(x, range) && !In(x, from)
  {
    var ps := MapRange(range, from, to);
    if In(x, range) && !In(x, from) {
      var k := if x < from.start then 0 else |ps| - 1;
      assert ps[k].1 == false && In(x, ps[k].0);
    }
  }

  /** The mapped pieces are exactly the image of the range's overlap with the from
      range: y is covered when the value it comes from lies in both. */
  lemma MappedIsImage(range: Range, from: Range, to: Range, y: nat)
    requires ValidRange(range) && ValidMapping(from, to)
    ensures Covered(MapRange(range, from, to), true, y) <==>
      y >= to.start && In(y - to.start + from.start, range) && In(y - to.start + from.start, from)
  {
    var ps := MapRange(range, from, to);
    var x := y - to.start + from.start;
    if y >= to.start && In(x, range) && In(x, from) {
      var k := if range.start < from.start then 1 else 0;
      assert ps[k].1 && In(y, ps[k].0);
    }
  }

  /** At most one piece is mapped, and there is one exactly when the range overlaps
      the from range. */
  function MappedCount(ps: seq<Piece>): (n: nat)
    ensures n <= |ps|
  {
    if ps == [] then 0 else (if ps[0].1 then 1 else 0) + MappedCount(ps[1..])
  }

  lemma OneMappedPiece(range: Range, from: Range, to: Range)
    requires ValidRange(range) && ValidMapping(from, to)
    ensures MappedCount(MapRange(range, from, to)) == if range.end < from.start || range.start > from.end then 0 else 1
  {
    var ps := MapRange(range, from, to);
    if |ps| == 1 {
      assert ps[1..] == [];
    } else if |ps| == 2 {
      assert ps[1..][1..] == [];
    } else {
      assert ps[1..][1..][1..] == [];
      assert MappedCount(ps[1..][1..]) == (if ps[2].1 then 1 else 0);
    }
  }

  /** The number of values in a range. */
  function Size(r: Range): nat
    requires ValidRange(r)
  {
    r.end - r.start + 1
  }

  function TotalSize(ps: seq<Piece>): nat
    requires forall k :: 0 <= k < |ps| ==> ValidRange(ps[k].0)
  {
    if ps == [] then 0 else Size(ps[0].0) + TotalSize(ps[1..])
  }

  lemma TotalSizeShort(ps: seq<Piece>)
    requires 1 <= |ps| <= 3 && forall k :: 0 <= k < |ps| ==> ValidRange(ps[k].0)
    ensures TotalSize(ps) == Size(ps[0].0) + (if |ps| >= 2 then Size(ps[1].0) else 0)
                             + (if |ps| == 3 then Size(ps[2].0) else 0)
  {
    if |ps| == 1 {
      assert ps[1..] == [];
    } else if |ps| == 2 {
      assert ps[1..][1..] == [];
    } else {
      assert ps[1..][1..][1..] == [];
      assert TotalSize(ps[1..][1..]) == Size(ps[2].0);
    }
  }

  /** No value is lost or gained: the pieces hold as many values as the range. */
  lemma SizeIsKept(range: Range, from: Range, to: Range)
    requires ValidRange(range) && ValidMapping(from, to)
    ensures TotalSize(MapRange(range, from, to)) == Size(range)
  {
    var ps := MapRange(range, from, to);
    TotalSizeShort(ps);
    if range.start < from.start && from.start <= range.end {
      if range.end <= from.end {
        assert |ps| == 2 && Size(ps[1].0) == range.end - from.start + 1;
      } else {
        assert |ps| == 3 && Size(ps[1].0) == Size(from);
      }
    } else if from.start <= range.start <= from.end {
      if range.end <= from.end {
        assert |ps| == 1 && Size(ps[0].0) == Size(range);
      } else {
        assert |ps| == 2 && Size(ps[0].0) == from.end - range.start + 1;
      }
    }
  }

  // ---------------------------------------------------------------------------
  // MapRange as written: the result is a btree_map ordered by start alone

  /** The MappedRangeSet of the source: a map keyed by the pieces' start values. */
  type MappedRangeSet = map<nat, Piece>

  /** Building a map from an initialiser list keeps the first of two pieces with
      the same start. */
  function BuildMap(ps: seq<Piece>): (m: MappedRangeSet)
    ensures |m| <= |ps|
    ensures forall k :: 0 <= k < |ps| ==> ps[k].0.start in m
    ensures forall s :: s in m ==> exists k :: 0 <= k < |ps| && m[s] == ps[k] && s == ps[k].0.start
    ensures forall k :: 0 <= k < |ps| && FirstWithStart(ps, k) ==> m[ps[k].0.start] == ps[k]
    decreases |ps|
  {
    if ps == [] then map[]
    else
      var rest := BuildMap(ps[1..]);
      assert forall k :: 1 <= k < |ps| ==> ps[k] == ps[1..][k - 1];
      assert forall k :: 1 <= k < |ps| && FirstWithStart(ps, k) ==> FirstWithStart(ps[1..], k - 1);
      rest[ps[0].0.start := ps[0]]
  }

  /** No piece before ps[k] starts where it does. */
  predicate FirstWithStart(ps: seq<Piece>, k: nat)
    requires k < |ps|
  {
    forall j :: 0 <= j < k ==> ps[j].0.start != ps[k].0.start
  }

  function MapRangeAsWritten(range: Range, from: Range, to: Range): (m: MappedRangeSet)
    requires ValidRange(range) && ValidMapping(from, to)
    ensures 1 <= |m| <= 3
  {
    var ps := MapRange(range, from, to);
    var m := BuildMap(ps);
    assert ps[0].0.start in m;
    m
  }

  /** When the kept left piece and the mapped piece start at the same value, the
      map holds one of them only: [0, 5] through [3, 10] -> [0, 7] gives the kept
      piece [0, 2] and the mapped piece [0, 2], and the mapped one is lost. */
  lemma MapRangeAsWrittenLosesPiece()
    ensures MapRange(Range(0, 5), Range(3, 10), Range(0, 7)) == [(Range(0, 2), false), (Range(0, 2), true)]
    ensures MapRangeAsWritten(Range(0, 5), Range(3, 10), Range(0, 7)) == map[0 := (Range(0, 2), false)]
  {
    var ps := MapRange(Range(0, 5), Range(3, 10), Range(0, 7));
    assert ps[1..][1..] == [];
  }

  /** For the single values the solver maps, the map as written and the list of
      pieces agree: one piece, so the solver's CHECK on the size holds. */
  lemma PointRangeOnePiece(x: nat, from: Range, to: Range)
    requires x < TWO_64 && ValidMapping(from, to)
    ensures MapRange(Range(x, x), from, to) == [(Range(MapValue(x, from, to), MapValue(x, from, to)), In(x, from))]
    ensures MapRangeAsWritten(Range(x, x), from, to) == map[MapValue(x, from, to) := MapRange(Range(x, x), from, to)[0]]
  {
    var ps := MapRange(Range(x, x), from, to);
    assert ps[1..] == [];
  }
}
