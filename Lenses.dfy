/** The HASH algorithm and the lens boxes of the lens library (2023/15). */
module Lenses {
  import opened Common

  // ---------------------------------------------------------------------------
  // CalculateHash

  /** One step of the hash: add the character code, times 17, modulo 256. */
  function HashStep(h: nat, c: char): nat {
    ((h + c as int) * 17) % 256
  }

  /** The hash of a string, character by character from the left. */
  function Hash(code: string): (h: nat)
    ensures h < 256
    decreases |code|
  {
    if code == [] then 0 else HashStep(Hash(code[..|code| - 1]), code[|code| - 1])
  }

  /** CalculateHash: the accumulator loop over the characters of code. */
  method CalculateHash(code: string) returns (hash: nat)
    ensures hash == Hash(code)
    ensures hash < 256
  {
    hash := 0;
    var k := 0;
    while k < |code|
      invariant 0 <= k <= |code|
      invariant hash == Hash(code[..k])
    {
      assert code[..k + 1][..k] == code[..k];
      hash := (hash + code[k] as int) * 17;
      hash := hash % 256;
      k := k + 1;
    }
    assert code[..k] == code;
  }

  /** The u32 accumulator never wraps: before the reduction modulo 256 the value
      stays below 2^32 for every character code. */
  lemma HashStepFitsU32(h: nat, c: char)
    requires h < 256
    ensures (h + c as int) * 17 < TWO_32
  {
  }

  /** The hash depends only on the last character and the hash of what precedes it. */
  lemma {:induction false} HashAppend(a: string, b: string)
    ensures Hash(a + b) == HashFrom(Hash(a), b)
    decreases |b|
  {
    if b == [] {
      assert a + b == a;
    } else {
      var b' := b[..|b| - 1];
      assert (a + b)[..|a + b| - 1] == a + b';
      assert (a + b)[|a + b| - 1] == b[|b| - 1];
      HashAppend(a, b');
    }
  }

  /** The hash started from a given value. */
  function HashFrom(h: nat, code: string): nat
    decreases |code|
  {
    if code == [] then h else HashStep(HashFrom(h, code[..|code| - 1]), code[|code| - 1])
  }

  // ---------------------------------------------------------------------------
  // Boxes

  /** A lens: its label, kept in the field name, and its focal length. */
  datatype Lens = Lens(name: string, focal: int)

  type Box = seq<Lens>

  /** find_if by label: the index of the first lens with that label. */
  function FindLabel(box: Box, name: string): (r: Option<nat>)
    ensures r.Some? ==> r.value < |box| && box[r.value].name == name
    ensures r.Some? ==> forall k :: 0 <= k < r.value ==> box[k].name != name
    ensures r.None? ==> forall k :: 0 <= k < |box| ==> box[k].name != name
    decreases |box|
  {
    if box == [] then None
    else if box[0].name == name then Some(0)
    else
      match FindLabel(box[1..], name)
      case None => None
      case Some(i) => Some(i + 1)
  }

  /** The box after AddLens: the focal length of the lens with the label replaced,
      or the lens appended when no lens has the label. */
  function AddToBox(box: Box, lens: Lens): Box {
    match FindLabel(box, lens.name)
    case Some(i) => box[i := Lens(box[i].name, lens.focal)]
    case None => box + [lens]
  }

  /** The box after RemoveLens: the lens with the label taken out, if there is one. */
  function RemoveFromBox(box: Box, name: string): Box {
    match FindLabel(box, name)
    case Some(i) => box[..i] + box[i + 1..]
    case None => box
  }

  predicate HasLabel(box: Box, name: string) {
    exists k :: 0 <= k < |box| && box[k].name == name
  }

  predicate UniqueLabels(box: Box) {
    forall k1, k2 :: 0 <= k1 < k2 < |box| ==> box[k1].name != box[k2].name
  }

  /** Adding a lens whose label is present keeps the box size and changes only the
      focal length of that lens. */
  lemma AddExisting(box: Box, lens: Lens, i: nat)
    requires i < |box| && box[i].name == lens.name && UniqueLabels(box)
    ensures |AddToBox(box, lens)| == |box|
    ensures AddToBox(box, lens)[i] == lens
    ensures forall k :: 0 <= k < |box| && k != i ==> AddToBox(box, lens)[k] == box[k]
  {
    var r := FindLabel(box, lens.name);
    assert r.Some?;
    assert r.value == i;
  }

  /** Adding a lens with a new label appends it at the end. */
  lemma AddNew(box: Box, lens: Lens)
    requires !HasLabel(box, lens.name)
    ensures AddToBox(box, lens) == box + [lens]
  {
  }

  /** Removing an absent label changes nothing. */
  lemma RemoveAbsent(box: Box, name: string)
    requires !HasLabel(box, name)
    ensures RemoveFromBox(box, name) == box
  {
  }

  /** Removing a present label takes out exactly that lens and keeps the order of
      the others. */
  lemma RemovePresent(box: Box, name: string, i: nat)
    requires i < |box| && box[i].name == name && UniqueLabels(box)
    ensures RemoveFromBox(box, name) == box[..i] + box[i + 1..]
    ensures !HasLabel(RemoveFromBox(box, name), name)
  {
    var r := FindLabel(box, name);
    assert r.value == i;
    var rest := box[..i] + box[i + 1..];
    forall k | 0 <= k < |rest|
      ensures rest[k].name != name
    {
      if k < i {
        assert rest[k] == box[k];
      } else {
        assert rest[k] == box[k + 1];
      }
    }
  }

  /** Both operations keep labels unique within a box. */
  lemma OperationsKeepUnique(box: Box, lens: Lens, name: string)
    requires UniqueLabels(box)
    ensures UniqueLabels(AddToBox(box, lens))
    ensures UniqueLabels(RemoveFromBox(box, name))
  {
    var r := FindLabel(box, lens.name);
    if r.None? {
      var added := box + [lens];
      forall k1, k2 | 0 <= k1 < k2 < |added|
        ensures added[k1].name != added[k2].name
      {
        if k2 < |box| {
          assert added[k1] == box[k1] && added[k2] == box[k2];
        }
      }
    }
    var s := FindLabel(box, name);
    if s.Some? {
      var i := s.value;
      var rest := box[..i] + box[i + 1..];
      forall k1, k2 | 0 <= k1 < k2 < |rest|
        ensures rest[k1].name != rest[k2].name
      {
        var j1 := if k1 < i then k1 else k1 + 1;
        var j2 := if k2 < i then k2 else k2 + 1;
        assert rest[k1] == box[j1] && rest[k2] == box[j2];
      }
    }
  }

  /** A box read as a map from label to focal length; the first lens with a label
      is the one find_if sees. */
  function FocalOf(box: Box): map<string, int>
    decreases |box|
  {
    if box == [] then map[] else FocalOf(box[1..])[box[0].name := box[0].focal]
  }

  lemma {:induction false} FocalOfKeys(box: Box, name: string)
    ensures name in FocalOf(box) <==> HasLabel(box, name)
    decreases |box|
  {
    if box != [] {
      FocalOfKeys(box[1..], name);
      if HasLabel(box[1..], name) {
        var k :| 0 <= k < |box[1..]| && box[1..][k].name == name;
        assert box[k + 1].name == name;
      }
      if HasLabel(box, name) && box[0].name != name {
        var k :| 0 <= k < |box| && box[k].name == name;
        assert box[1..][k - 1].name == name;
      }
    }
  }

  /** AddLens is a map update on the labels' focal lengths. */
  lemma {:induction false} AddIsMapUpdate(box: Box, lens: Lens)
    ensures FocalOf(AddToBox(box, lens)) == FocalOf(box)[lens.name := lens.focal]
    decreases |box|
  {
    if box == [] {
    } else if box[0].name == lens.name {
      assert AddToBox(box, lens) == [Lens(lens.name, lens.focal)] + box[1..];
      assert ([Lens(lens.name, lens.focal)] + box[1..])[1..] == box[1..];
    } else {
      AddIsMapUpdate(box[1..], lens);
      assert AddToBox(box, lens) == [box[0]] + AddToBox(box[1..], lens) by {
        var r := FindLabel(box[1..], lens.name);
        if r.Some? {
          assert box[r.value + 1 := Lens(box[r.value + 1].name, lens.focal)]
              == [box[0]] + box[1..][r.value := Lens(box[1..][r.value].name, lens.focal)];
        } else {
          assert box + [lens] == [box[0]] + (box[1..] + [lens]);
        }
      }
      assert ([box[0]] + AddToBox(box[1..], lens))[1..] == AddToBox(box[1..], lens);
    }
  }

  lemma UniqueTail(box: Box)
    requires box != [] && UniqueLabels(box)
    ensures UniqueLabels(box[1..])
    ensures !HasLabel(box[1..], box[0].name)
  {
    forall k1, k2 | 0 <= k1 < k2 < |box[1..]|
      ensures box[1..][k1].name != box[1..][k2].name
    {
      assert box[1..][k1] == box[k1 + 1] && box[1..][k2] == box[k2 + 1];
    }
    forall k | 0 <= k < |box[1..]|
      ensures box[1..][k].name != box[0].name
    {
      assert box[1..][k] == box[k + 1];
    }
  }

  /** Removing a label the first lens does not carry leaves the first lens first. */
  lemma RemoveCons(box: Box, name: string)
    requires box != [] && box[0].name != name
    ensures RemoveFromBox(box, name) == [box[0]] + RemoveFromBox(box[1..], name)
  {
    var r := FindLabel(box[1..], name);
    if r.Some? {
      var i := r.value;
      assert box[..i + 1] == [box[0]] + box[1..][..i];
      assert box[i + 2..] == box[1..][i + 1..];
    }
  }

  /** With unique labels, RemoveLens is removing the label from the map. */
  lemma {:induction false} RemoveIsMapRemoval(box: Box, name: string)
    requires UniqueLabels(box)
    ensures FocalOf(RemoveFromBox(box, name)) == FocalOf(box) - {name}
    decreases |box|
  {
    if box == [] {
    } else if box[0].name == name {
      assert RemoveFromBox(box, name) == box[1..];
      UniqueTail(box);
      FocalOfKeys(box[1..], name);
    } else {
      UniqueTail(box);
      RemoveIsMapRemoval(box[1..], name);
      RemoveCons(box, name);
      var rest := RemoveFromBox(box[1..], name);
      assert ([box[0]] + rest)[1..] == rest;
      assert FocalOf([box[0]] + rest) == FocalOf(rest)[box[0].name := box[0].focal];
      UpdateThenRemove(FocalOf(box[1..]), box[0].name, box[0].focal, name);
    }
  }

  lemma UpdateThenRemove(m: map<string, int>, k: string, v: int, name: string)
    requires k != name
    ensures m[k := v] - {name} == (m - {name})[k := v]
  {
  }

  /** Every lens sits in the box its label hashes to, and labels are unique per box. */
  ghost predicate BoxesValid(boxes: seq<Box>) {
    (forall b :: 0 <= b < |boxes| ==> UniqueLabels(boxes[b])) &&
    (forall b, k :: 0 <= b < |boxes| && 0 <= k < |boxes[b]| ==> Hash(boxes[b][k].name) == b)
  }

  /** AddLens: update or append in the box the label hashes to. */
  method AddLens(boxes: array<Box>, lens: Lens)
    requires Hash(lens.name) < boxes.Length
    modifies boxes
    ensures boxes[Hash(lens.name)] == AddToBox(old(boxes[Hash(lens.name)]), lens)
    ensures forall b :: 0 <= b < boxes.Length && b != Hash(lens.name) ==> boxes[b] == old(boxes[b])
    ensures BoxesValid(old(boxes[..])) ==> BoxesValid(boxes[..])
  {
    ghost var valid := BoxesValid(boxes[..]);
    var h := CalculateHash(lens.name);
    var box := boxes[h];
    if valid {
      assert boxes[..][h] == box;
      OperationsKeepUnique(box, lens, lens.name);
      KeepsHashes(box, lens, h);
    }
    var index := FindLabel(box, lens.name);
    if index.Some? {
      boxes[h] := box[index.value := Lens(box[index.value].name, lens.focal)];
    } else {
      boxes[h] := box + [lens];
    }
    if valid {
      BoxesStayValid(old(boxes[..]), h, boxes[h], boxes[..]);
    }
  }

  /** RemoveLens: take the lens with the label out of the box it hashes to. */
  method RemoveLens(boxes: array<Box>, name: string)
    requires Hash(name) < boxes.Length
    modifies boxes
    ensures boxes[Hash(name)] == RemoveFromBox(old(boxes[Hash(name)]), name)
    ensures forall b :: 0 <= b < boxes.Length && b != Hash(name) ==> boxes[b] == old(boxes[b])
    ensures BoxesValid(old(boxes[..])) ==> BoxesValid(boxes[..])
  {
    ghost var valid := BoxesValid(boxes[..]);
    var h := CalculateHash(name);
    var box := boxes[h];
    if valid {
      assert boxes[..][h] == box;
      OperationsKeepUnique(box, Lens(name, 0), name);
      KeepsHashes(box, Lens(name, 0), h);
    }
    var index := FindLabel(box, name);
    if index.Some? {
      boxes[h] := box[..index.value] + box[index.value + 1..];
    }
    if valid {
      BoxesStayValid(old(boxes[..]), h, boxes[h], boxes[..]);
    }
  }

  /** Replacing one box by a valid box for its index keeps all boxes valid. */
  lemma BoxesStayValid(before: seq<Box>, h: nat, box: Box, after: seq<Box>)
    requires BoxesValid(before) && h < |before| && after == before[h := box]
    requires UniqueLabels(box) && forall k :: 0 <= k < |box| ==> Hash(box[k].name) == h
    ensures BoxesValid(after)
  {
  }

  /** Every lens of a box after either operation was in the box before or is the
      added lens. */
  lemma KeepsHashes(box: Box, lens: Lens, h: nat)
    requires forall k :: 0 <= k < |box| ==> Hash(box[k].name) == h
    requires Hash(lens.name) == h
    ensures forall k :: 0 <= k < |AddToBox(box, lens)| ==> Hash(AddToBox(box, lens)[k].name) == h
    ensures forall k :: 0 <= k < |RemoveFromBox(box, lens.name)| ==> Hash(RemoveFromBox(box, lens.name)[k].name) == h
  {
    var r := FindLabel(box, lens.name);
    if r.Some? {
      var i := r.value;
      var rest := box[..i] + box[i + 1..];
      forall k | 0 <= k < |rest|
        ensures Hash(rest[k].name) == h
      {
        if k < i {
          assert rest[k] == box[k];
        } else {
          assert rest[k] == box[k + 1];
        }
      }
    } else {
      forall k | 0 <= k < |box + [lens]|
        ensures Hash((box + [lens])[k].name) == h
      {
        if k < |box| {
          assert (box + [lens])[k] == box[k];
        }
      }
    }
  }
}
