/** The wires and logic gates of the crossed-wires adder (2024/24): a gate computes
    AND, OR or XOR of two input wires; a number is read off or written onto a list
    of wires one bit per wire, least significant first. */
module Gates {
  import opened Common

  datatype GateOp = And | Or | Xor

  /** The value of a wire as a bit. */
  function Bit(b: bool): nat {
    if b then 1 else 0
  }

  /** ApplyOp: the three gates, stated as the bit arithmetic of C++'s &, | and ^. */
  function ApplyOp(op: GateOp, a: bool, b: bool): (r: bool)
    ensures op == And ==> Bit(r) == Bit(a) * Bit(b)
    ensures op == Or ==> Bit(r) == Bit(a) + Bit(b) - Bit(a) * Bit(b)
    ensures op == Xor ==> Bit(r) == (Bit(a) + Bit(b)) % 2
  {
    match op
    case And => a && b
    case Xor => a != b
    case Or => a || b
  }

  /** An XOR and an AND gate on the same inputs form a half adder: the sum bit and
      the carry bit together count the inputs that are on. */
  lemma HalfAdder(a: bool, b: bool)
    ensures Bit(ApplyOp(Xor, a, b)) + 2 * Bit(ApplyOp(And, a, b)) == Bit(a) + Bit(b)
  {
  }

  // ---------------------------------------------------------------------------
  // Numbers on wires

  /** Whether a wire has a value and it is on. */
  predicate On(values: map<string, bool>, id: string) {
    id in values && values[id]
  }

  /** The number carried by the first n wires of ids, wire k worth 2^k. */
  function Weigh(ids: seq<string>, values: map<string, bool>, n: nat): (r: nat)
    requires n <= |ids|
    ensures r < Pow2(n)
  {
    if n == 0 then 0 else Weigh(ids, values, n - 1) + (if On(values, ids[n - 1]) then Pow2(n - 1) else 0)
  }

  /** The number of wires a u64 can hold. */
  function Width(ids: seq<string>): nat {
    if |ids| < 64 then |ids| else 64
  }

  /** SetToNum: reads a number off the wires; a wire without a value counts as off,
      and the wires past the 64th fall off the end of the u64 index. */
  method SetToNum(ids: seq<string>, values: map<string, bool>) returns (result: nat)
    ensures result == Weigh(ids, values, Width(ids))
    ensures result < TWO_64
  {
    result := 0;
    var index: nat := 1;
    var k := 0;
    while k < |ids|
      invariant 0 <= k <= |ids|
      invariant result == Weigh(ids, values, if k < 64 then k else 64)
      invariant index == if k < 64 then Pow2(k) else 0
    {
      var id := ids[k];
      if id in values && values[id] {
        OrStep(ids, values, k);
        result := BitOr(result, index);
      }
      IndexStep(k);
      index := Wrap64(2 * index);
      k := k + 1;
    }
    Pow2Monotone(Width(ids), 64);
    Pow2Of64();
  }

  /** Or-ing in the index of an on wire adds its weight, until the index has shifted
      out of the u64. */
  lemma OrStep(ids: seq<string>, values: map<string, bool>, k: nat)
    requires k < |ids| && On(values, ids[k])
    ensures var low := Weigh(ids, values, if k < 64 then k else 64);
      BitOr(low, if k < 64 then Pow2(k) else 0) == Weigh(ids, values, if k + 1 < 64 then k + 1 else 64)
  {
    if k < 64 {
      OrHigh(Weigh(ids, values, k), k);
    } else {
      OrZero(Weigh(ids, values, 64));
    }
  }

  /** The u64 index doubles, and falls to zero after its 64th shift. */
  lemma IndexStep(k: nat)
    ensures Wrap64(2 * (if k < 64 then Pow2(k) else 0)) == if k + 1 < 64 then Pow2(k + 1) else 0
  {
    if k < 63 {
      Pow2Monotone(k + 1, 63);
    }
    Pow2Of64();
  }

  lemma DivAddMultiple(x: nat, p: nat, m: nat)
    requires p >= 1
    ensures (x + m * p) / p == x / p + m
  {
    DivModUnique(x + m * p, p, x / p + m, x % p);
  }

  /** Bit k of the number on the wires is the value of wire k. */
  lemma {:induction false} WeighBit(ids: seq<string>, values: map<string, bool>, n: nat, k: nat)
    requires k < n <= |ids|
    ensures (Weigh(ids, values, n) / Pow2(k)) % 2 == Bit(On(values, ids[k]))
    decreases n
  {
    if n == k + 1 {
      WeighBitTop(ids, values, k);
    } else {
      WeighBit(ids, values, n - 1, k);
      WeighBitKeep(ids, values, n, k);
    }
  }

  /** Wire k is the top bit of the first k + 1 wires. */
  lemma WeighBitTop(ids: seq<string>, values: map<string, bool>, k: nat)
    requires k < |ids|
    ensures (Weigh(ids, values, k + 1) / Pow2(k)) % 2 == Bit(On(values, ids[k]))
  {
    var low := Weigh(ids, values, k);
    DivModUnique(low, Pow2(k), 0, low);
    if On(values, ids[k]) {
      DivAddMultiple(low, Pow2(k), 1);
    }
  }

  /** A wire above k leaves bit k alone. */
  lemma WeighBitKeep(ids: seq<string>, values: map<string, bool>, n: nat, k: nat)
    requires k + 1 < n <= |ids|
    ensures (Weigh(ids, values, n) / Pow2(k)) % 2 == (Weigh(ids, values, n - 1) / Pow2(k)) % 2
  {
    if On(values, ids[n - 1]) {
      var c := Pow2(n - 2 - k);
      Pow2Add(k, n - 1 - k);
      EvenMultipleKeepsBit(Weigh(ids, values, n - 1), Pow2(k), c, Weigh(ids, values, n));
    }
  }

  lemma EvenMultipleKeepsBit(low: nat, p: nat, c: nat, w: nat)
    requires p >= 1 && w == low + (2 * c) * p
    ensures (w / p) % 2 == (low / p) % 2
  {
    DivAddMultiple(low, p, 2 * c);
  }

  /** SetToNum's bits: bit k of the result is set exactly when wire ids[k] is on,
      for each of the first 64 wires. */
  lemma SetToNumBit(ids: seq<string>, values: map<string, bool>, k: nat)
    requires k < Width(ids)
    ensures (Weigh(ids, values, Width(ids)) / Pow2(k)) % 2 == 1 <==> ids[k] in values && values[ids[k]]
  {
    WeighBit(ids, values, Width(ids), k);
  }

  /** The wires after writing value onto ids, one bit per wire, the last write to a
      wire winning. */
  function Assign(value: nat, ids: seq<string>, values: map<string, bool>): map<string, bool>
    decreases |ids|
  {
    if ids == [] then values else Assign(value / 2, ids[1..], values[ids[0] := value % 2 == 1])
  }

  /** NumToSet: writes value onto the wires in place. */
  method NumToSet(value: nat, ids: seq<string>, values: map<string, bool>) returns (out: map<string, bool>)
    requires value < TWO_64
    ensures out == Assign(value, ids, values)
  {
    out := values;
    var v := value;
    var k := 0;
    while k < |ids|
      invariant 0 <= k <= |ids|
      invariant Assign(v, ids[k..], out) == Assign(value, ids, values)
    {
      assert ids[k..][1..] == ids[k + 1..];
      out := out[ids[k] := v % 2 == 1];
      v := v / 2;
      k := k + 1;
    }
  }

  predicate Distinct(s: seq<string>) {
    forall i, j :: 0 <= i < j < |s| ==> s[i] != s[j]
  }

  /** NumToSet leaves every wire outside ids as it was. */
  lemma {:induction false} AssignOther(value: nat, ids: seq<string>, values: map<string, bool>, id: string)
    requires id !in ids
    ensures id in Assign(value, ids, values) <==> id in values
    ensures id in values ==> Assign(value, ids, values)[id] == values[id]
    decreases |ids|
  {
    if ids != [] {
      AssignOther(value / 2, ids[1..], values[ids[0] := value % 2 == 1], id);
    }
  }

  /** Halving, then dividing by 2^(k-1), divides by 2^k. */
  lemma HalveThenDivide(x: nat, k: nat)
    requires k >= 1
    ensures (x / 2) / Pow2(k - 1) == x / Pow2(k)
  {
    var p := Pow2(k - 1);
    var a := x / 2;
    DivModUnique(x, 2 * p, a / p, 2 * (a % p) + x % 2);
  }

  /** With distinct wires, NumToSet puts bit k of value on wire ids[k]. */
  lemma {:induction false} AssignAt(value: nat, ids: seq<string>, values: map<string, bool>, k: nat)
    requires Distinct(ids) && k < |ids|
    ensures ids[k] in Assign(value, ids, values)
    ensures Assign(value, ids, values)[ids[k]] == ((value / Pow2(k)) % 2 == 1)
    decreases |ids|
  {
    var next := values[ids[0] := value % 2 == 1];
    if k == 0 {
      AssignOther(value / 2, ids[1..], next, ids[0]);
    } else {
      assert ids[1..][k - 1] == ids[k];
      AssignAt(value / 2, ids[1..], next, k - 1);
      HalveThenDivide(value, k);
    }
  }

  /** The low n + 1 bits are the low n bits and bit n. */
  lemma ModPow2Step(v: nat, n: nat)
    ensures v % Pow2(n + 1) == v % Pow2(n) + ((v / Pow2(n)) % 2) * Pow2(n)
  {
    var p := Pow2(n);
    var q := v / p;
    assert v == p * q + v % p;
    assert q == 2 * (q / 2) + q % 2;
    assert p * q == (2 * p) * (q / 2) + p * (q % 2);
    DivModUnique(v, 2 * p, q / 2, p * (q % 2) + v % p);
  }

  /** The round trip: with distinct wires, writing value onto ids and reading the
      first n wires back gives value modulo 2^n; SetToNum after NumToSet therefore
      returns value modulo 2^|ids| (all of value once there are 64 wires). */
  lemma {:induction false} RoundTrip(value: nat, ids: seq<string>, values: map<string, bool>, n: nat)
    requires Distinct(ids) && n <= |ids|
    ensures Weigh(ids, Assign(value, ids, values), n) == value % Pow2(n)
    decreases n
  {
    if n > 0 {
      RoundTrip(value, ids, values, n - 1);
      AssignAt(value, ids, values, n - 1);
      ModPow2Step(value, n - 1);
    }
  }

  // ---------------------------------------------------------------------------
  // Propagating values through the gates

  /** A gate: its two input wires, its output wire and its operation. */
  datatype Gate = Gate(in1: string, in2: string, output: string, op: GateOp)

  /** The gate definitions are keyed by their output wire. */
  predicate WellKeyed(gates: map<string, Gate>) {
    forall id :: id in gates ==> gates[id].output == id
  }

  /** Every wire that existing values hold keeps its value. */
  predicate Keeps(before: map<string, bool>, after: map<string, bool>) {
    forall id :: id in before ==> id in after && after[id] == before[id]
  }

  /** Every computed wire holds its gate's operation applied to the gate's inputs. */
  predicate Consistent(gates: map<string, Gate>, values: map<string, bool>, used: set<string>) {
    forall o :: o in used ==>
      o in gates && o in values && gates[o].in1 in values && gates[o].in2 in values &&
      values[o] == ApplyOp(gates[o].op, values[gates[o].in1], values[gates[o].in2])
  }

  /** The end of CalcValues: the new values and the computed wires; NoGate where an
      id to compute has no gate (gates.at throws); Stuck where the passes run out,
      which without a bound is the source looping forever on a wire whose inputs
      never get values. */
  datatype Outcome = Settled(values: map<string, bool>, used: set<string>) | NoGate(id: string) | Stuck

  /** The state CalcValues keeps between its steps. */
  predicate Progress(gates: map<string, Gate>, ids: seq<string>, values0: map<string, bool>,
                     values: map<string, bool>, used: set<string>)
  {
    Keeps(values0, values) && values.Keys == values0.Keys + used &&
    (forall o :: o in used ==> o !in values0 && o in ids) &&
    Consistent(gates, values, used)
  }

  /** The todo list with the done wires erased. */
  function Erase(todo: seq<string>, done: set<string>): (r: seq<string>)
    ensures forall x :: x in r <==> x in todo && x !in done
    ensures Distinct(todo) ==> Distinct(r)
  {
    if todo == [] then []
    else if todo[0] in done then Erase(todo[1..], done)
    else [todo[0]] + Erase(todo[1..], done)
  }

  /** One pass over todo: each gate whose inputs both have values sets its output. */
  method Pass(gates: map<string, Gate>, ids: seq<string>, values0: map<string, bool>, todo: seq<string>,
              values: map<string, bool>, used: set<string>)
    returns (missing: Option<string>, values': map<string, bool>, used': set<string>, done: set<string>)
    requires WellKeyed(gates) && Distinct(todo)
    requires forall x :: x in todo ==> x in ids && x !in values
    requires Progress(gates, ids, values0, values, used)
    ensures missing.Some? ==> missing.value in todo && missing.value !in gates
    ensures missing.None? ==> Progress(gates, ids, values0, values', used')
    ensures missing.None? ==> Keeps(values, values')
    ensures missing.None? ==> forall x :: x in todo ==> (x in done <==> x in values')
    ensures missing.None? ==> forall x :: x in ids && x in values ==> x in values'
  {
    values', used', done := values, used, {};
    var t := 0;
    while t < |todo|
      invariant 0 <= t <= |todo|
      invariant Progress(gates, ids, values0, values', used') && Keeps(values, values')
      invariant Marked(todo, t, done, values')
    {
      var id := todo[t];
      if id !in gates {
        return Some(id), values', used', done;
      }
      var gate := gates[id];
      if gate.in1 in values' && gate.in2 in values' {
        assert gate.output == id;
        ProgressWrite(gates, ids, values0, values, values', used', id);
        MarkStep(todo, t, done, values', ApplyOp(gate.op, values'[gate.in1], values'[gate.in2]));
        values' := values'[gate.output := ApplyOp(gate.op, values'[gate.in1], values'[gate.in2])];
        used' := used' + {gate.output};
        done := done + {gate.output};
      } else {
        MarkSkip(todo, t, done, values');
      }
      t := t + 1;
    }
    missing := None;
    MarkedEnd(todo, done, values');
  }

  /** Within a pass: the wires of todo from t on have no value yet, and those before
      t are done exactly when they got a value. */
  predicate Marked(todo: seq<string>, t: nat, done: set<string>, cur: map<string, bool>)
    requires t <= |todo|
  {
    (forall j :: t <= j < |todo| ==> todo[j] !in cur) &&
    (forall j :: 0 <= j < t ==> (todo[j] in done <==> todo[j] in cur)) &&
    (forall x :: x in done ==> x in cur)
  }

  lemma MarkStep(todo: seq<string>, t: nat, done: set<string>, cur: map<string, bool>, b: bool)
    requires Distinct(todo) && t < |todo| && Marked(todo, t, done, cur)
    ensures Marked(todo, t + 1, done + {todo[t]}, cur[todo[t] := b])
  {
  }

  lemma MarkSkip(todo: seq<string>, t: nat, done: set<string>, cur: map<string, bool>)
    requires t < |todo| && Marked(todo, t, done, cur)
    ensures Marked(todo, t + 1, done, cur)
  {
  }

  lemma MarkedEnd(todo: seq<string>, done: set<string>, cur: map<string, bool>)
    requires Marked(todo, |todo|, done, cur)
    ensures forall x :: x in todo ==> (x in done <==> x in cur)
  {
    forall x | x in todo
      ensures x in done <==> x in cur
    {
      var j :| 0 <= j < |todo| && todo[j] == x;
    }
  }

  /** Setting a wire of ids that has no value yet from its gate keeps the state. */
  lemma ProgressWrite(gates: map<string, Gate>, ids: seq<string>, values0: map<string, bool>,
                      values: map<string, bool>, cur: map<string, bool>, used: set<string>, id: string)
    requires WellKeyed(gates) && Progress(gates, ids, values0, cur, used) && Keeps(values, cur)
    requires id in ids && id !in cur && id in gates && gates[id].in1 in cur && gates[id].in2 in cur
    ensures var g := gates[id];
      var next := cur[g.output := ApplyOp(g.op, cur[g.in1], cur[g.in2])];
      Progress(gates, ids, values0, next, used + {g.output}) && Keeps(values, next)
  {
    var g := gates[id];
    var next := cur[id := ApplyOp(g.op, cur[g.in1], cur[g.in2])];
    assert g.output == id;
    KeepsWrite(values0, cur, id, next[id]);
    KeepsWrite(values, cur, id, next[id]);
    ConsistentWrite(gates, cur, used, id);
    KeysWrite(values0, cur, used, id, next[id]);
  }

  /** Writing a wire adds it to the keys and to the computed wires alike. */
  lemma KeysWrite(values0: map<string, bool>, cur: map<string, bool>, used: set<string>, id: string, b: bool)
    requires cur.Keys == values0.Keys + used
    ensures cur[id := b].Keys == values0.Keys + (used + {id})
  {
  }

  /** Writing a wire that has no value keeps every value there is. */
  lemma KeepsWrite(before: map<string, bool>, cur: map<string, bool>, id: string, b: bool)
    requires Keeps(before, cur) && id !in cur
    ensures Keeps(before, cur[id := b])
  {
  }

  /** Computing a gate whose output has no value keeps the computed wires right. */
  lemma ConsistentWrite(gates: map<string, Gate>, cur: map<string, bool>, used: set<string>, id: string)
    requires Consistent(gates, cur, used) && id !in cur && id in gates
    requires gates[id].in1 in cur && gates[id].in2 in cur
    ensures var g := gates[id];
      Consistent(gates, cur[id := ApplyOp(g.op, cur[g.in1], cur[g.in2])], used + {id})
  {
    var g := gates[id];
    var next := cur[id := ApplyOp(g.op, cur[g.in1], cur[g.in2])];
    forall o | o in used + {id}
      ensures o in gates && o in next && gates[o].in1 in next && gates[o].in2 in next
      ensures next[o] == ApplyOp(gates[o].op, next[gates[o].in1], next[gates[o].in2])
    {
      if o != id {
        assert o in cur && gates[o].in1 in cur && gates[o].in2 in cur;
      }
    }
  }

  /** CalcValues: computes every wire of ids that has no value yet, pass after pass,
      with at most fuel passes. It never changes a wire that had a value, it only
      computes wires of ids, each computed wire is its gate applied to its inputs,
      and once settled every wire of ids has a value. */
  method CalcValues(gates: map<string, Gate>, ids: seq<string>, values0: map<string, bool>, fuel: nat)
    returns (out: Outcome)
    requires WellKeyed(gates) && Distinct(ids)
    ensures out.Settled? ==> Keeps(values0, out.values)
    ensures out.Settled? ==> out.values.Keys == values0.Keys + out.used
    ensures out.Settled? ==> forall o :: o in out.used ==> o !in values0 && o in ids
    ensures out.Settled? ==> Consistent(gates, out.values, out.used)
    ensures out.Settled? ==> forall id :: id in ids ==> id in out.values
    ensures out.NoGate? ==> out.id in ids && out.id !in values0 && out.id !in gates
  {
    var values := values0;
    var used: set<string> := {};
    var todo: seq<string> := [];
    var k := 0;
    while k < |ids|
      invariant 0 <= k <= |ids|
      invariant Distinct(todo)
      invariant forall x :: x in todo <==> x in ids[..k] && x !in values0
    {
      if ids[k] !in values {
        todo := todo + [ids[k]];
      }
      k := k + 1;
    }
    var passes := 0;
    while todo != []
      invariant passes <= fuel
      invariant Distinct(todo)
      invariant forall x :: x in todo ==> x in ids && x !in values
      invariant forall x :: x in ids ==> x in values || x in todo
      invariant Progress(gates, ids, values0, values, used)
      decreases fuel - passes
    {
      if passes == fuel {
        return Stuck;
      }
      var missing, done;
      missing, values, used, done := Pass(gates, ids, values0, todo, values, used);
      if missing.Some? {
        return NoGate(missing.value);
      }
      todo := Erase(todo, done);
      passes := passes + 1;
    }
    return Settled(values, used);
  }
}
