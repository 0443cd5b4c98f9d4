/** The three-register computer with eight opcodes (2024/17). */
module Computer {
  import opened Common

  /** The opcodes, by their numbers 0 .. 7. */
  datatype Op = ADV | BXL | BST | JNZ | BXC | OUT | BDV | CDV

  /** static_cast<Op>: the opcode a program byte names, if any. A byte above 7
      names no case of the switch. */
  function OpOf(code: nat): (r: Option<Op>)
    ensures r.Some? <==> code < 8
    ensures r.Some? ==> OpCode(r.value) == code
  {
    if code == 0 then Some(ADV)
    else if code == 1 then Some(BXL)
    else if code == 2 then Some(BST)
    else if code == 3 then Some(JNZ)
    else if code == 4 then Some(BXC)
    else if code == 5 then Some(OUT)
    else if code == 6 then Some(BDV)
    else if code == 7 then Some(CDV)
    else None
  }

  function OpCode(op: Op): nat {
    match op
    case ADV => 0
    case BXL => 1
    case BST => 2
    case JNZ => 3
    case BXC => 4
    case OUT => 5
    case BDV => 6
    case CDV => 7
  }

  /** Registers A, B and C, each a 64-bit unsigned value. */
  predicate ValidRegs(regs: seq<nat>) {
    |regs| == 3 && regs[0] < TWO_64 && regs[1] < TWO_64 && regs[2] < TWO_64
  }

  /** GetComboValue: operands 0 .. 3 stand for themselves, 4 .. 6 for registers A,
      B and C; operand 7 is rejected (the CHECK failure is None). */
  function ComboValue(operand: nat, regs: seq<nat>): (r: Option<nat>)
    requires ValidRegs(regs)
    ensures r.Some? <==> operand < 7
    ensures r.Some? ==> r.value < TWO_64
    ensures operand < 4 ==> r == Some(operand)
    ensures 4 <= operand < 7 ==> r == Some(regs[operand - 4])
  {
    if operand >= 7 then None
    else if operand < 4 then Some(operand)
    else Some(regs[operand - 4])
  }

  /** Bitwise exclusive or, bit by bit from the lowest. */
  function Xor(x: nat, y: nat): (r: nat)
    decreases x + y
  {
    if x == 0 && y == 0 then 0 else 2 * Xor(x / 2, y / 2) + (x % 2 + y % 2) % 2
  }

  /** Exclusive or stays within n bits. */
  lemma {:induction false} XorBelow(x: nat, y: nat, n: nat)
    requires x < Pow2(n) && y < Pow2(n)
    ensures Xor(x, y) < Pow2(n)
    decreases n
  {
    if n > 0 && (x != 0 || y != 0) {
      XorBelow(x / 2, y / 2, n - 1);
    }
  }

  /** Exclusive or with the same value twice changes nothing. */
  lemma {:induction false} XorInvolution(x: nat, y: nat)
    ensures Xor(Xor(x, y), y) == x
    decreases x + y
  {
    if x != 0 || y != 0 {
      XorInvolution(x / 2, y / 2);
      var z := Xor(x, y);
      XorHalves(x, y);
      XorUnfold(z, y);
      BitTwice(x % 2, y % 2);
    }
  }

  /** The defining step of Xor, also at zero. */
  lemma XorUnfold(x: nat, y: nat)
    ensures Xor(x, y) == 2 * Xor(x / 2, y / 2) + (x % 2 + y % 2) % 2
  {
  }

  /** The high bits and the low bit of an exclusive or. */
  lemma XorHalves(x: nat, y: nat)
    ensures Xor(x, y) / 2 == Xor(x / 2, y / 2) && Xor(x, y) % 2 == (x % 2 + y % 2) % 2
  {
    XorUnfold(x, y);
    DivModUnique(Xor(x, y), 2, Xor(x / 2, y / 2), (x % 2 + y % 2) % 2);
  }

  lemma BitTwice(p: nat, q: nat)
    requires p < 2 && q < 2
    ensures ((p + q) % 2 + q) % 2 == p
  {
  }

  /** Exclusive or with zero changes nothing. */
  lemma {:induction false} XorZero(x: nat)
    ensures Xor(x, 0) == x
    decreases x
  {
    if x != 0 {
      XorZero(x / 2);
    }
  }

  /** Exclusive or of two 64-bit values is a 64-bit value. */
  lemma Xor64(x: nat, y: nat)
    requires x < TWO_64 && y < TWO_64
    ensures Xor(x, y) < TWO_64
  {
    Pow2Of64();
    XorBelow(x, y, 64);
  }


  /** Floor division, characterised by its bounds. */
  function Quotient(a: nat, p: nat): (q: nat)
    requires p >= 1
    ensures q <= a && q * p <= a < (q + 1) * p
  {
    DivBounds(a, p);
    a / p
  }

  /** `1 << k` shifts a 32-bit int, and the result is converted to the u64 it
      divides. Since C++20 the shift gives the value congruent to 2^k modulo 2^32,
      so `1 << 31` is INT_MIN, which converts to 2^64 - 2^31; a count from 32 on
      is undefined. */
  function ShiftedOne(k: nat): (d: nat)
    requires k <= 31
    ensures 1 <= d < TWO_64 && d % TWO_32 == Pow2(k)
    ensures k < 31 <==> d < TWO_32
  {
    Pow2Of32();
    Pow2Of64();
    if k < 31 then
      Pow2Monotone(k, 30);
      Pow2(k)
    else
      TWO_64 - TWO_32 / 2
  }

  /** A / (1 << combo): defined for the shift counts up to 31, where it is the
      floor quotient by ShiftedOne; None for an invalid combo operand or a larger
      count. */
  function Divide(a: nat, combo: Option<nat>): (r: Option<nat>)
    ensures r.Some? <==> combo.Some? && combo.value <= 31
    ensures r.Some? ==> r.value <= a && r.value * ShiftedOne(combo.value) <= a < (r.value + 1) * ShiftedOne(combo.value)
  {
    if combo.None? || combo.value > 31 then None
    else Some(Quotient(a, ShiftedOne(combo.value)))
  }

  lemma DivBounds(a: nat, p: nat)
    requires p >= 1
    ensures a / p <= a && (a / p) * p <= a < (a / p + 1) * p
  {
    var q := a / p;
    assert a == q * p + a % p;
    MulAtLeast(q, p);
    MulSuccessor(q, p);
  }

  lemma MulSuccessor(q: nat, p: nat)
    ensures (q + 1) * p == q * p + p
  {
  }

  /** The machine state Execute works on: the registers, the output so far and the
      instruction pointer. */
  datatype State = State(regs: seq<nat>, output: seq<nat>, instruction: nat)

  predicate ValidState(s: State) {
    ValidRegs(s.regs) && forall k :: 0 <= k < |s.output| ==> s.output[k] < 8
  }

  /** The effect of one instruction; None where the source aborts (combo operand
      7) or leaves the defined range of its shift. */
  function Step(s: State, opcode: nat, operand: nat): (r: Option<State>)
    requires ValidState(s) && opcode < 256 && operand < 256
    ensures r.Some? ==> ValidState(r.value)
    // Only a taken jump skips the advance by two.
    ensures r.Some? && opcode == 3 && s.regs[0] > 0 ==> r.value.instruction == operand
    ensures r.Some? && !(opcode == 3 && s.regs[0] > 0) ==> r.value.instruction == s.instruction + 2
    // The output only grows, by OUT and by one value.
    ensures r.Some? && opcode != 5 ==> r.value.output == s.output
    ensures r.Some? && opcode == 5 ==> |r.value.output| == |s.output| + 1 && r.value.output[..|s.output|] == s.output
    // Each opcode writes only its own register.
    ensures r.Some? && opcode != 0 ==> r.value.regs[0] == s.regs[0]
    ensures r.Some? && opcode !in {1, 2, 4, 6} ==> r.value.regs[1] == s.regs[1]
    ensures r.Some? && opcode != 7 ==> r.value.regs[2] == s.regs[2]
    // Only a combo operand of 7 or an oversized shift fails.
    ensures r.None? ==> opcode in {0, 2, 5, 6, 7} && (operand >= 7 || opcode in {0, 6, 7})
  {
    var regs := s.regs;
    var next := State(regs, s.output, s.instruction + 2);
    match OpOf(opcode)
    case None => Some(next)
    case Some(op) =>
      match op
      case ADV =>
        var q := Divide(regs[0], ComboValue(operand, regs));
        if q.None? then None else Some(next.(regs := regs[0 := q.value]))
      case BXL =>
        Xor64(regs[1], operand);
        Some(next.(regs := regs[1 := Xor(regs[1], operand)]))
      case BST =>
        var v := ComboValue(operand, regs);
        if v.None? then None else Some(next.(regs := regs[1 := v.value % 8]))
      case JNZ =>
        if regs[0] > 0 then Some(s.(instruction := operand)) else Some(next)
      case BXC =>
        Xor64(regs[1], regs[2]);
        Some(next.(regs := regs[1 := Xor(regs[1], regs[2])]))
      case OUT =>
        var v := ComboValue(operand, regs);
        if v.None? then None
        else
          assert (s.output + [v.value % 8])[..|s.output|] == s.output;
          Some(next.(output := s.output + [v.value % 8]))
      case BDV =>
        var q := Divide(regs[0], ComboValue(operand, regs));
        if q.None? then None else Some(next.(regs := regs[1 := q.value]))
      case CDV =>
        var q := Divide(regs[0], ComboValue(operand, regs));
        if q.None? then None else Some(next.(regs := regs[2 := q.value]))
  }

  /** The largest defined shift: ADV with combo operand 4 on A = 31 divides 31 by
      2^64 - 2^31, leaves A at 0 and goes on to the next instruction. */
  lemma ShiftByThirtyOne()
    ensures Step(State([31, 0, 0], [], 0), 0, 4) == Some(State([0, 0, 0], [], 2))
  {
    var s := State([31, 0, 0], [], 0);
    assert ComboValue(4, s.regs) == Some(31);
    assert ShiftedOne(31) > 31;
    assert OpOf(0) == Some(ADV);
    assert Divide(31, Some(31)) == Some(0);
    assert s.regs[0 := 0] == [0, 0, 0];
  }

  /** The appended value of OUT is the combo operand modulo 8. */
  lemma OutAppendsCombo(s: State, operand: nat)
    requires ValidState(s) && operand < 256
    requires Step(s, 5, operand).Some?
    ensures ComboValue(operand, s.regs).Some?
    ensures Step(s, 5, operand).value.output == s.output + [ComboValue(operand, s.regs).value % 8]
    ensures Step(s, 5, operand).value.regs == s.regs
  {
  }

  /** The program is a vector of bytes. */
  predicate Bytes(program: seq<nat>) {
    forall k :: 0 <= k < |program| ==> program[k] < 256
  }

  /** The instruction loop of the solver: run while the instruction pointer is in the
      program, at most fuel steps. Some((state, halted)) reports whether the program
      left the loop; None is a failed step, or program.at(instruction + 1) throwing
      when only an opcode is left. */
  function Steps(program: seq<nat>, s: State, fuel: nat): (r: Option<(State, bool)>)
    requires ValidState(s) && Bytes(program)
    ensures r.Some? ==> ValidState(r.value.0)
    ensures r.Some? ==> (r.value.1 <==> r.value.0.instruction >= |program|)
    ensures fuel == 0 ==> r == Some((s, s.instruction >= |program|))
    decreases fuel
  {
    if s.instruction >= |program| then Some((s, true))
    else if fuel == 0 then Some((s, false))
    else if s.instruction + 1 >= |program| then None
    else
      match Step(s, program[s.instruction], program[s.instruction + 1])
      case None => None
      case Some(t) => Steps(program, t, fuel - 1)
  }

  /** The output of a run extends the output it started with, and holds only
      values below 8. */
  lemma {:induction false} StepsExtendOutput(program: seq<nat>, s: State, fuel: nat)
    requires ValidState(s) && Bytes(program)
    requires Steps(program, s, fuel).Some?
    ensures |s.output| <= |Steps(program, s, fuel).value.0.output|
    ensures Steps(program, s, fuel).value.0.output[..|s.output|] == s.output
    decreases fuel
  {
    if s.instruction < |program| && fuel > 0 {
      var t := Step(s, program[s.instruction], program[s.instruction + 1]).value;
      StepsExtendOutput(program, t, fuel - 1);
      var out := Steps(program, t, fuel - 1).value.0.output;
      assert out[..|s.output|] == out[..|t.output|][..|s.output|];
    }
  }

  /** Running in two legs: fuel can be spent in any split. */
  lemma {:induction false} StepsSplit(program: seq<nat>, s: State, f: nat, g: nat)
    requires ValidState(s) && Bytes(program)
    requires Steps(program, s, f).Some?
    ensures Steps(program, s, f + g) == Steps(program, Steps(program, s, f).value.0, g)
    decreases f
  {
    if f > 0 && s.instruction < |program| {
      var t := Step(s, program[s.instruction], program[s.instruction + 1]).value;
      StepsSplit(program, t, f - 1, g);
    }
  }

  /** The machine as the solver holds it: the register vector, the output vector and
      the instruction counter, all updated in place by Execute. */
  class Machine {
    var regs: seq<nat>
    var output: seq<nat>
    var instruction: nat

    ghost predicate Valid()
      reads this
    {
      ValidState(State(regs, output, instruction))
    }

    function Snapshot(): State
      reads this
    {
      State(regs, output, instruction)
    }

    constructor (a: nat, b: nat, c: nat)
      requires a < TWO_64 && b < TWO_64 && c < TWO_64
      ensures Valid() && regs == [a, b, c] && output == [] && instruction == 0
    {
      regs := [a, b, c];
      output := [];
      instruction := 0;
    }

    /** Execute: one instruction on the machine. ok is false where Step is None,
        and then nothing changes. */
    method Execute(opcode: nat, operand: nat) returns (ok: bool)
      requires Valid() && opcode < 256 && operand < 256
      modifies this
      ensures Valid()
      ensures ok <==> Step(old(Snapshot()), opcode, operand).Some?
      ensures ok ==> Snapshot() == Step(old(Snapshot()), opcode, operand).value
      ensures !ok ==> Snapshot() == old(Snapshot())
    {
      var op := OpOf(opcode);
      if op.None? {
        instruction := instruction + 2;
        return true;
      }
      match op.value {
        case ADV =>
          var q := Divide(regs[0], ComboValue(operand, regs));
          if q.None? { return false; }
          regs := regs[0 := q.value];
        case BXL =>
          Xor64(regs[1], operand);
          regs := regs[1 := Xor(regs[1], operand)];
        case BST =>
          var v := ComboValue(operand, regs);
          if v.None? { return false; }
          regs := regs[1 := v.value % 8];
        case JNZ =>
          if regs[0] > 0 {
            instruction := operand;
            return true;
          }
        case BXC =>
          Xor64(regs[1], regs[2]);
          regs := regs[1 := Xor(regs[1], regs[2])];
        case OUT =>
          var v := ComboValue(operand, regs);
          if v.None? { return false; }
          output := output + [v.value % 8];
        case BDV =>
          var q := Divide(regs[0], ComboValue(operand, regs));
          if q.None? { return false; }
          regs := regs[1 := q.value];
        case CDV =>
          var q := Divide(regs[0], ComboValue(operand, regs));
          if q.None? { return false; }
          regs := regs[2 := q.value];
      }
      instruction := instruction + 2;
      ok := true;
    }

    /** The solver's instruction loop, with at most fuel steps. */
    method Run(program: seq<nat>, fuel: nat) returns (ok: bool, halted: bool)
      requires Valid() && Bytes(program)
      modifies this
      ensures Valid()
      ensures ok <==> Steps(program, old(Snapshot()), fuel).Some?
      ensures ok ==> (Snapshot(), halted) == Steps(program, old(Snapshot()), fuel).value
    {
      ghost var start := Snapshot();
      var steps := 0;
      while instruction < |program| && steps < fuel
        invariant Valid()
        invariant 0 <= steps <= fuel
        invariant Steps(program, start, steps) == Some((Snapshot(), instruction >= |program|))
        decreases fuel - steps
      {
        ghost var before := Snapshot();
        if instruction + 1 >= |program| {
          StepsFail(program, start, steps, fuel, before);
          return false, false;
        }
        var stepped := Execute(program[instruction], program[instruction + 1]);
        if !stepped {
          StepsFail(program, start, steps, fuel, before);
          return false, false;
        }
        StepsSplit(program, start, steps, 1);
        steps := steps + 1;
      }
      StepsSplit(program, start, steps, fuel - steps);
      ok := true;
      halted := instruction >= |program|;
    }
  }

  /** A step that fails fails the run from that point on. */
  lemma StepsFail(program: seq<nat>, s: State, steps: nat, fuel: nat, t: State)
    requires ValidState(s) && ValidState(t) && Bytes(program) && steps < fuel
    requires Steps(program, s, steps) == Some((t, false))
    requires t.instruction + 1 >= |program| ||
             Step(t, program[t.instruction], program[t.instruction + 1]).None?
    ensures Steps(program, s, fuel).None?
  {
    StepsSplit(program, s, steps, fuel - steps);
  }
}
