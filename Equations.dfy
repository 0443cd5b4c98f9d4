/** Calibration equations: can operators placed between the operands, evaluated left
    to right, give the goal (2024/07)? Two solvers: a forward search that prunes once
    the running value exceeds the goal, and a backward one that undoes the operators
    from the last operand. */
module Equations {
  import opened Common
  import opened Digits

  datatype Op = Add | Mul | Concat

  /** The operators allowed: concatenation only when it is switched on. */
  function Allowed(useConcat: bool): (r: set<Op>)
    ensures Add in r && Mul in r && (Concat in r <==> useConcat)
  {
    if useConcat then {Add, Mul, Concat} else {Add, Mul}
  }

  /** The exact value of one operator, on unbounded integers. */
  function Exact(left: nat, right: nat, op: Op): nat {
    match op
    case Add => left + right
    case Mul => left * right
    case Concat => left * Pow10(DecimalLength(right)) + right
  }

  /** Concatenation writes the right operand's digits after the left one's. */
  lemma ConcatIsDigitConcat(left: nat, right: nat)
    requires left >= 1
    ensures DecimalString(Exact(left, right, Concat)) == DecimalString(left) + DecimalString(right)
  {
    ConcatDigits(left, right);
  }

  predicate U64s(ops: seq<nat>) {
    forall k :: 0 <= k < |ops| ==> ops[k] < TWO_64
  }

  /** Every operand has fewer than 20 digits, so that kTenPowers[NumDigits(operand)]
      is inside the 20-entry table. */
  predicate ShortOperands(ops: seq<nat>) {
    forall k :: 0 <= k < |ops| ==> DecimalLength(ops[k]) < 20
  }

  /** The operands the search runs on: 64-bit values, short enough for the
      table when concatenation is on. */
  predicate Searchable(ops: seq<nat>, useConcat: bool) {
    U64s(ops) && (useConcat ==> ShortOperands(ops))
  }

  /** ApplyOp: one operator in unsigned 64-bit arithmetic; without overflow it is
      the exact value. */
  function ApplyOp(left: nat, right: nat, op: Op): (r: nat)
    requires op == Concat ==> DecimalLength(right) < 20
    ensures r < TWO_64
    ensures Exact(left, right, op) < TWO_64 ==> r == Exact(left, right, op)
  {
    match op
    case Add => Wrap64(left + right)
    case Mul => Wrap64(left * right)
    case Concat =>
      TenPowersTable(DecimalLength(right));
      Wrap64(left * TEN_POWERS[DecimalLength(right)] + right)
  }

  // ---------------------------------------------------------------------------
  // The reference: an assignment of operators, evaluated left to right

  /** Every operator of the choice is one that is switched on. */
  predicate AllAllowed(choice: seq<Op>, useConcat: bool) {
    forall k :: 0 <= k < |choice| ==> choice[k] in Allowed(useConcat)
  }

  /** The first n operands with choice[k] placed between operands k and k + 1,
      evaluated left to right and without overflow. */
  function Eval(ops: seq<nat>, n: nat, choice: seq<Op>): nat
    requires 1 <= n <= |ops| && |choice| == n - 1
    decreases n
  {
    if n == 1 then ops[0]
    else Exact(Eval(ops, n - 1, choice[..n - 2]), ops[n - 1], choice[n - 2])
  }

  /** Some assignment of allowed operators makes the first n operands evaluate to goal:
      what makes the equation true. */
  ghost predicate Solvable(goal: nat, ops: seq<nat>, n: nat, useConcat: bool)
    requires 1 <= n <= |ops|
  {
    exists choice :: |choice| == n - 1 && AllAllowed(choice, useConcat) && Eval(ops, n, choice) == goal
  }

  /** Extending a choice by one operator applies that operator to its value. */
  lemma EvalExtend(ops: seq<nat>, n: nat, choice: seq<Op>, op: Op)
    requires 1 <= n < |ops| && |choice| == n - 1
    ensures Eval(ops, n + 1, choice + [op]) == Exact(Eval(ops, n, choice), ops[n], op)
  {
    assert (choice + [op])[..n - 1] == choice;
  }

  /** Starting from the running value cur before operand i, some choice of the
      remaining operators evaluates exactly to goal. */
  predicate ReachFrom(goal: nat, cur: nat, ops: seq<nat>, i: nat, useConcat: bool)
    requires 1 <= i <= |ops|
    decreases |ops| - i
  {
    if i == |ops| then cur == goal
    else
      ReachFrom(goal, Exact(cur, ops[i], Add), ops, i + 1, useConcat) ||
      ReachFrom(goal, Exact(cur, ops[i], Mul), ops, i + 1, useConcat) ||
      (useConcat && ReachFrom(goal, Exact(cur, ops[i], Concat), ops, i + 1, useConcat))
  }

  /** Going on from the value of a choice for the first i operands reaches goal exactly
      when that choice extends to a whole assignment that gives goal. */
  lemma {:induction false} ReachFromSolvable(goal: nat, ops: seq<nat>, i: nat, pre: seq<Op>, useConcat: bool)
    requires 1 <= i <= |ops| && |pre| == i - 1 && AllAllowed(pre, useConcat)
    ensures ReachFrom(goal, Eval(ops, i, pre), ops, i, useConcat) <==>
      exists choice :: (|choice| == |ops| - 1 && AllAllowed(choice, useConcat) && choice[..i - 1] == pre &&
        Eval(ops, |ops|, choice) == goal)
    decreases |ops| - i
  {
    if i == |ops| {
      assert pre[..i - 1] == pre;
      if exists choice :: (|choice| == |ops| - 1 && AllAllowed(choice, useConcat) && choice[..i - 1] == pre &&
        Eval(ops, |ops|, choice) == goal)
      {
        var choice :| |choice| == |ops| - 1 && choice[..i - 1] == pre && Eval(ops, |ops|, choice) == goal;
        assert choice == choice[..i - 1];
      }
    } else {
      var cur := Eval(ops, i, pre);
      if ReachFrom(goal, cur, ops, i, useConcat) {
        var op :| op in Allowed(useConcat) && ReachFrom(goal, Exact(cur, ops[i], op), ops, i + 1, useConcat);
        EvalExtend(ops, i, pre, op);
        ReachFromSolvable(goal, ops, i + 1, pre + [op], useConcat);
        var choice :| |choice| == |ops| - 1 && AllAllowed(choice, useConcat) && choice[..i] == pre + [op] &&
          Eval(ops, |ops|, choice) == goal;
        assert choice[..i - 1] == choice[..i][..i - 1] == pre;
      }
      if exists choice :: (|choice| == |ops| - 1 && AllAllowed(choice, useConcat) && choice[..i - 1] == pre &&
        Eval(ops, |ops|, choice) == goal)
      {
        var choice :| |choice| == |ops| - 1 && AllAllowed(choice, useConcat) && choice[..i - 1] == pre &&
          Eval(ops, |ops|, choice) == goal;
        var op := choice[i - 1];
        assert choice[..i] == pre + [op];
        EvalExtend(ops, i, pre, op);
        ReachFromSolvable(goal, ops, i + 1, pre + [op], useConcat);
      }
    }
  }

  // ---------------------------------------------------------------------------
  // The forward solver (source/2024/07)

  /** IsValid: (true, goal) when some choice of operators from operand i on turns
      cur into goal, (false, 0) otherwise; a running value above the goal is
      abandoned at once. */
  function Forward(goal: nat, cur: nat, ops: seq<nat>, i: nat, useConcat: bool): (r: (bool, nat))
    requires 1 <= i < |ops| && Searchable(ops, useConcat)
    ensures r.1 == if r.0 then goal else 0
    decreases |ops| - i
  {
    var o := ops[i];
    if cur > goal then (false, 0)
    else if i == |ops| - 1 then
      if goal == ApplyOp(cur, o, Add) then (true, goal)
      else if goal == ApplyOp(cur, o, Mul) then (true, goal)
      else if useConcat && goal == ApplyOp(cur, o, Concat) then (true, goal)
      else (false, 0)
    else
      var byAdd := Forward(goal, ApplyOp(cur, o, Add), ops, i + 1, useConcat);
      if byAdd.0 then byAdd
      else
        var byMul := Forward(goal, ApplyOp(cur, o, Mul), ops, i + 1, useConcat);
        if byMul.0 then byMul
        else if useConcat then Forward(goal, ApplyOp(cur, o, Concat), ops, i + 1, useConcat)
        else (false, 0)
  }

  /** Every operand after the first is positive: the pruning and the division need it. */
  predicate Positive(ops: seq<nat>) {
    forall k :: 1 <= k < |ops| ==> ops[k] >= 1
  }

  /** No operator applied to a value up to goal and an operand overflows 64 bits. */
  predicate Fits(goal: nat, ops: seq<nat>) {
    forall k :: 1 <= k < |ops| ==> goal * ops[k] < TWO_64 && goal * Pow10(DecimalLength(ops[k])) + ops[k] < TWO_64
  }

  /** The conditions under which the forward search is exact. */
  predicate InRange(goal: nat, ops: seq<nat>) {
    Positive(ops) && Fits(goal, ops)
  }

  /** With positive operands no operator makes the running value smaller. */
  lemma Grows(cur: nat, o: nat, op: Op)
    requires o >= 1
    ensures Exact(cur, o, op) >= cur
  {
    MulAtLeast(cur, o);
    MulAtLeast(cur, Pow10(DecimalLength(o)));
  }

  /** So a running value above the goal can never come back down to it. */
  lemma {:induction false} ReachBounded(goal: nat, cur: nat, ops: seq<nat>, i: nat, useConcat: bool)
    requires 1 <= i <= |ops| && Positive(ops)
    ensures ReachFrom(goal, cur, ops, i, useConcat) ==> cur <= goal
    decreases |ops| - i
  {
    if i < |ops| {
      Grows(cur, ops[i], Add);
      Grows(cur, ops[i], Mul);
      Grows(cur, ops[i], Concat);
      ReachBounded(goal, Exact(cur, ops[i], Add), ops, i + 1, useConcat);
      ReachBounded(goal, Exact(cur, ops[i], Mul), ops, i + 1, useConcat);
      ReachBounded(goal, Exact(cur, ops[i], Concat), ops, i + 1, useConcat);
    }
  }

  lemma NoWrap(goal: nat, cur: nat, o: nat, op: Op)
    requires cur <= goal && goal * o < TWO_64 && goal * Pow10(DecimalLength(o)) + o < TWO_64
    ensures Exact(cur, o, op) < TWO_64
  {
    var p := Pow10(DecimalLength(o));
    MulAtLeast(goal, p);
    MulMono2(cur, goal, o);
    MulMono2(cur, goal, p);
  }

  /** No operator overflows on a running value up to the goal. */
  lemma NoWrapAt(goal: nat, cur: nat, ops: seq<nat>, i: nat)
    requires 1 <= i < |ops| && cur <= goal && Fits(goal, ops)
    ensures Exact(cur, ops[i], Add) < TWO_64 && Exact(cur, ops[i], Mul) < TWO_64 && Exact(cur, ops[i], Concat) < TWO_64
  {
    NoWrap(goal, cur, ops[i], Add);
    NoWrap(goal, cur, ops[i], Mul);
    NoWrap(goal, cur, ops[i], Concat);
  }

  /** Without overflow the forward search, pruning included, finds a choice of
      operators exactly when one exists. */
  lemma {:induction false} ForwardIsReach(goal: nat, cur: nat, ops: seq<nat>, i: nat, useConcat: bool)
    requires 1 <= i < |ops| && Searchable(ops, useConcat)
    requires InRange(goal, ops)
    ensures Forward(goal, cur, ops, i, useConcat).0 <==> ReachFrom(goal, cur, ops, i, useConcat)
    decreases |ops| - i, 2
  {
    if cur > goal {
      ForwardPruned(goal, cur, ops, i, useConcat);
    } else {
      NoWrapAt(goal, cur, ops, i);
      if i < |ops| - 1 {
        ForwardStep(goal, cur, ops, i, useConcat);
      } else {
        ForwardLast(goal, cur, ops, i, useConcat);
      }
    }
  }

  /** A running value above the goal is abandoned, rightly. */
  lemma ForwardPruned(goal: nat, cur: nat, ops: seq<nat>, i: nat, useConcat: bool)
    requires 1 <= i < |ops| && Searchable(ops, useConcat) && Positive(ops) && cur > goal
    ensures !Forward(goal, cur, ops, i, useConcat).0 && !ReachFrom(goal, cur, ops, i, useConcat)
  {
    ReachBounded(goal, cur, ops, i, useConcat);
  }

  /** One level of the search when nothing overflows: the three recursive searches. */
  lemma {:induction false} ForwardStep(goal: nat, cur: nat, ops: seq<nat>, i: nat, useConcat: bool)
    requires 1 <= i < |ops| - 1 && Searchable(ops, useConcat) && cur <= goal && InRange(goal, ops)
    requires Exact(cur, ops[i], Add) < TWO_64 && Exact(cur, ops[i], Mul) < TWO_64 && Exact(cur, ops[i], Concat) < TWO_64
    ensures Forward(goal, cur, ops, i, useConcat).0 <==> ReachFrom(goal, cur, ops, i, useConcat)
    decreases |ops| - i, 1
  {
    var o := ops[i];
    ForwardChild(goal, cur, ops, i, useConcat, Add);
    ForwardChild(goal, cur, ops, i, useConcat, Mul);
    ForwardChild(goal, cur, ops, i, useConcat, Concat);
    assert ApplyOp(cur, o, Add) == Exact(cur, o, Add) && ApplyOp(cur, o, Mul) == Exact(cur, o, Mul);
    assert useConcat ==> ApplyOp(cur, o, Concat) == Exact(cur, o, Concat);
  }

  /** The search after one operator, by induction. */
  lemma {:induction false} ForwardChild(goal: nat, cur: nat, ops: seq<nat>, i: nat, useConcat: bool, op: Op)
    requires 1 <= i < |ops| - 1 && Searchable(ops, useConcat) && InRange(goal, ops)
    ensures Forward(goal, Exact(cur, ops[i], op), ops, i + 1, useConcat).0 <==>
      ReachFrom(goal, Exact(cur, ops[i], op), ops, i + 1, useConcat)
    decreases |ops| - i, 0
  {
    ForwardIsReach(goal, Exact(cur, ops[i], op), ops, i + 1, useConcat);
  }

  /** The last operand when nothing overflows: one of the three results is the goal. */
  lemma ForwardLast(goal: nat, cur: nat, ops: seq<nat>, i: nat, useConcat: bool)
    requires 1 <= i == |ops| - 1 && Searchable(ops, useConcat) && cur <= goal
    requires Exact(cur, ops[i], Add) < TWO_64 && Exact(cur, ops[i], Mul) < TWO_64 && Exact(cur, ops[i], Concat) < TWO_64
    ensures Forward(goal, cur, ops, i, useConcat).0 <==> ReachFrom(goal, cur, ops, i, useConcat)
  {
    var o := ops[i];
    assert ApplyOp(cur, o, Add) == Exact(cur, o, Add) && ApplyOp(cur, o, Mul) == Exact(cur, o, Mul);
    assert useConcat ==> ApplyOp(cur, o, Concat) == Exact(cur, o, Concat);
  }

  /** The solver's call IsValid(goal, operands.at(0), operands, 1, concat). None where
      it throws: no operands, or a single one not above the goal (operands.at(1)). */
  function SolveEquation(goal: nat, ops: seq<nat>, useConcat: bool): (r: Option<(bool, nat)>)
    requires Searchable(ops, useConcat)
    ensures r.None? <==> |ops| == 0 || (|ops| == 1 && ops[0] <= goal)
    ensures r.Some? ==> r.value == (true, goal) || r.value == (false, 0)
  {
    if |ops| == 0 then None
    else if |ops| == 1 then (if ops[0] > goal then Some((false, 0)) else None)
    else Some(Forward(goal, ops[0], ops, 1, useConcat))
  }

  /** Without overflow, the equation is accepted exactly when goal is one of the values
      of its operands. */
  lemma SolveEquationCorrect(goal: nat, ops: seq<nat>, useConcat: bool)
    requires |ops| >= 2 && Searchable(ops, useConcat)
    requires InRange(goal, ops)
    ensures SolveEquation(goal, ops, useConcat).Some?
    ensures SolveEquation(goal, ops, useConcat).value.0 <==> Solvable(goal, ops, |ops|, useConcat)
  {
    ForwardIsReach(goal, ops[0], ops, 1, useConcat);
    ReachFromSolvable(goal, ops, 1, [], useConcat);
    if Solvable(goal, ops, |ops|, useConcat) {
      var choice :| |choice| == |ops| - 1 && AllAllowed(choice, useConcat) && Eval(ops, |ops|, choice) == goal;
      assert choice[..0] == [];
    }
  }

  /** With overflow the forward search can accept an impossible equation:
      2^32 * (2^32 + 1) wraps to 2^32. */
  lemma ForwardWrapAccepts()
    ensures SolveEquation(TWO_32, [TWO_32, TWO_32 + 1], false) == Some((true, TWO_32))
    ensures !Solvable(TWO_32, [TWO_32, TWO_32 + 1], 2, false)
  {
    assert ApplyOp(TWO_32, TWO_32 + 1, Mul) == TWO_32;
    NotSolvableTwo(TWO_32, [TWO_32, TWO_32 + 1], false);
  }

  /** With a zero operand the pruning `cur > goal` is unsound: 5 * 0 = 0, yet the
      search abandons the running value 5 before it reaches the 0. */
  lemma ForwardZeroRejects()
    ensures SolveEquation(0, [5, 0], false) == Some((false, 0))
    ensures Solvable(0, [5, 0], 2, false)
  {
    assert Eval([5, 0], 2, [Mul]) == Exact(5, 0, Mul) == 0;
    assert AllAllowed([Mul], false);
  }

  /** A two-operand equation is solvable exactly when one operator gives the goal. */
  lemma NotSolvableTwo(goal: nat, ops: seq<nat>, useConcat: bool)
    requires |ops| == 2
    ensures Solvable(goal, ops, 2, useConcat) <==> exists op :: op in Allowed(useConcat) && Exact(ops[0], ops[1], op) == goal
  {
    if Solvable(goal, ops, 2, useConcat) {
      var choice :| |choice| == 1 && AllAllowed(choice, useConcat) && Eval(ops, 2, choice) == goal;
      assert choice[0] in Allowed(useConcat);
    }
    if exists op :: op in Allowed(useConcat) && Exact(ops[0], ops[1], op) == goal {
      var op :| op in Allowed(useConcat) && Exact(ops[0], ops[1], op) == goal;
      assert Eval(ops, 2, [op]) == goal;
    }
  }

  // ---------------------------------------------------------------------------
  // The backward solver (aoc_lib/2024/07), as written

  const TWO_63: int := 0x8000_0000_0000_0000

  /** static_cast<i64> of a u64: values from 2^63 on become negative. */
  function ToI64(x: nat): (r: int)
    requires x < TWO_64
    ensures -TWO_63 <= r < TWO_63 && (r - x) % TWO_64 == 0
  {
    if x < TWO_63 then x else x - TWO_64
  }

  function Abs(x: int): nat {
    if x < 0 then -x else x
  }

  /** The quotient std::div computes: rounded toward zero. */
  function TruncDiv(a: int, b: int): int
    requires b != 0
  {
    if (a >= 0) == (b > 0) then Abs(a) / Abs(b) else -(Abs(a) / Abs(b))
  }

  /** The remainder std::div computes: it has the sign of the dividend, so that
      quotient times divisor plus remainder is the dividend. */
  function TruncRem(a: int, b: int): int
    requires b != 0
  {
    if a >= 0 then Abs(a) % Abs(b) else -(Abs(a) % Abs(b))
  }


  /** IsValid as written: the division undoes a product through signed 64-bit
      std::div, the concatenation test and the subtraction work on unsigned 64-bit
      values that wrap below zero. None is undefined behaviour: division by zero, the
      one signed quotient that overflows, and an operand of 20 digits. */
  function BackwardAsWritten(goal: nat, ops: seq<nat>, i: nat, useConcat: bool): (r: Option<bool>)
    requires i < |ops| && goal < TWO_64 && U64s(ops)
    ensures i == 0 ==> r == Some(goal == ops[0])
    decreases i
  {
    var o := ops[i];
    if i == 0 then Some(goal == o)
    else
      var g := ToI64(goal);
      var d := ToI64(o);
      if d == 0 || (g == -TWO_63 && d == -1) then None
      else
        var q := TruncDiv(g, d);
        var byMul := if TruncRem(g, d) == 0 then BackwardAsWritten(Wrap64(q), ops, i - 1, useConcat) else Some(false);
        if byMul != Some(false) then byMul
        else
          var byConcat :=
            if !useConcat then Some(false)
            else if DecimalLength(o) >= 20 then None
            else
              (var tens := TEN_POWERS[DecimalLength(o)];
               TenPowersPositive(DecimalLength(o));
               DivIsSmaller(goal, tens);
               if Wrap64(goal - o) % tens == 0 then BackwardAsWritten(goal / tens, ops, i - 1, useConcat)
               else Some(false));
          if byConcat != Some(false) then byConcat
          else BackwardAsWritten(Wrap64(goal - o), ops, i - 1, useConcat)
  }

  /** When the goal is below the operand, goal - operand wraps to a number that can
      end in the operand's digits: goal 1 with operands [0, 7] is accepted through
      2^64 - 6, which ends in 0, and 1 / 10 == 0, though 0 + 7, 0 * 7 and 0 || 7
      never give 1. */
  lemma BackwardAsWrittenAcceptsImpossible()
    ensures BackwardAsWritten(1, [0, 7], 1, true) == Some(true)
    ensures !Solvable(1, [0, 7], 2, true)
    ensures !Backward(1, [0, 7], 1, true)
  {
    NotSolvableTwo(1, [0, 7], true);
    assert DecimalLength(7) == 1 && TEN_POWERS[1] == 10 && Pow10(1) == 10;
    assert Wrap64(1 - 7) == TWO_64 - 6;
  }

  /** Operands after the first are positive and below 2^63, so that static_cast<i64>
      keeps them and the division is defined. */
  predicate Signed(ops: seq<nat>) {
    forall k :: 1 <= k < |ops| ==> 1 <= ops[k] < TWO_63
  }

  /** One level of the search as written, with the three goals it may visit next. */
  lemma DefinedLevel(goal: nat, ops: seq<nat>, i: nat, useConcat: bool) returns (m: nat, cc: nat, ws: nat)
    requires 0 < i < |ops| && goal < TWO_64 && Searchable(ops, useConcat) && Signed(ops)
    ensures m < TWO_64 && cc < TWO_64 && ws < TWO_64
    ensures (BackwardAsWritten(m, ops, i - 1, useConcat).Some? && BackwardAsWritten(cc, ops, i - 1, useConcat).Some? &&
             BackwardAsWritten(ws, ops, i - 1, useConcat).Some?) ==> BackwardAsWritten(goal, ops, i, useConcat).Some?
  {
    var o := ops[i];
    assert ToI64(o) == o >= 1;
    m := Wrap64(TruncDiv(ToI64(goal), o));
    ws := Wrap64(goal - o);
    if useConcat {
      assert DecimalLength(o) < 20;
      TenPowersPositive(DecimalLength(o));
      DivIsSmaller(goal, TEN_POWERS[DecimalLength(o)]);
      cc := goal / TEN_POWERS[DecimalLength(o)];
    } else {
      cc := goal;
    }
  }

  /** The search as written gives an answer: it does not reach undefined behaviour. */
  ghost predicate Defined(goal: nat, ops: seq<nat>, i: nat, useConcat: bool)
    requires i < |ops| && goal < TWO_64 && U64s(ops)
  {
    BackwardAsWritten(goal, ops, i, useConcat).Some?
  }

  /** With such operands the search as written is never undefined, whatever the goal. */
  lemma {:induction false} BackwardAsWrittenDefined(goal: nat, ops: seq<nat>, i: nat, useConcat: bool)
    requires i < |ops| && goal < TWO_64 && Searchable(ops, useConcat) && Signed(ops)
    ensures Defined(goal, ops, i, useConcat)
    decreases i
  {
    if i > 0 {
      var m, cc, ws := DefinedLevel(goal, ops, i, useConcat);
      BackwardAsWrittenDefined(m, ops, i - 1, useConcat);
      BackwardAsWrittenDefined(cc, ops, i - 1, useConcat);
      BackwardAsWrittenDefined(ws, ops, i - 1, useConcat);
    }
  }

  /** Below 2^63 the signed std::div is the unsigned floor division, and its
      remainder is zero exactly when the operand divides the goal. */
  lemma SignedDivision(goal: nat, o: nat)
    requires goal < TWO_63 && 1 <= o < TWO_63
    ensures ToI64(goal) == goal && ToI64(o) == o
    ensures TruncDiv(goal, o) == goal / o && Wrap64(goal / o) == goal / o
    ensures TruncRem(goal, o) == goal % o
  {
    DivIsSmaller(goal, o);
  }

  /** No subtraction along the search as written goes below zero: at every goal it
      visits, the goal is at least the operand. */
  ghost predicate Unwrapped(goal: nat, ops: seq<nat>, i: nat)
    requires i < |ops|
    decreases i
  {
    var o := ops[i];
    i == 0 ||
    (goal >= o &&
     (o >= 1 && goal % o == 0 ==> Unwrapped(goal / o, ops, i - 1)) &&
     (DecimalLength(o) < 20 ==>
        var tens := TEN_POWERS[DecimalLength(o)];
        TenPowersPositive(DecimalLength(o));
        DivIsSmaller(goal, tens);
        (goal - o) % tens == 0 ==> Unwrapped(goal / tens, ops, i - 1)) &&
     Unwrapped(goal - o, ops, i - 1))
  }

  /** The first of the three tries that does not answer false, as IsValid's
      sequence of early returns picks it. */
  function FirstOf(byMul: Option<bool>, byConcat: Option<bool>, bySub: Option<bool>): Option<bool> {
    if byMul != Some(false) then byMul else if byConcat != Some(false) then byConcat else bySub
  }

  /** One level of the search as written below 2^63, with the signed division
      turned into the unsigned one. */
  lemma AsWrittenStep(goal: nat, ops: seq<nat>, i: nat, useConcat: bool, o: nat, tens: nat)
    requires 0 < i < |ops| && goal < TWO_63 && Searchable(ops, useConcat)
    requires o == ops[i] && 1 <= o < TWO_63 && tens >= 1
    requires useConcat ==> tens == TEN_POWERS[DecimalLength(o)]
    ensures goal / o <= goal && goal / tens <= goal && Wrap64(goal - o) < TWO_64
    ensures BackwardAsWritten(goal, ops, i, useConcat) == FirstOf(
      if goal % o == 0 then BackwardAsWritten(goal / o, ops, i - 1, useConcat) else Some(false),
      if useConcat && Wrap64(goal - o) % tens == 0 then BackwardAsWritten(goal / tens, ops, i - 1, useConcat) else Some(false),
      BackwardAsWritten(Wrap64(goal - o), ops, i - 1, useConcat))
  {
    SignedDivision(goal, o);
    DivIsSmaller(goal, o);
    DivIsSmaller(goal, tens);
    assert useConcat ==> DecimalLength(ops[i]) < 20;
    var g, d := ToI64(goal), ToI64(o);
    var q := TruncDiv(g, d);
    assert q == goal / o && Wrap64(q) == q;
    var byMul := if TruncRem(g, d) == 0 then BackwardAsWritten(Wrap64(q), ops, i - 1, useConcat) else Some(false);
    assert byMul == if goal % o == 0 then BackwardAsWritten(goal / o, ops, i - 1, useConcat) else Some(false);
    var byConcat :=
      if !useConcat then Some(false)
      else if DecimalLength(o) >= 20 then None
      else if Wrap64(goal - o) % tens == 0 then BackwardAsWritten(goal / tens, ops, i - 1, useConcat)
      else Some(false);
    var bySub := BackwardAsWritten(Wrap64(goal - o), ops, i - 1, useConcat);
    assert BackwardAsWritten(goal, ops, i, useConcat) == FirstOf(byMul, byConcat, bySub);
  }

  /** One level of the intended search, with the power of ten read from the table. */
  lemma BackwardStep(goal: nat, ops: seq<nat>, i: nat, useConcat: bool, o: nat, tens: nat)
    requires 0 < i < |ops| && o == ops[i] && (useConcat ==> DecimalLength(o) < 20)
    requires tens == if useConcat then TEN_POWERS[DecimalLength(o)] else 1
    ensures tens >= 1 && goal / tens <= goal
    ensures Backward(goal, ops, i, useConcat) <==>
      (o > 0 && goal % o == 0 && Backward(goal / o, ops, i - 1, useConcat)) ||
      (useConcat && goal >= o && (goal - o) % tens == 0 && Backward(goal / tens, ops, i - 1, useConcat)) ||
      (goal >= o && Backward(goal - o, ops, i - 1, useConcat))
  {
    if useConcat {
      TenPowersTable(DecimalLength(o));
    }
    DivIsSmaller(goal, tens);
  }

  /** The search as written answers what the intended search answers. */
  ghost predicate Agrees(goal: nat, ops: seq<nat>, i: nat, useConcat: bool)
    requires i < |ops| && goal < TWO_64 && U64s(ops)
  {
    BackwardAsWritten(goal, ops, i, useConcat) == Some(Backward(goal, ops, i, useConcat))
  }

  /** One level of the search as written, in terms of the goals it tries next:
      the product's quotient m when dm, the concatenation's prefix cc when dc, and
      the sum's difference sb. */
  ghost predicate AsWrittenSplits(goal: nat, ops: seq<nat>, i: nat, useConcat: bool, dm: bool, m: nat, dc: bool, cc: nat, sb: nat)
    requires 0 < i < |ops| && goal < TWO_64 && m < TWO_64 && cc < TWO_64 && sb < TWO_64 && U64s(ops)
  {
    BackwardAsWritten(goal, ops, i, useConcat) == FirstOf(
      if dm then BackwardAsWritten(m, ops, i - 1, useConcat) else Some(false),
      if dc then BackwardAsWritten(cc, ops, i - 1, useConcat) else Some(false),
      BackwardAsWritten(sb, ops, i - 1, useConcat))
  }

  /** The same level of the intended search. */
  ghost predicate BackwardSplits(goal: nat, ops: seq<nat>, i: nat, useConcat: bool, dm: bool, m: nat, dc: bool, cc: nat, sb: nat)
    requires 0 < i < |ops|
  {
    Backward(goal, ops, i, useConcat) ==
      ((dm && Backward(m, ops, i - 1, useConcat)) || (dc && Backward(cc, ops, i - 1, useConcat)) ||
       Backward(sb, ops, i - 1, useConcat))
  }

  /** Nothing wraps below any of the goals tried next. */
  ghost predicate UnwrappedBelow(ops: seq<nat>, i: nat, dm: bool, m: nat, dc: bool, cc: nat, sb: nat)
    requires 0 < i < |ops|
  {
    (dm ==> Unwrapped(m, ops, i - 1)) && (dc ==> Unwrapped(cc, ops, i - 1)) && Unwrapped(sb, ops, i - 1)
  }

  /** A level agrees when the goals it tries next agree. */
  lemma AgreeCombine(goal: nat, ops: seq<nat>, i: nat, useConcat: bool, dm: bool, m: nat, dc: bool, cc: nat, sb: nat)
    requires 0 < i < |ops| && goal < TWO_64 && m < TWO_64 && cc < TWO_64 && sb < TWO_64 && U64s(ops)
    requires AsWrittenSplits(goal, ops, i, useConcat, dm, m, dc, cc, sb) && BackwardSplits(goal, ops, i, useConcat, dm, m, dc, cc, sb)
    requires dm ==> Agrees(m, ops, i - 1, useConcat)
    requires dc ==> Agrees(cc, ops, i - 1, useConcat)
    requires Agrees(sb, ops, i - 1, useConcat)
    ensures Agrees(goal, ops, i, useConcat)
  {
  }

  /** AsWrittenStep without a wrap-around, for the goals named by the caller. */
  lemma AsWrittenLevel(goal: nat, ops: seq<nat>, i: nat, useConcat: bool, o: nat, tens: nat, dm: bool, m: nat, dc: bool, cc: nat, sb: nat)
    requires 0 < i < |ops| && goal < TWO_63 && Searchable(ops, useConcat)
    requires o == ops[i] && 1 <= o <= goal && o < TWO_63 && tens >= 1
    requires useConcat ==> tens == TEN_POWERS[DecimalLength(o)]
    requires dm == (goal % o == 0) && m == goal / o && dc == (useConcat && (goal - o) % tens == 0) && cc == goal / tens && sb == goal - o
    ensures m <= goal && cc <= goal && sb <= goal
    ensures AsWrittenSplits(goal, ops, i, useConcat, dm, m, dc, cc, sb)
  {
    AsWrittenStep(goal, ops, i, useConcat, o, tens);
    assert Wrap64(goal - o) == sb;
  }

  /** BackwardStep for the goals named by the caller. */
  lemma BackwardLevel(goal: nat, ops: seq<nat>, i: nat, useConcat: bool, o: nat, tens: nat, dm: bool, m: nat, dc: bool, cc: nat, sb: nat)
    requires 0 < i < |ops| && o == ops[i] && 1 <= o <= goal && (useConcat ==> DecimalLength(o) < 20)
    requires tens == if useConcat then TEN_POWERS[DecimalLength(o)] else 1
    requires dm == (goal % o == 0) && m == goal / o && dc == (useConcat && (goal - o) % tens == 0) && cc == goal / tens && sb == goal - o
    ensures BackwardSplits(goal, ops, i, useConcat, dm, m, dc, cc, sb)
  {
    BackwardStep(goal, ops, i, useConcat, o, tens);
  }

  /** Unwrapped passes to the goals tried next. */
  lemma UnwrappedLevel(goal: nat, ops: seq<nat>, i: nat, useConcat: bool, o: nat, tens: nat, dm: bool, m: nat, dc: bool, cc: nat, sb: nat)
    requires 0 < i < |ops| && o == ops[i] && 1 <= o && (useConcat ==> DecimalLength(o) < 20)
    requires tens == if useConcat then TEN_POWERS[DecimalLength(o)] else 1
    requires Unwrapped(goal, ops, i)
    requires dm == (goal % o == 0) && m == goal / o && dc == (useConcat && (goal - o) % tens == 0) && cc == goal / tens && sb == goal - o
    ensures o <= goal && m <= goal && cc <= goal && sb <= goal
    ensures UnwrappedBelow(ops, i, dm, m, dc, cc, sb)
  {
    DivIsSmaller(goal, o);
    if useConcat {
      TenPowersPositive(DecimalLength(o));
    }
    DivIsSmaller(goal, tens);
  }

  /** One level of both searches, with the goals they try next returned but their
      arithmetic kept out of the caller's proof. */
  lemma AgreeLevel(goal: nat, ops: seq<nat>, i: nat, useConcat: bool) returns (dm: bool, m: nat, dc: bool, cc: nat, sb: nat)
    requires 0 < i < |ops| && goal < TWO_63 && Searchable(ops, useConcat) && Signed(ops)
    requires Unwrapped(goal, ops, i)
    ensures m <= goal && cc <= goal && sb <= goal
    ensures UnwrappedBelow(ops, i, dm, m, dc, cc, sb)
    ensures AsWrittenSplits(goal, ops, i, useConcat, dm, m, dc, cc, sb) && BackwardSplits(goal, ops, i, useConcat, dm, m, dc, cc, sb)
  {
    var o := ops[i];
    assert useConcat ==> DecimalLength(o) < 20;
    var tens := if useConcat then TEN_POWERS[DecimalLength(o)] else 1;
    dm, dc := goal % o == 0, useConcat && (goal - o) % tens == 0;
    m, cc, sb := goal / o, goal / tens, goal - o;
    UnwrappedLevel(goal, ops, i, useConcat, o, tens, dm, m, dc, cc, sb);
    AsWrittenLevel(goal, ops, i, useConcat, o, tens, dm, m, dc, cc, sb);
    BackwardLevel(goal, ops, i, useConcat, o, tens, dm, m, dc, cc, sb);
  }

  /** Where no subtraction along the search wraps, the search as written is the
      intended one: the same answer, and never undefined behaviour. */
  lemma {:induction false} BackwardAsWrittenAgrees(goal: nat, ops: seq<nat>, i: nat, useConcat: bool)
    requires i < |ops| && goal < TWO_63 && Searchable(ops, useConcat) && Signed(ops)
    requires Unwrapped(goal, ops, i)
    ensures Agrees(goal, ops, i, useConcat)
    decreases i
  {
    if i > 0 {
      var dm, m, dc, c, sb := AgreeLevel(goal, ops, i, useConcat);
      if dm {
        BackwardAsWrittenAgrees(m, ops, i - 1, useConcat);
      }
      if dc {
        BackwardAsWrittenAgrees(c, ops, i - 1, useConcat);
      }
      BackwardAsWrittenAgrees(sb, ops, i - 1, useConcat);
      AgreeCombine(goal, ops, i, useConcat, dm, m, dc, c, sb);
    }
  }

  // ---------------------------------------------------------------------------
  // The backward solver as intended

  /** Undo the last operator: a product when the operand divides the goal, a
      concatenation when the goal ends in the operand's digits, a sum when the goal
      is at least the operand. */
  function Backward(goal: nat, ops: seq<nat>, i: nat, useConcat: bool): bool
    requires i < |ops|
    decreases i
  {
    var o := ops[i];
    var tens := Pow10(DecimalLength(o));
    DivIsSmaller(goal, tens);
    if i == 0 then goal == o
    else
      (o > 0 && goal % o == 0 && Backward(goal / o, ops, i - 1, useConcat)) ||
      (useConcat && goal >= o && (goal - o) % tens == 0 && Backward(goal / tens, ops, i - 1, useConcat)) ||
      (goal >= o && Backward(goal - o, ops, i - 1, useConcat))
  }

  /** Undoing each operator finds exactly the equations some assignment of operators
      makes true. */
  lemma BackwardIsSolvable(goal: nat, ops: seq<nat>, n: nat, useConcat: bool)
    requires 1 <= n <= |ops| && Positive(ops)
    ensures Backward(goal, ops, n - 1, useConcat) <==> Solvable(goal, ops, n, useConcat)
  {
    if Backward(goal, ops, n - 1, useConcat) {
      BackwardSound(goal, ops, n, useConcat);
    }
    if Solvable(goal, ops, n, useConcat) {
      BackwardComplete(goal, ops, n, useConcat);
    }
  }

  /** Every equation the backward solver accepts has an assignment of operators. */
  lemma {:induction false} BackwardSound(goal: nat, ops: seq<nat>, n: nat, useConcat: bool)
    requires 1 <= n <= |ops| && Positive(ops) && Backward(goal, ops, n - 1, useConcat)
    ensures Solvable(goal, ops, n, useConcat)
    decreases n
  {
    if n == 1 {
      assert Eval(ops, 1, []) == goal;
    } else {
      var v, op := BackwardRedo(goal, ops[n - 1], ops, n, useConcat);
      BackwardSound(v, ops, n - 1, useConcat);
      var pre :| |pre| == n - 2 && AllAllowed(pre, useConcat) && Eval(ops, n - 1, pre) == v;
      EvalExtend(ops, n - 1, pre, op);
      assert AllAllowed(pre + [op], useConcat);
    }
  }

  /** Every equation with an assignment of operators is accepted by the backward solver. */
  lemma {:induction false} BackwardComplete(goal: nat, ops: seq<nat>, n: nat, useConcat: bool)
    requires 1 <= n <= |ops| && Positive(ops) && Solvable(goal, ops, n, useConcat)
    ensures Backward(goal, ops, n - 1, useConcat)
    decreases n
  {
    var choice :| |choice| == n - 1 && AllAllowed(choice, useConcat) && Eval(ops, n, choice) == goal;
    if n > 1 {
      var pre := choice[..n - 2];
      var v := Eval(ops, n - 1, pre);
      assert AllAllowed(pre, useConcat);
      BackwardComplete(v, ops, n - 1, useConcat);
      BackwardUndo(goal, v, ops[n - 1], choice[n - 2]);
    }
  }

  /** The value before the last operator is the one the backward step recurses on. */
  lemma BackwardUndo(goal: nat, v: nat, o: nat, op: Op)
    requires o >= 1 && goal == Exact(v, o, op)
    ensures op == Mul ==> goal % o == 0 && goal / o == v
    ensures op == Concat ==>
      goal >= o && (goal - o) % Pow10(DecimalLength(o)) == 0 && goal / Pow10(DecimalLength(o)) == v
    ensures op == Add ==> goal >= o && goal - o == v
  {
    var p := Pow10(DecimalLength(o));
    if op == Mul {
      MulMod(o, v);
      assert goal == o * v;
    } else if op == Concat {
      DecimalLengthBounds(o);
      MulNonnegative(v, p);
      DivModUnique(goal, p, v, o);
      MulMod(p, v);
      assert goal - o == p * v;
    }
  }

  /** A backward step that succeeds names the operator and the value it undid. */
  lemma BackwardRedo(goal: nat, o: nat, ops: seq<nat>, n: nat, useConcat: bool) returns (v: nat, op: Op)
    requires 2 <= n <= |ops| && o == ops[n - 1] && o >= 1 && Backward(goal, ops, n - 1, useConcat)
    ensures op in Allowed(useConcat) && Exact(v, o, op) == goal && Backward(v, ops, n - 2, useConcat)
  {
    var p := Pow10(DecimalLength(o));
    DivIsSmaller(goal, o);
    DivIsSmaller(goal, p);
    var quotient, prefix := goal / o, goal / p;
    if goal % o == 0 && Backward(quotient, ops, n - 2, useConcat) {
      RedoProduct(goal, o);
      v, op := quotient, Mul;
    } else if useConcat && goal >= o && (goal - o) % p == 0 && Backward(prefix, ops, n - 2, useConcat) {
      RedoConcat(goal, o);
      v, op := prefix, Concat;
    } else {
      v, op := goal - o, Add;
    }
  }

  lemma RedoProduct(goal: nat, o: nat)
    requires o >= 1 && goal % o == 0
    ensures Exact(goal / o, o, Mul) == goal
  {
    DivExact(goal, o);
  }

  lemma RedoConcat(goal: nat, o: nat)
    requires goal >= o && (goal - o) % Pow10(DecimalLength(o)) == 0
    ensures Exact(goal / Pow10(DecimalLength(o)), o, Concat) == goal
  {
    var p := Pow10(DecimalLength(o));
    DecimalLengthBounds(o);
    var k := (goal - o) / p;
    DivExact(goal - o, p);
    DivModUnique(goal, p, k, o);
  }

  /** The intended backward solver agrees with the forward one wherever the forward
      one does not overflow. */
  lemma BackwardAgreesWithForward(goal: nat, ops: seq<nat>, useConcat: bool)
    requires |ops| >= 2 && Searchable(ops, useConcat)
    requires InRange(goal, ops)
    ensures SolveEquation(goal, ops, useConcat).Some?
    ensures SolveEquation(goal, ops, useConcat).value.0 <==> Backward(goal, ops, |ops| - 1, useConcat)
  {
    SolveEquationCorrect(goal, ops, useConcat);
    BackwardIsSolvable(goal, ops, |ops|, useConcat);
  }
}
