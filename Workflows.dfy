/** Sorting machine parts through workflows of comparison clauses (2023/19). */
module Workflows {
  import opened Common

  /** A clause: either unconditional, or attribute < value / attribute > value;
      target names the next workflow (or "A" / "R"). */
  datatype Clause = Clause(unconditional: bool, attr: char, isLess: bool, val: nat, target: string)

  /** A part: its rating for each attribute character. */
  type Part = map<char, nat>

  /** Whether a rating satisfies a conditional clause. */
  predicate Sat(clause: Clause, x: nat) {
    if clause.isLess then x < clause.val else x > clause.val
  }

  /** EvalClause; None where the part has no such attribute (part.at throws). */
  function EvalClause(clause: Clause, part: Part): (r: Option<bool>)
    ensures r.None? <==> clause.attr !in part
    ensures r.Some? ==> (r.value <==> Sat(clause, part[clause.attr]))
  {
    if clause.attr !in part then None
    else if clause.isLess then Some(part[clause.attr] < clause.val)
    else Some(part[clause.attr] > clause.val)
  }

  /** A clause fires on the part. */
  predicate Fires(clause: Clause, part: Part) {
    clause.unconditional || EvalClause(clause, part) == Some(true)
  }

  /** A clause passes the part on to the next clause. */
  predicate Passes(clause: Clause, part: Part) {
    !clause.unconditional && EvalClause(clause, part) == Some(false)
  }

  /** RunWorkflow: the target of the first clause that fires. None is the CHECK failure
      when no clause fires, or a missing attribute reached before one does. */
  method RunWorkflow(clauses: seq<Clause>, part: Part) returns (r: Option<string>)
    ensures r.Some? ==> exists k :: (0 <= k < |clauses| && Fires(clauses[k], part) && r.value == clauses[k].target &&
      forall j :: 0 <= j < k ==> Passes(clauses[j], part))
    ensures r.None? ==> ((forall j :: 0 <= j < |clauses| ==> Passes(clauses[j], part)) ||
      exists k :: (0 <= k < |clauses| && clauses[k].attr !in part && !clauses[k].unconditional &&
        forall j :: 0 <= j < k ==> Passes(clauses[j], part)))
  {
    var k := 0;
    while k < |clauses|
      invariant 0 <= k <= |clauses|
      invariant forall j :: 0 <= j < k ==> Passes(clauses[j], part)
    {
      var clause := clauses[k];
      if clause.unconditional {
        return Some(clause.target);
      }
      var holds := EvalClause(clause, part);
      if holds.None? {
        assert clauses[k].attr !in part;
        return None;
      }
      if holds.value {
        return Some(clause.target);
      }
      k := k + 1;
    }
    return None;
  }

  /** For each attribute, the inclusive range of ratings still possible. */
  type RangedPart = map<char, (nat, nat)>

  predicate InR(x: nat, r: (nat, nat)) {
    r.0 <= x <= r.1
  }

  /** The number of ratings in a range; an empty range has none. */
  function Size(r: (nat, nat)): nat {
    if r.1 >= r.0 then r.1 - r.0 + 1 else 0
  }

  /** SplitRangedPart: (some part succeeds, some part fails, the succeeding ranges,
      the failing ranges); None where the ranges have no such attribute. On the
      clause's attribute the two sides partition the range: a rating goes to success
      exactly when it satisfies the clause, and the sizes add up. */
  function SplitRangedPart(rp: RangedPart, clause: Clause): (r: Option<(bool, bool, RangedPart, RangedPart)>)
    ensures clause.unconditional ==> r == Some((true, false, rp, rp))
    ensures r.None? <==> !clause.unconditional && clause.attr !in rp
    ensures r.Some? ==> r.value.2.Keys == rp.Keys && r.value.3.Keys == rp.Keys
    ensures r.Some? ==> forall c :: c in rp && c != clause.attr ==> r.value.2[c] == rp[c] && r.value.3[c] == rp[c]
    ensures r.Some? && !clause.unconditional ==> forall x: nat :: var attr := clause.attr;
      ((r.value.0 && InR(x, r.value.2[attr])) <==> InR(x, rp[attr]) && Sat(clause, x)) &&
      ((r.value.1 && InR(x, r.value.3[attr])) <==> InR(x, rp[attr]) && !Sat(clause, x))
    ensures r.Some? && !clause.unconditional ==>
      (if r.value.0 then Size(r.value.2[clause.attr]) else 0) + (if r.value.1 then Size(r.value.3[clause.attr]) else 0) ==
      Size(rp[clause.attr])
  {
    if clause.unconditional then Some((true, false, rp, rp))
    else if clause.attr !in rp then None
    else
      var attr := clause.attr;
      var (lo, hi) := rp[attr];
      if clause.isLess then
        if lo >= clause.val then Some((false, true, rp, rp))
        else if hi < clause.val then Some((true, false, rp, rp))
        else Some((true, true, rp[attr := (lo, clause.val - 1)], rp[attr := (clause.val, hi)]))
      else
        if hi <= clause.val then Some((false, true, rp, rp))
        else if lo > clause.val then Some((true, false, rp, rp))
        else Some((true, true, rp[attr := (clause.val + 1, hi)], rp[attr := (lo, clause.val)]))
  }
}
