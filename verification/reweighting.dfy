/** The reward step of dynamic scripting (Spronck et al. 2005, "Adaptive Game
    AI with Dynamic Scripting") as the C++ class and the C extension run it:
    used rules receive the adjustment, the others a compensation that makes the
    shifts sum to zero, every weight is clamped into the bounds, the clamped-off
    amount is collected as the remainder, a hook redistributes it and the
    total is recomputed. */
module Reweighting {
  import opened Wrappers
  import opened Rules
  import opened Weights
  import opened RuleSets

  /** The fitness handed to `calculateAdjustment`; C++ passes a `void*` that may be null. */
  type Fitness = Option<real>

  /** The two overridable hooks of a RuleSet, passed in as functions. */
  datatype Policy = Policy(adjustment: Fitness -> real, distribute: (seq<Rule>, real) -> seq<Rule>)

  function CountUsed(rules: seq<Rule>): (n: nat)
    ensures n <= |rules|
  {
    if |rules| == 0 then 0 else (if rules[0].used then 1 else 0) + CountUsed(rules[1..])
  }

  /** There is a contrastive signal: some rules were used and some were not. */
  predicate HasSignal(rules: seq<Rule>) {
    0 < CountUsed(rules) < |rules|
  }

  /** The amount every unused rule receives so that the shifts sum to zero. */
  function Compensation(rules: seq<Rule>, adjustment: real): real
    requires HasSignal(rules)
  {
    -(CountUsed(rules) as real * adjustment) / ((|rules| - CountUsed(rules)) as real)
  }

  /** A rule's weight after its shift, before clamping. */
  function Shifted(r: Rule, adjustment: real, compensation: real): real {
    r.weight + (if r.used then adjustment else compensation)
  }

  /** The sum of all shifts applied to `rules`. */
  function ShiftTotal(rules: seq<Rule>, adjustment: real, compensation: real): real {
    if |rules| == 0 then 0.0
    else (if rules[0].used then adjustment else compensation) + ShiftTotal(rules[1..], adjustment, compensation)
  }

  lemma {:induction false} ShiftTotalCounts(rules: seq<Rule>, adjustment: real, compensation: real)
    ensures ShiftTotal(rules, adjustment, compensation)
         == CountUsed(rules) as real * adjustment + (|rules| - CountUsed(rules)) as real * compensation
    decreases |rules|
  {
    if |rules| > 0 {
      ShiftTotalCounts(rules[1..], adjustment, compensation);
    }
  }

  /** With the compensation, the shifts cancel out before clamping. */
  lemma ZeroSumShift(rules: seq<Rule>, adjustment: real)
    requires HasSignal(rules)
    ensures ShiftTotal(rules, adjustment, Compensation(rules, adjustment)) == 0.0
  {
    var c := CountUsed(rules) as real;
    var n := (|rules| - CountUsed(rules)) as real;
    ShiftTotalCounts(rules, adjustment, Compensation(rules, adjustment));
    assert n * (-(c * adjustment) / n) == -(c * adjustment);
  }

  /** Clamping one weight: the clamped value and the signed overshoot. The lower
      bound is tested first, as in the update loop, so with inverted bounds
      (which the C extension's initialiser lets through) a weight below the
      minimum still goes to the minimum and every other one to the maximum. */
  function ClampWeight(w: real, lo: real, hi: real): (p: (real, real))
    ensures p.0 + p.1 == w
    ensures lo <= hi ==> lo <= p.0 <= hi
    ensures lo <= w <= hi ==> p.0 == w
    ensures w < lo ==> p.0 == lo
    ensures lo <= w && w > hi ==> p.0 == hi
  {
    if w < lo then (lo, w - lo) else if w > hi then (hi, w - hi) else (w, 0.0)
  }

  /** Shift and clamp every rule, collecting the overshoots as the remainder:
      each rule keeps its id, flag and code and takes the clamped value of its
      shifted weight. */
  function ClampPass(rules: seq<Rule>, lo: real, hi: real, adjustment: real, compensation: real): (p: (seq<Rule>, real))
    ensures |p.0| == |rules|
    ensures forall i :: 0 <= i < |rules| ==>
      p.0[i] == rules[i].(weight := ClampWeight(Shifted(rules[i], adjustment, compensation), lo, hi).0)
    ensures Sum(p.0) + p.1 == Sum(rules) + ShiftTotal(rules, adjustment, compensation)
    ensures (forall i :: 0 <= i < |rules| ==> lo <= Shifted(rules[i], adjustment, compensation) <= hi) ==> p.1 == 0.0
  {
    if |rules| == 0 then ([], 0.0)
    else
      var c := ClampWeight(Shifted(rules[0], adjustment, compensation), lo, hi);
      var rest := ClampPass(rules[1..], lo, hi, adjustment, compensation);
      var out := [rules[0].(weight := c.0)] + rest.0;
      assert forall i :: 1 <= i < |rules| ==> out[i] == rest.0[i - 1] && rules[i] == rules[1..][i - 1];
      assert out[1..] == rest.0;
      (out, c.1 + rest.1)
  }

  /** The pre-hook stage of the update: shift by adjustment / compensation and clamp. */
  function Reweigh(rules: seq<Rule>, lo: real, hi: real, adjustment: real): (p: (seq<Rule>, real))
    requires HasSignal(rules)
    ensures |p.0| == |rules|
    ensures forall i :: 0 <= i < |rules| ==> p.0[i] == rules[i].(weight := p.0[i].weight)
    ensures lo <= hi ==> forall i :: 0 <= i < |rules| ==> lo <= p.0[i].weight <= hi
    ensures Sum(p.0) + p.1 == Sum(rules)
  {
    ZeroSumShift(rules, adjustment);
    ClampPass(rules, lo, hi, adjustment, Compensation(rules, adjustment))
  }

  /** `updateWeights(fitness)`: a no-op without a contrastive signal; otherwise
      the hooks see the clamped weights and the remainder, and the total is
      recomputed from whatever the redistribution hook leaves behind. */
  function UpdateWeights(rs: RuleSet, policy: Policy, fitness: Fitness): (r: RuleSet)
    ensures r.minWeight == rs.minWeight && r.maxWeight == rs.maxWeight
    ensures !HasSignal(rs.rules) ==> r == rs
    ensures HasSignal(rs.rules) ==>
      var mid := Reweigh(rs.rules, rs.minWeight, rs.maxWeight, policy.adjustment(fitness));
      r.rules == policy.distribute(mid.0, mid.1)
    ensures HasSignal(rs.rules) || Cached(rs) ==> Cached(r)
  {
    if !HasSignal(rs.rules) then rs
    else
      var mid := Reweigh(rs.rules, rs.minWeight, rs.maxWeight, policy.adjustment(fitness));
      var rules := policy.distribute(mid.0, mid.1);
      RuleSet(rs.minWeight, rs.maxWeight, Sum(rules), rules)
  }

  /** An empty set, a set with no used rule and a set with only used rules are
      left exactly as they were. */
  lemma NoSignalNoChange(rs: RuleSet, policy: Policy, fitness: Fitness)
    requires |rs.rules| == 0 || CountUsed(rs.rules) == 0 || CountUsed(rs.rules) == |rs.rules|
    ensures UpdateWeights(rs, policy, fitness) == rs
  {
  }

  /** A reward (non-negative adjustment) never lowers a used rule nor raises an
      unused one before the hook; a positive reward strictly moves every rule
      not already pinned at the bound it moves towards. */
  lemma RewardMovesWeights(rules: seq<Rule>, lo: real, hi: real, adjustment: real, i: nat)
    requires lo <= hi && HasSignal(rules) && 0.0 <= adjustment && i < |rules|
    requires forall k :: 0 <= k < |rules| ==> lo <= rules[k].weight <= hi
    ensures var w := Reweigh(rules, lo, hi, adjustment).0[i].weight;
      (rules[i].used ==> rules[i].weight <= w) && (!rules[i].used ==> w <= rules[i].weight)
    ensures var w := Reweigh(rules, lo, hi, adjustment).0[i].weight;
      0.0 < adjustment ==>
        (rules[i].used && rules[i].weight < hi ==> rules[i].weight < w) &&
        (!rules[i].used && lo < rules[i].weight ==> w < rules[i].weight)
  {
    var c := CountUsed(rules) as real;
    var n := (|rules| - CountUsed(rules)) as real;
    var comp := Compensation(rules, adjustment);
    assert c * adjustment >= 0.0;
    assert comp <= 0.0;
    if 0.0 < adjustment {
      assert c * adjustment > 0.0;
      assert comp < 0.0;
    }
  }
}
