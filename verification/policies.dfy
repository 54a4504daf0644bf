/** Reward policies plugged into the update: the base class hooks, and the
    warrior policy of the C++ example (a piecewise reward and an even spread
    of the remainder). */
module Policies {
  import opened Wrappers
  import opened Rules
  import opened Weights
  import opened RuleSets
  import opened Reweighting

  /** Base `calculateAdjustment`: always 0. */
  function BaseAdjustment(fitness: Fitness): real {
    0.0
  }

  /** Base `distributeRemainder`: does nothing. */
  function BaseDistribute(rules: seq<Rule>, remainder: real): seq<Rule> {
    rules
  }

  function BasePolicy(): Policy {
    Policy(BaseAdjustment, BaseDistribute)
  }

  /** With the base hooks an update never changes a valid RuleSet: the shifts
      are all zero, nothing is clamped and nothing is redistributed. */
  lemma BaseUpdateIsIdentity(rs: RuleSet, fitness: Fitness)
    requires Valid(rs)
    ensures UpdateWeights(rs, BasePolicy(), fitness) == rs
  {
    if HasSignal(rs.rules) {
      var mid := Reweigh(rs.rules, rs.minWeight, rs.maxWeight, 0.0);
      var comp := Compensation(rs.rules, 0.0);
      assert comp == 0.0;
      assert forall i :: 0 <= i < |rs.rules| ==> Shifted(rs.rules[i], 0.0, comp) == rs.rules[i].weight;
      assert mid.0 == rs.rules;
    }
  }

  /** The warrior's reward: nothing for a null fitness, fitness - 3 above 3,
      the (negative) fitness itself when the warrior died, 3 - fitness otherwise. */
  function WarriorAdjustment(fitness: Fitness): (a: real)
    ensures fitness.None? ==> a == 0.0
    ensures fitness.Some? && fitness.value > 3.0 ==> a == fitness.value - 3.0
    ensures fitness.Some? && fitness.value < 0.0 ==> a == fitness.value
    ensures fitness.Some? && 0.0 <= fitness.value <= 3.0 ==> a == 3.0 - fitness.value
  {
    match fitness
    case None => 0.0
    case Some(value) =>
      if value > 3.0 then value - 3.0
      else if value < 0.0 then value
      else 3.0 - value
  }

  /** The warrior is penalised exactly when it died, and unrewarded exactly for
      a null fitness or a fitness of 3. */
  lemma WarriorAdjustmentSign(fitness: Fitness)
    ensures WarriorAdjustment(fitness) < 0.0 <==> fitness.Some? && fitness.value < 0.0
    ensures WarriorAdjustment(fitness) == 0.0 <==> fitness.None? || fitness.value == 3.0
  {
  }

  /** Add `delta` to every weight. */
  function AddToAll(rules: seq<Rule>, delta: real): (r: seq<Rule>)
    ensures |r| == |rules|
    ensures forall i :: 0 <= i < |rules| ==> r[i] == rules[i].(weight := rules[i].weight + delta)
  {
    if |rules| == 0 then [] else [rules[0].(weight := rules[0].weight + delta)] + AddToAll(rules[1..], delta)
  }

  lemma {:induction false} AddToAllSum(rules: seq<Rule>, delta: real)
    ensures Sum(AddToAll(rules, delta)) == Sum(rules) + |rules| as real * delta
    decreases |rules|
  {
    if |rules| > 0 {
      AddToAllSum(rules[1..], delta);
      assert AddToAll(rules, delta)[1..] == AddToAll(rules[1..], delta);
    }
  }

  /** The warrior's redistribution: every rule gets an equal share of the
      remainder; the result is not clamped again. */
  function WarriorDistribute(rules: seq<Rule>, remainder: real): (r: seq<Rule>)
    ensures |r| == |rules|
    ensures |rules| > 0 ==> forall i :: 0 <= i < |rules| ==>
      r[i] == rules[i].(weight := rules[i].weight + remainder / |rules| as real)
    ensures |rules| > 0 ==> Sum(r) == Sum(rules) + remainder
  {
    if |rules| == 0 then rules
    else
      var share := remainder / |rules| as real;
      AddToAllSum(rules, share);
      assert |rules| as real * share == remainder;
      AddToAll(rules, share)
  }

  function WarriorPolicy(): Policy {
    Policy(WarriorAdjustment, WarriorDistribute)
  }

  /** With the warrior policy an update conserves the total weight exactly:
      what clamping takes off is handed back by the even spread. */
  lemma WarriorUpdateConservesTotal(rs: RuleSet, fitness: Fitness)
    requires OrderedBounds(rs) && Cached(rs)
    ensures UpdateWeights(rs, WarriorPolicy(), fitness).total == rs.total
    ensures Cached(UpdateWeights(rs, WarriorPolicy(), fitness))
  {
    if HasSignal(rs.rules) {
      var mid := Reweigh(rs.rules, rs.minWeight, rs.maxWeight, WarriorAdjustment(fitness));
      assert Sum(WarriorDistribute(mid.0, mid.1)) == Sum(mid.0) + mid.1;
    }
  }

  /** The even spread is not clamped: a warrior whose unused rule was clamped
      to the lower bound ends up below it. */
  lemma WarriorMayLeaveBounds()
    ensures var rs := RuleSet(0.0, 20.0, 10.0, [Rule(1, 10.0, true, Some("attack")), Rule(2, 0.0, false, Some("flee"))]);
      var r := UpdateWeights(rs, WarriorPolicy(), Some(0.0));
      Valid(rs) && r.rules[1].weight == -1.5 && !InBounds(r)
  {
    var rs := RuleSet(0.0, 20.0, 10.0, [Rule(1, 10.0, true, Some("attack")), Rule(2, 0.0, false, Some("flee"))]);
    assert CountUsed(rs.rules) == 1;
    assert Compensation(rs.rules, 3.0) == -3.0;
    var mid := Reweigh(rs.rules, 0.0, 20.0, 3.0);
    assert mid.0[0].weight == 13.0 && mid.0[1].weight == 0.0;
    assert Sum(mid.0) == 13.0;
    assert mid.1 == -3.0;
  }
}
