/** The older Python 2 RuleSet kept in `lib/`. Its bound setters match the
    current Python class (`PyRuleSet.SetMinWeight`, `PyRuleSet.SetMaxWeight`);
    what differs is the constructor, which skips the setters, and `add`,
    `remove` and `update_weights`, which go through the `rules` property. That
    property returns a fresh list of the dictionary's values, so `add` writes
    into a throw-away list, `remove` asks that list for `has_key`, and
    `update_weights` asks it for `values()`, neither of which lists have. */
module LegacyRuleSet {
  import opened Wrappers
  import opened Rules
  import opened RuleSets
  import PyRuleSet
  import Reweighting

  /** `RuleSet(minweight, maxweight)`: the bounds are stored as given, unchecked. */
  function New(minWeight: real, maxWeight: real): (rs: RuleSet)
    ensures rs.minWeight == minWeight && rs.maxWeight == maxWeight
    ensures |rs.rules| == 0 && rs.total == 0.0 && Cached(rs)
    ensures OrderedBounds(rs) <==> minWeight <= maxWeight
  {
    RuleSet(minWeight, maxWeight, 0.0, [])
  }

  /** `add(rule)` as written: a non-rule is a TypeError; otherwise the rule is
      assigned at index `rule.id` of the list of values, which raises an
      IndexError unless Python's list indexing accepts that id
      (-n <= id < n), and on success the discarded list is all that changed.
      The caller's rule is still clamped into the bounds; it is returned
      alongside the (unchanged) set. */
  function Add(rs: RuleSet, rule: Option<Rule>): (r: Result<(RuleSet, Rule), Error>)
    ensures rule.None? ==> r == Failure(TypeMismatch)
    ensures rule.Some? ==> (r.Success? <==> -|rs.rules| <= rule.value.id < |rs.rules|)
    ensures r.Failure? && rule.Some? ==> r.error == IndexOutOfRange
    ensures r.Success? ==> r.value.0 == rs
    ensures r.Success? ==>
      r.value.1 == rule.value.(weight := ClampOnAdd(rule.value.weight, rs.minWeight, rs.maxWeight))
  {
    match rule
    case None => Failure(TypeMismatch)
    case Some(x) =>
      if -|rs.rules| <= x.id < |rs.rules| then
        Success((rs, x.(weight := ClampOnAdd(x.weight, rs.minWeight, rs.maxWeight))))
      else Failure(IndexOutOfRange)
  }

  /** `remove(rule)` as written: a non-rule is a TypeError; for a rule, the
      `has_key` lookup on a list raises an AttributeError (modelled as
      `Undefined`) before anything is removed. */
  function Remove(rs: RuleSet, rule: Option<Rule>): (r: Result<RuleSet, Error>)
    ensures rule.None? ==> r == Failure(TypeMismatch)
    ensures rule.Some? ==> r == Failure(Undefined)
  {
    match rule
    case None => Failure(TypeMismatch)
    case Some(_) => Failure(Undefined)
  }

  /** `update_weights(fitness)` as written: it starts with `self.rules.values()`,
      and the list the property returns has no `values` method, so every call
      raises an AttributeError (modelled as `Undefined`) before any weight moves. */
  function UpdateWeights(rs: RuleSet, policy: Reweighting.Policy, fitness: Reweighting.Fitness): (r: Result<RuleSet, Error>)
    ensures r.Failure? && r.error == Undefined
  {
    Failure(Undefined)
  }

  /** Whatever the set and the policy, the older class raises where the
      clamping update returns a set whose total is the sum of its weights. */
  lemma UpdateAlwaysRaises(rs: RuleSet, policy: Reweighting.Policy, fitness: Reweighting.Fitness)
    requires Cached(rs)
    ensures UpdateWeights(rs, policy, fitness).Failure?
    ensures Cached(Reweighting.UpdateWeights(rs, policy, fitness))
    ensures !Reweighting.HasSignal(rs.rules) ==> Reweighting.UpdateWeights(rs, policy, fitness) == rs
  {
  }

  /** Adding rule 0 to a fresh RuleSet(0, 10): the older class raises, while
      the current class stores it and the total stays the sum of the weights. */
  lemma AddNeverStores()
    ensures Add(New(0.0, 10.0), Some(NewPyRule(0))).Failure?
    ensures var r := PyRuleSet.Add(PyRuleSet.New(0.0, 10.0).value, Some(NewPyRule(0)));
      r.Success? && r.value.0.rules == [NewPyRule(0)] && Valid(r.value.0)
  {
  }

  /** Removing a rule that the current class holds: the older class raises,
      the current class removes it. */
  lemma RemoveAlwaysRaises(r: Rule)
    requires 0.0 <= r.weight <= 10.0
    ensures Remove(RuleSet(0.0, 10.0, r.weight, [r]), Some(r)).Failure?
    ensures var p := PyRuleSet.Remove(RuleSet(0.0, 10.0, r.weight, [r]), Some(r));
      p.Success? && p.value.rules == [] && p.value.total == 0.0
  {
    var rs := RuleSet(0.0, 10.0, r.weight, [r]);
    assert IndexOfId(rs.rules, r.id) == Some(0);
    var p := PyRuleSet.Remove(rs, Some(r));
    assert |p.value.rules| == 0;
  }
}
