/** The C++ RuleSet: a vector of rule pointers. A rule with an id already held
    is appended, not replaced, and removal looks the rule up by identity
    (modelled as equality of the whole rule value). */
module CppRuleSet {
  import opened Wrappers
  import opened Rules
  import opened Weights
  import opened RuleSets

  /** The default constructor: bounds 0 and 0, no rules. */
  function Default(): (rs: RuleSet)
    ensures Valid(rs) && |rs.rules| == 0 && rs.total == 0.0
    ensures rs.minWeight == 0.0 && rs.maxWeight == 0.0
  {
    RuleSet(0.0, 0.0, 0.0, [])
  }

  /** `RuleSet(minweight, maxweight)`: refuses inverted bounds; negative bounds are accepted. */
  function New(minWeight: real, maxWeight: real): (r: Result<RuleSet, Error>)
    ensures r.Success? <==> minWeight <= maxWeight
    ensures r.Failure? ==> r.error == InvalidArgument
    ensures r.Success? ==> Valid(r.value) && |r.value.rules| == 0 && r.value.total == 0.0
    ensures r.Success? ==> r.value.minWeight == minWeight && r.value.maxWeight == maxWeight
  {
    if minWeight > maxWeight then Failure(InvalidArgument)
    else Success(RuleSet(minWeight, maxWeight, 0.0, []))
  }

  /** `setMinWeight`: refuses a value above the maximum and then changes nothing;
      held rules are not re-clamped. */
  function SetMinWeight(rs: RuleSet, minWeight: real): (r: Result<RuleSet, Error>)
    ensures r.Success? <==> minWeight <= rs.maxWeight
    ensures r.Failure? ==> r.error == InvalidArgument
    ensures r.Success? ==> r.value == rs.(minWeight := minWeight) && OrderedBounds(r.value)
  {
    if minWeight > rs.maxWeight then Failure(InvalidArgument) else Success(rs.(minWeight := minWeight))
  }

  /** `setMaxWeight`: refuses a value below the minimum and then changes nothing. */
  function SetMaxWeight(rs: RuleSet, maxWeight: real): (r: Result<RuleSet, Error>)
    ensures r.Success? <==> rs.minWeight <= maxWeight
    ensures r.Failure? ==> r.error == InvalidArgument
    ensures r.Success? ==> r.value == rs.(maxWeight := maxWeight) && OrderedBounds(r.value)
  {
    if maxWeight < rs.minWeight then Failure(InvalidArgument) else Success(rs.(maxWeight := maxWeight))
  }

  /** Moving a bound does not re-clamp the held rules, so they can fall outside. */
  lemma SetMinWeightStrandsRules()
    ensures var rs := RuleSet(0.0, 20.0, 5.0, [Rule(1, 5.0, false, Some(""))]);
      Valid(rs) && SetMinWeight(rs, 10.0).Success? && !InBounds(SetMinWeight(rs, 10.0).value)
  {
  }

  /** `addRule`: the header promises `invalid_argument` for a null rule, but
      the body appends it and dereferences it, which is undefined; any other
      rule is appended, even when its id is already held, with its weight
      clamped into the bounds and added to the total. The clamp is applied
      through the caller's pointer, so the result pairs the new set with the
      rule as it now stands, which is what a later `removeRule` compares. */
  function AddRule(rs: RuleSet, rule: Option<Rule>): (r: Result<(RuleSet, Rule), Error>)
    ensures r.Success? <==> rule.Some?
    ensures r.Failure? ==> r.error == Undefined
    ensures r.Success? ==>
      var w := ClampOnAdd(rule.value.weight, rs.minWeight, rs.maxWeight);
      && r.value.1 == rule.value.(weight := w)
      && |r.value.0.rules| == |rs.rules| + 1
      && r.value.0.rules[..|rs.rules|] == rs.rules
      && r.value.0.rules[|rs.rules|] == r.value.1
      && r.value.0.total == rs.total + w
      && r.value.0.minWeight == rs.minWeight && r.value.0.maxWeight == rs.maxWeight
    ensures r.Success? && Valid(rs) ==> Valid(r.value.0)
  {
    match rule
    case None => Failure(Undefined)
    case Some(x) =>
      var added := x.(weight := ClampOnAdd(x.weight, rs.minWeight, rs.maxWeight));
      var rules := rs.rules + [added];
      SumAppend(rs.rules, [added]);
      assert rules[..|rs.rules|] == rs.rules;
      Success((RuleSet(rs.minWeight, rs.maxWeight, rs.total + added.weight, rules), added))
  }

  /** Because a duplicate id is appended, `find` keeps returning the rule that
      was there first; only a new id makes the added rule findable. */
  lemma {:induction false} AddDuplicateKeepsFirst(rs: RuleSet, rule: Rule)
    ensures var r := AddRule(rs, Some(rule)).value.0;
      HasId(rs.rules, rule.id) ==> Find(r, rule.id) == Find(rs, rule.id)
    ensures var r := AddRule(rs, Some(rule)).value.0;
      !HasId(rs.rules, rule.id) ==>
        Find(r, rule.id) == Some(rule.(weight := ClampOnAdd(rule.weight, rs.minWeight, rs.maxWeight)))
  {
    var a := AddRule(rs, Some(rule)).value;
    var r := a.0;
    var n := |rs.rules|;
    assert r.rules == rs.rules + [a.1];
    assert forall i :: 0 <= i < n ==> r.rules[i] == rs.rules[i];
    if HasId(rs.rules, rule.id) {
      var k := IndexOfId(rs.rules, rule.id).value;
      assert r.rules[k].id == rule.id;
    } else {
      assert r.rules[n].id == rule.id;
    }
  }

  /** Index of the first held rule identical to `rule`. */
  function IndexOfRule(rules: seq<Rule>, rule: Rule): (k: Option<nat>)
    ensures k.Some? ==> k.value < |rules| && rules[k.value] == rule
    ensures k.Some? ==> forall i :: 0 <= i < k.value ==> rules[i] != rule
    ensures k.None? <==> rule !in rules
  {
    if |rules| == 0 then None
    else if rules[0] == rule then Some(0)
    else match IndexOfRule(rules[1..], rule)
      case None => (assert rules == [rules[0]] + rules[1..]; None)
      case Some(k) => Some(k + 1)
  }

  /** `removeRule` as intended: false and no change when the rule is null or not
      held; otherwise the first identical rule is erased and its weight subtracted. */
  function RemoveRule(rs: RuleSet, rule: Option<Rule>): (p: (bool, RuleSet))
    ensures p.0 <==> rule.Some? && rule.value in rs.rules
    ensures !p.0 ==> p.1 == rs
    ensures p.0 ==> |p.1.rules| == |rs.rules| - 1
    ensures p.0 ==> p.1.total == rs.total - rule.value.weight
    ensures p.0 ==> multiset(p.1.rules) + multiset{rule.value} == multiset(rs.rules)
    ensures p.0 ==> p.1.rules == RemoveAt(rs.rules, IndexOfRule(rs.rules, rule.value).value)
    ensures Valid(rs) ==> Valid(p.1)
  {
    if rule.None? then (false, rs)
    else match IndexOfRule(rs.rules, rule.value)
      case None => (false, rs)
      case Some(k) =>
        var rules := RemoveAt(rs.rules, k);
        RemoveAtKeepsValid(rs, k);
        (true, RuleSet(rs.minWeight, rs.maxWeight, rs.total - rule.value.weight, rules))
  }

  /** Handing `removeRule` the rule that `addRule` returned always removes one
      copy of it, so the held rules and the total are back to what they were;
      when no identical rule was held before, the set itself is. */
  lemma AddThenRemove(rs: RuleSet, x: Rule)
    ensures var a := AddRule(rs, Some(x)).value;
      var p := RemoveRule(a.0, Some(a.1));
      p.0 && multiset(p.1.rules) == multiset(rs.rules) && p.1.total == rs.total
    ensures var a := AddRule(rs, Some(x)).value;
      a.1 !in rs.rules ==> RemoveRule(a.0, Some(a.1)) == (true, rs)
  {
    var a := AddRule(rs, Some(x)).value;
    assert a.0.rules == rs.rules + [a.1];
    AppendedIsFound(rs.rules, a.1);
    var p := RemoveRule(a.0, Some(a.1));
    assert p.1.total == rs.total + a.1.weight - a.1.weight;
    calc {
      multiset(p.1.rules);
      (multiset(p.1.rules) + multiset{a.1}) - multiset{a.1};
      multiset(a.0.rules) - multiset{a.1};
      (multiset(rs.rules) + multiset{a.1}) - multiset{a.1};
      multiset(rs.rules);
    }
  }

  /** An appended rule is held, removing one copy of it leaves the multiset
      held before, and when no identical rule was held it is found last. */
  lemma AppendedIsFound(rules: seq<Rule>, r: Rule)
    ensures r in rules + [r]
    ensures multiset(rules + [r]) == multiset(rules) + multiset{r}
    ensures r !in rules ==> IndexOfRule(rules + [r], r) == Some(|rules|)
    ensures RemoveAt(rules + [r], |rules|) == rules
  {
    var s := rules + [r];
    assert s[|rules|] == r;
    assert s[..|rules|] == rules;
  }

  /** `removeRule` as written: after `erase` the iterator is read once more
      and that rule's weight is subtracted. The C++ standard makes any use of
      an erased iterator undefined; the model reads it as the vector's
      contiguous storage does, as the rule that followed the erased one, and
      as undefined when the erased rule was the last one. */
  function RemoveRuleAsWritten(rs: RuleSet, rule: Option<Rule>): (r: Result<(bool, RuleSet), Error>)
    ensures rule.None? || rule.value !in rs.rules ==> r == Success((false, rs))
    ensures r.Failure? <==> rule.Some? && |rs.rules| > 0 && IndexOfRule(rs.rules, rule.value) == Some(|rs.rules| - 1)
    ensures r.Failure? ==> r.error == Undefined
    ensures r.Success? && r.value.0 ==>
      var k := IndexOfRule(rs.rules, rule.value).value;
      && k + 1 < |rs.rules|
      && r.value.1.rules == RemoveAt(rs.rules, k)
      && r.value.1.total == rs.total - rs.rules[k + 1].weight
      && r.value.1.minWeight == rs.minWeight && r.value.1.maxWeight == rs.maxWeight
  {
    if rule.None? then Success((false, rs))
    else match IndexOfRule(rs.rules, rule.value)
      case None => Success((false, rs))
      case Some(k) =>
        var rules := RemoveAt(rs.rules, k);
        if k < |rules| then Success((true, RuleSet(rs.minWeight, rs.maxWeight, rs.total - rules[k].weight, rules)))
        else Failure(Undefined)
  }

  /** Removing the first of two rules subtracts the second one's weight: the
      cached total no longer matches the held rules. */
  lemma RemoveAsWrittenBreaksTotal()
    ensures var a := Rule(1, 5.0, false, Some("a"));
      var rs := RuleSet(0.0, 20.0, 12.0, [a, Rule(2, 7.0, false, Some("b"))]);
      && Valid(rs)
      && RemoveRuleAsWritten(rs, Some(a)) == Success((true, RuleSet(0.0, 20.0, 5.0, [Rule(2, 7.0, false, Some("b"))])))
      && !Cached(RemoveRuleAsWritten(rs, Some(a)).value.1)
      && RemoveRule(rs, Some(a)).1.total == 7.0
  {
    var a := Rule(1, 5.0, false, Some("a"));
    var rs := RuleSet(0.0, 20.0, 12.0, [a, Rule(2, 7.0, false, Some("b"))]);
    assert IndexOfRule(rs.rules, a) == Some(0);
    assert RemoveAt(rs.rules, 0) == [Rule(2, 7.0, false, Some("b"))];
    assert rs.rules[1..] == [Rule(2, 7.0, false, Some("b"))];
    assert Sum(rs.rules[1..]) == 7.0;
    assert Sum(rs.rules) == 12.0;
  }
}
