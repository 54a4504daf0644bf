/** The pure-Python RuleSet: the rules live in a dictionary keyed by id, so
    a rule whose id is already held replaces the old one, and removal
    requires the caller to hand back the very rule that is stored (modelled
    as equality of the whole rule value). Both bounds must be non-negative.
    The C extension shares the bounds, the update and the error kinds; its
    dictionary keys are the subject of `ExtRuleSet`. */
module PyRuleSet {
  import opened Wrappers
  import opened Rules
  import opened Weights
  import opened RuleSets
  import opened Reweighting

  /** Both bounds are non-negative and ordered, as the setters insist. */
  predicate SaneBounds(rs: RuleSet) {
    0.0 <= rs.minWeight <= rs.maxWeight
  }

  /** The `minweight` setter: a negative value or one above the maximum is
      refused with a ValueError and nothing changes. */
  function SetMinWeight(rs: RuleSet, minWeight: real): (r: Result<RuleSet, Error>)
    ensures r.Success? <==> 0.0 <= minWeight <= rs.maxWeight
    ensures r.Failure? ==> r.error == InvalidArgument
    ensures r.Success? ==> r.value == rs.(minWeight := minWeight) && SaneBounds(r.value)
  {
    if minWeight < 0.0 then Failure(InvalidArgument)
    else if minWeight > rs.maxWeight then Failure(InvalidArgument)
    else Success(rs.(minWeight := minWeight))
  }

  /** The `maxweight` setter: a negative value or one below the minimum is refused. */
  function SetMaxWeight(rs: RuleSet, maxWeight: real): (r: Result<RuleSet, Error>)
    ensures r.Success? <==> 0.0 <= maxWeight && rs.minWeight <= maxWeight
    ensures r.Failure? ==> r.error == InvalidArgument
    ensures r.Success? ==> r.value == rs.(maxWeight := maxWeight)
  {
    if maxWeight < 0.0 then Failure(InvalidArgument)
    else if maxWeight < rs.minWeight then Failure(InvalidArgument)
    else Success(rs.(maxWeight := maxWeight))
  }

  /** `RuleSet(minweight, maxweight)`: starts from bounds 0 and 0, then runs the
      maximum setter and after it the minimum setter, so it succeeds exactly
      for non-negative, ordered bounds. */
  function New(minWeight: real, maxWeight: real): (r: Result<RuleSet, Error>)
    ensures r.Success? <==> 0.0 <= minWeight <= maxWeight
    ensures r.Failure? ==> r.error == InvalidArgument
    ensures r.Success? ==> r.value == RuleSet(minWeight, maxWeight, 0.0, [])
    ensures r.Success? ==> Valid(r.value) && SaneBounds(r.value) && DistinctIds(r.value.rules)
  {
    match SetMaxWeight(RuleSet(0.0, 0.0, 0.0, []), maxWeight)
    case Failure(e) => Failure(e)
    case Success(rs) => SetMinWeight(rs, minWeight)
  }

  /** `add(rule)`: anything but a rule is refused with a TypeError. The
      caller's rule object itself is clamped into the bounds and stored under
      its id, replacing (in place) a rule with the same id, whose weight leaves
      the total. The result pairs the new set with the rule as it now stands,
      which is what a later `remove` has to be handed. */
  function Add(rs: RuleSet, rule: Option<Rule>): (r: Result<(RuleSet, Rule), Error>)
    ensures r.Success? <==> rule.Some?
    ensures r.Failure? ==> r.error == TypeMismatch
    ensures r.Success? ==>
      var added := rule.value.(weight := ClampOnAdd(rule.value.weight, rs.minWeight, rs.maxWeight));
      var prior := if HasId(rs.rules, added.id) then rs.rules[IndexOfId(rs.rules, added.id).value].weight else 0.0;
      && r.value.1 == added
      && r.value.0.minWeight == rs.minWeight && r.value.0.maxWeight == rs.maxWeight
      && r.value.0.rules == Upsert(rs.rules, added)
      && r.value.0.total == rs.total - prior + added.weight
      && (HasId(rs.rules, added.id) ==> |r.value.0.rules| == |rs.rules|)
      && (!HasId(rs.rules, added.id) ==> r.value.0.rules == rs.rules + [added])
    ensures r.Success? && DistinctIds(rs.rules) ==>
      DistinctIds(r.value.0.rules) && Find(r.value.0, rule.value.id) == Some(r.value.1)
    ensures r.Success? && Valid(rs) ==> Valid(r.value.0)
  {
    match rule
    case None => Failure(TypeMismatch)
    case Some(x) =>
      var added := x.(weight := ClampOnAdd(x.weight, rs.minWeight, rs.maxWeight));
      var prior := if HasId(rs.rules, x.id) then rs.rules[IndexOfId(rs.rules, x.id).value].weight else 0.0;
      var r := RuleSet(rs.minWeight, rs.maxWeight, rs.total - prior + added.weight, Upsert(rs.rules, added));
      if DistinctIds(rs.rules) then FindIsLookup(r, x.id, added); Success((r, added))
      else Success((r, added))
  }

  /** With distinct ids, a rule held anywhere in the store is the one its id finds. */
  lemma StoredUnderId(rules: seq<Rule>, k: nat, x: Rule)
    requires k < |rules| && rules[k].id == x.id
    ensures DistinctIds(rules) && x in rules ==> rules[k] == x
  {
    if DistinctIds(rules) && x in rules {
      var i :| 0 <= i < |rules| && rules[i] == x;
      assert i == k;
    }
  }

  /** `remove(rule)`: a non-rule is a TypeError, an id not held is "does not
      exist", and a different rule under that id is "does not match";
      otherwise the stored rule leaves the set and its weight the total. */
  function Remove(rs: RuleSet, rule: Option<Rule>): (r: Result<RuleSet, Error>)
    ensures r.Failure? && r.error == TypeMismatch <==> rule.None?
    ensures r.Failure? && r.error == NotFound <==> rule.Some? && !HasId(rs.rules, rule.value.id)
    ensures r == Failure(Mismatch) <==>
      rule.Some? && HasId(rs.rules, rule.value.id) && rs.rules[IndexOfId(rs.rules, rule.value.id).value] != rule.value
    ensures r.Success? ==> rule.Some? && rule.value in rs.rules
    ensures DistinctIds(rs.rules) && rule.Some? && rule.value in rs.rules ==> r.Success?
    ensures r.Success? ==>
      && r.value.minWeight == rs.minWeight && r.value.maxWeight == rs.maxWeight
      && r.value.rules == RemoveAt(rs.rules, IndexOfId(rs.rules, rule.value.id).value)
      && r.value.total == rs.total - rule.value.weight
      && multiset(r.value.rules) + multiset{rule.value} == multiset(rs.rules)
    ensures r.Success? && DistinctIds(rs.rules) ==> !HasId(r.value.rules, rule.value.id) && DistinctIds(r.value.rules)
    ensures r.Success? && Valid(rs) ==> Valid(r.value)
  {
    match rule
    case None => Failure(TypeMismatch)
    case Some(x) =>
      match IndexOfId(rs.rules, x.id)
      case None => Failure(NotFound)
      case Some(k) =>
        if rs.rules[k] != x then
          StoredUnderId(rs.rules, k, x);
          Failure(Mismatch)
        else
          RemoveAtKeepsValid(rs, k);
          RemoveAtKeepsIdsDistinct(rs.rules, k);
          var rules := RemoveAt(rs.rules, k);
          Success(RuleSet(rs.minWeight, rs.maxWeight, rs.total - x.weight, rules))
  }

  /** Handing `remove` the rule that `add` returned always succeeds when ids
      are distinct, and for a new id it takes the set back to where it was. */
  lemma AddThenRemove(rs: RuleSet, x: Rule)
    ensures var a := Add(rs, Some(x)).value;
      DistinctIds(rs.rules) ==> Remove(a.0, Some(a.1)).Success?
    ensures var a := Add(rs, Some(x)).value;
      !HasId(rs.rules, x.id) ==> Remove(a.0, Some(a.1)) == Success(rs)
  {
    var a := Add(rs, Some(x)).value;
    assert a.1 in a.0.rules;
    if !HasId(rs.rules, x.id) {
      AppendedIdIsLast(rs.rules, a.1);
      var r := Remove(a.0, Some(a.1));
      assert r.value.rules == rs.rules;
      assert r.value.total == rs.total + a.1.weight - a.1.weight;
    }
  }

  /** The unit test's insertion sequence: adding a fresh rule with id 1 three
      times into a RuleSet(10, 20) keeps one rule whose weight was raised to
      the minimum, so the total is 10. */
  lemma ThreeAddsKeepOne()
    ensures var rs0 := New(10.0, 20.0).value;
      var rs1 := Add(rs0, Some(NewPyRule(1))).value.0;
      var rs2 := Add(rs1, Some(NewPyRule(1))).value.0;
      var rs3 := Add(rs2, Some(NewPyRule(1))).value.0;
      |rs3.rules| == 1 && rs3.total == 10.0 && Find(rs3, 1).value.weight == 10.0
  {
    var rs0 := New(10.0, 20.0).value;
    var rs1 := Add(rs0, Some(NewPyRule(1))).value.0;
    assert rs1.rules == [NewPyRule(1).(weight := 10.0)];
    assert rs1.rules[0].id == 1;
    var rs2 := Add(rs1, Some(NewPyRule(1))).value.0;
    assert rs2.total == 10.0 && |rs2.rules| == 1;
    assert rs2.rules[0].id == 1;
    var rs3 := Add(rs2, Some(NewPyRule(1))).value.0;
    assert rs3.total == 10.0 && |rs3.rules| == 1;
  }

  /** The weight setter on a shifted rule: the pure-Python `update_weights`
      adds the adjustment through the validating `weight` setter, so a shift
      below zero raises a ValueError before any clamp is reached. */
  function CheckedClampPass(rules: seq<Rule>, lo: real, hi: real, adjustment: real, compensation: real)
    : (r: Result<(seq<Rule>, real), Error>)
    ensures r.Success? <==> forall i :: 0 <= i < |rules| ==> Shifted(rules[i], adjustment, compensation) >= 0.0
    ensures r.Failure? ==> r.error == InvalidArgument
    ensures r.Success? ==> r.value == ClampPass(rules, lo, hi, adjustment, compensation)
  {
    if |rules| == 0 then Success(([], 0.0))
    else if Shifted(rules[0], adjustment, compensation) < 0.0 then Failure(InvalidArgument)
    else
      match CheckedClampPass(rules[1..], lo, hi, adjustment, compensation)
      case Failure(e) =>
        var j :| 0 <= j < |rules[1..]| && Shifted(rules[1..][j], adjustment, compensation) < 0.0;
        assert rules[j + 1] == rules[1..][j];
        Failure(e)
      case Success(rest) =>
        assert forall i :: 1 <= i < |rules| ==> rules[i] == rules[1..][i - 1];
        Success(ClampPass(rules, lo, hi, adjustment, compensation))
  }

  /** `update_weights(fitness)` of the pure-Python class, as written: the same
      step as the C++ class and the C extension, except that a negative
      intermediate weight raises instead of being clamped to the minimum. */
  function UpdateWeightsAsWritten(rs: RuleSet, policy: Policy, fitness: Fitness): (r: Result<RuleSet, Error>)
    ensures r.Success? ==> r.value == UpdateWeights(rs, policy, fitness)
    ensures r.Failure? <==> (HasSignal(rs.rules) &&
      exists i :: 0 <= i < |rs.rules| &&
        Shifted(rs.rules[i], policy.adjustment(fitness), Compensation(rs.rules, policy.adjustment(fitness))) < 0.0)
  {
    if !HasSignal(rs.rules) then Success(rs)
    else
      var a := policy.adjustment(fitness);
      match CheckedClampPass(rs.rules, rs.minWeight, rs.maxWeight, a, Compensation(rs.rules, a))
      case Failure(e) => Failure(e)
      case Success(mid) =>
        ZeroSumShift(rs.rules, a);
        var rules := policy.distribute(mid.0, mid.1);
        Success(RuleSet(rs.minWeight, rs.maxWeight, Sum(rules), rules))
  }

  /** The compensation of the pure-Python update under Python 2 when the
      adjustment hook returns an int (the unit test's hook returns 3): the
      module does not import true division, so `- usedcount * adjustment /
      nonactive` divides two ints and rounds toward negative infinity. */
  function Py2Compensation(usedCount: nat, adjustment: int, nonactive: nat): (c: int)
    requires nonactive > 0
    ensures c * nonactive <= -(usedCount * adjustment) < c * nonactive + nonactive
  {
    -(usedCount * adjustment) / nonactive
  }

  /** With the rounded compensation the shifts no longer cancel: they sum to
      a value in (-nonactive, 0], zero exactly when the unused count divides
      -usedcount * adjustment, which is also exactly when the rounded and the
      true compensation agree. For 2 used rules out of 10 and an adjustment
      of 3 the compensation is -1 instead of -0.75 and the total drops by 2. */
  lemma Py2ShiftDrift(rules: seq<Rule>, adjustment: int)
    requires HasSignal(rules)
    ensures var n := |rules| - CountUsed(rules);
      var drift := ShiftTotal(rules, adjustment as real, Py2Compensation(CountUsed(rules), adjustment, n) as real);
      && -(n as real) < drift <= 0.0
      && (drift == 0.0 <==> (-(CountUsed(rules) * adjustment)) % n == 0)
      && (drift == 0.0 <==> Compensation(rules, adjustment as real) == Py2Compensation(CountUsed(rules), adjustment, n) as real)
  {
    var u := CountUsed(rules);
    var n := |rules| - u;
    var c := Py2Compensation(u, adjustment, n);
    IntShiftTotal(rules, adjustment, c);
    ShiftTotalCounts(rules, adjustment as real, Compensation(rules, adjustment as real));
    ZeroSumShift(rules, adjustment as real);
    DriftFacts(u, adjustment, n, c, ShiftTotal(rules, adjustment as real, c as real), Compensation(rules, adjustment as real));
  }

  /** For whole-number shifts the shift total is the whole number
      `used * adjustment + unused * compensation`. */
  lemma IntShiftTotal(rules: seq<Rule>, adjustment: int, c: int)
    ensures ShiftTotal(rules, adjustment as real, c as real)
         == (CountUsed(rules) * adjustment + (|rules| - CountUsed(rules)) * c) as real
  {
    ShiftTotalCounts(rules, adjustment as real, c as real);
    ProductAsReal(CountUsed(rules), adjustment);
    ProductAsReal(|rules| - CountUsed(rules), c);
  }

  /** The drift facts over plain numbers: `u` used rules, `n` unused ones, an
      adjustment `a`, `c` the rounded quotient of `-u * a` by `n`, `drift` the
      shift total and `comp` the true compensation. */
  lemma DriftFacts(u: int, a: int, n: int, c: int, drift: real, comp: real)
    requires n > 0 && c == -(u * a) / n
    requires drift == (u * a + n * c) as real && u as real * a as real + n as real * comp == 0.0
    ensures -(n as real) < drift <= 0.0
    ensures drift == 0.0 <==> (-(u * a)) % n == 0
    ensures drift == 0.0 <==> comp == c as real
  {
    FloorDrift(u * a, n);
    ProductAsReal(u, a);
    ProductAsReal(n, c);
    ScaledEqual((u * a) as real, n as real, c as real, comp);
  }

  lemma ProductAsReal(a: int, b: int)
    ensures (a as real) * (b as real) == (a * b) as real
  {
  }

  /** The rounded quotient `c` of `-x` by `n` leaves a drift `x + n * c` in
      (-n, 0], zero exactly when `n` divides `-x`. */
  lemma FloorDrift(x: int, n: int)
    requires n > 0
    ensures var d := x + n * (-x / n);
      -n < d <= 0 && (d == 0 <==> (-x) % n == 0)
  {
    DivMod(-x, n);
  }

  /** Euclidean division by a positive divisor. */
  lemma DivMod(a: int, n: int)
    requires n > 0
    ensures a == n * (a / n) + a % n && 0 <= a % n < n
  {
  }

  /** When `x + n * comp` vanishes, `comp` equals `c` exactly when `x + n * c` does. */
  lemma ScaledEqual(x: real, n: real, c: real, comp: real)
    requires n > 0.0 && x + n * comp == 0.0
    ensures comp == c <==> x + n * c == 0.0
  {
    if x + n * c == 0.0 {
      assert n * comp == n * c;
    }
  }

  /** A penalty larger than a used rule's weight: with bounds [0, 20], a used
      rule of weight 1, an unused rule of weight 10 and an adjustment of -3, the
      pure-Python class raises, while the clamping update sets the used rule to
      the minimum 0 and the unused one to 13. */
  lemma PenaltyBelowZeroRaises()
    ensures var rs := RuleSet(0.0, 20.0, 11.0, [Rule(1, 1.0, true, None), Rule(2, 10.0, false, None)]);
      var p := Policy(_ => -3.0, (rules, remainder) => rules);
      && Valid(rs)
      && UpdateWeightsAsWritten(rs, p, None).Failure?
      && UpdateWeights(rs, p, None).rules == [Rule(1, 0.0, true, None), Rule(2, 13.0, false, None)]
  {
    var rs := RuleSet(0.0, 20.0, 11.0, [Rule(1, 1.0, true, None), Rule(2, 10.0, false, None)]);
    assert rs.rules[1..] == [Rule(2, 10.0, false, None)];
    assert Sum(rs.rules) == 11.0;
    assert CountUsed(rs.rules) == 1;
    var p := Policy(_ => -3.0, (rules, remainder) => rules);
    assert Compensation(rs.rules, -3.0) == 3.0;
    assert Shifted(rs.rules[0], -3.0, 3.0) < 0.0;
    var mid := ClampPass(rs.rules, 0.0, 20.0, -3.0, 3.0);
    assert mid.0[0].weight == 0.0 && mid.0[1].weight == 13.0;
  }

  /** The C extension's initialiser, as written: it stores the two integers
      it is given without the setters' checks. */
  function ExtInit(minWeight: int, maxWeight: int): (rs: RuleSet)
    ensures rs.minWeight == minWeight as real && rs.maxWeight == maxWeight as real
    ensures |rs.rules| == 0 && rs.total == 0.0 && Cached(rs)
    ensures OrderedBounds(rs) <==> minWeight <= maxWeight
  {
    RuleSet(minWeight as real, maxWeight as real, 0.0, [])
  }

  /** `RuleSet(10, 9)`: the checked constructor refuses it, the C extension
      accepts it, and the next `add` then stores a rule below the minimum. */
  lemma ExtInitAcceptsInvertedBounds()
    ensures New(10.0, 9.0).Failure?
    ensures var rs := ExtInit(10, 9);
      var r := Add(rs, Some(NewPyRule(1).(weight := 9.5)));
      r.Success? && r.value.0.rules == [Rule(1, 9.0, false, None)] && !InBounds(r.value.0)
  {
    var rs := ExtInit(10, 9);
    assert ClampOnAdd(9.5, 10.0, 9.0) == 9.0;
    var r := Add(rs, Some(NewPyRule(1).(weight := 9.5)));
    assert r.value.0.rules[0].weight < rs.minWeight;
  }

  /** The C extension's update runs on the inverted bounds its initialiser
      accepts; since the lower bound is tested first, the clamping pass then
      leaves no weight between them: every rule ends at the minimum or at the
      maximum, and none lies within both bounds. */
  lemma InvertedBoundsPinWeights(rs: RuleSet, adjustment: real, i: nat)
    requires rs.maxWeight < rs.minWeight && HasSignal(rs.rules) && i < |rs.rules|
    ensures var w := Reweigh(rs.rules, rs.minWeight, rs.maxWeight, adjustment).0[i].weight;
      (w == rs.minWeight || w == rs.maxWeight) && !(rs.minWeight <= w <= rs.maxWeight)
  {
  }
}
