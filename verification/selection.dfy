/** Roulette-wheel selection: a fraction of the total weight is drawn and
    the rules are walked, accumulating their weights, until the running sum
    exceeds the fraction. Rule k is thereby chosen for the fractions in
    [Sum(rules[..k]), Sum(rules[..k + 1])), an interval as wide as its weight. */
module Selection {
  import opened Wrappers
  import opened Rules
  import opened Weights

  /** The walk as written, from index `j` with running sum `acc`: the first
      index whose running sum exceeds `f`, or `None` where the source runs
      off the end of the rule list. */
  function WalkFrom(rules: seq<Rule>, f: real, j: nat, acc: real): (r: Option<nat>)
    requires j <= |rules| && acc == Sum(rules[..j])
    ensures r.Some? ==> j <= r.value < |rules| && Through(rules, r.value) > f
    ensures r.Some? ==> forall i :: j <= i < r.value ==> Through(rules, i) <= f
    ensures r.None? <==> forall i :: j <= i < |rules| ==> Through(rules, i) <= f
    decreases |rules| - j
  {
    if j == |rules| then None
    else
      ThroughStep(rules, j);
      assert j > 0 ==> rules[..j] == rules[..(j - 1) + 1];
      assert Through(rules, j) == acc + rules[j].weight;
      assert rules[..j + 1] == rules[..j] + [rules[j]];
      SumAppend(rules[..j], [rules[j]]);
      if acc + rules[j].weight > f then Some(j)
      else WalkFrom(rules, f, j + 1, acc + rules[j].weight)
  }

  /** The whole walk, from the first rule with a running sum of zero. */
  function Walk(rules: seq<Rule>, f: real): (r: Option<nat>)
    ensures r.Some? ==> r.value < |rules| && Through(rules, r.value) > f
    ensures r.Some? ==> forall i :: 0 <= i < r.value ==> Through(rules, i) <= f
    ensures r.None? <==> forall i :: 0 <= i < |rules| ==> Through(rules, i) <= f
  {
    assert rules[..0] == [];
    WalkFrom(rules, f, 0, 0.0)
  }

  /** A fraction below the sum of the weights always stops the walk, whatever the signs. */
  lemma WalkStopsBelowSum(rules: seq<Rule>, f: real)
    requires |rules| > 0 && f < Sum(rules)
    ensures Walk(rules, f).Some?
  {
    ThroughLast(rules);
  }

  /** With non-negative weights, a running sum never exceeds the whole sum. */
  lemma ThroughAtMostSum(rules: seq<Rule>, i: nat)
    requires i < |rules|
    requires forall k :: 0 <= k < |rules| ==> 0.0 <= rules[k].weight
    ensures Through(rules, i) <= Sum(rules)
  {
    assert rules == rules[..i + 1] + rules[i + 1..];
    SumAppend(rules[..i + 1], rules[i + 1..]);
    NonNegativeSum(rules[i + 1..]);
  }

  /** With non-negative weights, the running sums never decrease. */
  lemma ThroughMonotone(rules: seq<Rule>, i: nat, k: nat)
    requires i <= k < |rules|
    requires forall m :: 0 <= m < |rules| ==> 0.0 <= rules[m].weight
    ensures Through(rules, i) <= Through(rules, k)
  {
    var p := rules[..k + 1];
    assert p[..i + 1] == rules[..i + 1];
    ThroughAtMostSum(p, i);
  }

  /** With non-negative weights, a fraction at or above the sum runs the walk
      off the end: the source then indexes past the last rule. */
  lemma WalkOverrunsAtSum(rules: seq<Rule>, f: real)
    requires forall k :: 0 <= k < |rules| ==> 0.0 <= rules[k].weight
    requires Sum(rules) <= f
    ensures Walk(rules, f).None?
  {
    forall i | 0 <= i < |rules| ensures Through(rules, i) <= f {
      ThroughAtMostSum(rules, i);
    }
  }

  /** The last rule with a positive weight, if there is one. */
  function LastPositive(rules: seq<Rule>): (r: Option<nat>)
    ensures r.Some? ==> r.value < |rules| && rules[r.value].weight > 0.0
    ensures r.Some? ==> forall i :: r.value < i < |rules| ==> rules[i].weight <= 0.0
    ensures r.None? <==> forall i :: 0 <= i < |rules| ==> rules[i].weight <= 0.0
  {
    if |rules| == 0 then None
    else if rules[|rules| - 1].weight > 0.0 then Some(|rules| - 1)
    else LastPositive(rules[..|rules| - 1])
  }

  /** The guarded selection: the walk's pick, and when the walk would overrun
      (a draw equal to the total, or a cached total above the real sum) the
      last rule with positive weight, else the last rule. */
  function Select(rules: seq<Rule>, f: real): (k: nat)
    requires |rules| > 0
    ensures k < |rules|
    ensures Walk(rules, f).Some? ==> k == Walk(rules, f).value
    ensures 0.0 <= f && 0.0 < Sum(rules) ==> rules[k].weight > 0.0
  {
    match Walk(rules, f)
    case Some(k) =>
      ThroughStep(rules, k);
      k
    case None =>
      match LastPositive(rules)
      case Some(k) => k
      case None =>
        if 0.0 < Sum(rules) then
          PositiveSumHasPositiveWeight(rules);
          |rules| - 1
        else |rules| - 1
  }

  /** The weight before rule `k`: where its slice of the wheel begins. */
  function Before(rules: seq<Rule>, k: nat): real
    requires k <= |rules|
  {
    Sum(rules[..k])
  }

  /** The roulette property: for non-negative weights and a fraction inside
      [0, total), rule k is selected exactly when the fraction falls into its
      slice [Before(k), Before(k) + weight(k)). */
  lemma SelectIsSlice(rules: seq<Rule>, f: real, k: nat)
    requires forall m :: 0 <= m < |rules| ==> 0.0 <= rules[m].weight
    requires 0.0 <= f < Sum(rules) && k < |rules|
    ensures Select(rules, f) == k <==> Before(rules, k) <= f < Before(rules, k) + rules[k].weight
  {
    WalkStopsBelowSum(rules, f);
    ThroughStep(rules, k);
    assert Through(rules, k) == Before(rules, k) + rules[k].weight by {
      if k > 0 { assert rules[..k] == rules[..(k - 1) + 1]; } else { assert rules[..0] == []; }
    }
    var s := Walk(rules, f).value;
    if k > 0 {
      assert rules[..k] == rules[..(k - 1) + 1];
      if s < k {
        ThroughMonotone(rules, s, k - 1);
      }
    }
  }
}
