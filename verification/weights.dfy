/** Sums of rule weights and the lemmas that split them. */
module Weights {
  import opened Rules

  /** The sum of the weights of `rules`. */
  function Sum(rules: seq<Rule>): real
  {
    if |rules| == 0 then 0.0 else rules[0].weight + Sum(rules[1..])
  }

  /** The running weight sum through index `i`, as the weighted walk accumulates it. */
  function Through(rules: seq<Rule>, i: nat): real
    requires i < |rules|
  {
    Sum(rules[..i + 1])
  }

  lemma {:induction false} SumAppend(a: seq<Rule>, b: seq<Rule>)
    ensures Sum(a + b) == Sum(a) + Sum(b)
    decreases |a|
  {
    if |a| == 0 {
      assert a + b == b;
    } else {
      assert (a + b)[1..] == a[1..] + b;
      SumAppend(a[1..], b);
    }
  }

  /** The running sum grows by exactly the next rule's weight. */
  lemma ThroughStep(rules: seq<Rule>, i: nat)
    requires i < |rules|
    ensures Through(rules, i) == (if i == 0 then 0.0 else Through(rules, i - 1)) + rules[i].weight
  {
    assert rules[..i + 1] == rules[..i] + [rules[i]];
    SumAppend(rules[..i], [rules[i]]);
    if i > 0 {
      assert rules[..i] == rules[..(i - 1) + 1];
    }
  }

  /** The running sum through the last index is the whole sum. */
  lemma ThroughLast(rules: seq<Rule>)
    requires |rules| > 0
    ensures Through(rules, |rules| - 1) == Sum(rules)
  {
    assert rules[..|rules|] == rules;
  }

  /** A rule put in front adds its weight. */
  lemma SumCons(r: Rule, rest: seq<Rule>)
    ensures Sum([r] + rest) == r.weight + Sum(rest)
  {
    assert ([r] + rest)[1..] == rest;
  }

  /** Removing the element at `i` lowers the sum by its weight. */
  lemma SumRemove(rules: seq<Rule>, i: nat)
    requires i < |rules|
    ensures Sum(rules[..i] + rules[i + 1..]) == Sum(rules) - rules[i].weight
  {
    var front, back := rules[..i], rules[i + 1..];
    assert rules == front + ([rules[i]] + back);
    SumAppend(front, [rules[i]] + back);
    SumCons(rules[i], back);
    SumAppend(front, back);
  }

  /** Replacing the element at `i` changes the sum by the weight difference. */
  lemma SumReplace(rules: seq<Rule>, i: nat, r: Rule)
    requires i < |rules|
    ensures Sum(rules[i := r]) == Sum(rules) - rules[i].weight + r.weight
  {
    var s := rules[i := r];
    assert s == s[..i] + [r] + s[i + 1..];
    assert s[..i] == rules[..i] && s[i + 1..] == rules[i + 1..];
    SumAppend(rules[..i] + [r], rules[i + 1..]);
    SumAppend(rules[..i], [r]);
    SumRemove(rules, i);
    SumAppend(rules[..i], rules[i + 1..]);
  }

  /** A sum is positive only if some weight is. */
  lemma {:induction false} PositiveSumHasPositiveWeight(rules: seq<Rule>)
    requires Sum(rules) > 0.0
    ensures exists i :: 0 <= i < |rules| && rules[i].weight > 0.0
    decreases |rules|
  {
    if rules[0].weight <= 0.0 {
      PositiveSumHasPositiveWeight(rules[1..]);
      var i :| 0 <= i < |rules[1..]| && rules[1..][i].weight > 0.0;
      assert rules[i + 1].weight > 0.0;
    }
  }

  /** Non-negative weights give a non-negative sum; a zero sum then means all zero. */
  lemma {:induction false} NonNegativeSum(rules: seq<Rule>)
    requires forall i :: 0 <= i < |rules| ==> 0.0 <= rules[i].weight
    ensures 0.0 <= Sum(rules)
    ensures Sum(rules) == 0.0 ==> forall i :: 0 <= i < |rules| ==> rules[i].weight == 0.0
    decreases |rules|
  {
    if |rules| > 0 {
      NonNegativeSum(rules[1..]);
      if Sum(rules) == 0.0 {
        forall i | 0 <= i < |rules| ensures rules[i].weight == 0.0 {
          if i > 0 { assert rules[i] == rules[1..][i - 1]; }
        }
      }
    }
  }
}
