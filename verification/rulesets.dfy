/** The RuleSet state shared by the three implementations: weight bounds, the
    cached total weight and the rules in their stable (insertion) order. */
module RuleSets {
  import opened Wrappers
  import opened Rules
  import opened Weights

  datatype RuleSet = RuleSet(minWeight: real, maxWeight: real, total: real, rules: seq<Rule>)

  /** The bounds are ordered; every constructor and setter that checks keeps this. */
  predicate OrderedBounds(rs: RuleSet) {
    rs.minWeight <= rs.maxWeight
  }

  /** Every held weight lies within the bounds. */
  predicate InBounds(rs: RuleSet) {
    forall i :: 0 <= i < |rs.rules| ==> rs.minWeight <= rs.rules[i].weight <= rs.maxWeight
  }

  /** The cached total equals the sum of the held weights. */
  predicate Cached(rs: RuleSet) {
    rs.total == Sum(rs.rules)
  }

  /** No two held rules share an id (the Python and C stores are keyed by id). */
  predicate DistinctIds(rules: seq<Rule>) {
    forall i, j :: 0 <= i < j < |rules| ==> rules[i].id != rules[j].id
  }

  predicate HasId(rules: seq<Rule>, id: int) {
    exists i :: 0 <= i < |rules| && rules[i].id == id
  }

  /** The state every RuleSet operation starts from and keeps. */
  predicate Valid(rs: RuleSet) {
    OrderedBounds(rs) && InBounds(rs) && Cached(rs)
  }

  /** Index of the first rule with the given id. */
  function IndexOfId(rules: seq<Rule>, id: int): (k: Option<nat>)
    ensures k.Some? ==> k.value < |rules| && rules[k.value].id == id
    ensures k.Some? ==> forall i :: 0 <= i < k.value ==> rules[i].id != id
    ensures k.None? <==> !HasId(rules, id)
  {
    if |rules| == 0 then None
    else if rules[0].id == id then Some(0)
    else match IndexOfId(rules[1..], id)
      case None => (assert forall i :: 1 <= i < |rules| ==> rules[i] == rules[1..][i - 1]; None)
      case Some(k) => Some(k + 1)
  }

  /** `find(id)`: the first rule with that id, or nothing. */
  function Find(rs: RuleSet, id: int): (r: Option<Rule>)
    ensures r.None? <==> !HasId(rs.rules, id)
    ensures r.Some? ==> r.value.id == id && r.value in rs.rules
    ensures r.Some? ==> exists k :: 0 <= k < |rs.rules| && rs.rules[k] == r.value
                                   && forall i :: 0 <= i < k ==> rs.rules[i].id != id
  {
    match IndexOfId(rs.rules, id)
    case None => None
    case Some(k) => Some(rs.rules[k])
  }

  /** `clear()`: no rules, total zero, bounds kept. */
  function Clear(rs: RuleSet): (r: RuleSet)
    ensures |r.rules| == 0 && r.total == 0.0
    ensures r.minWeight == rs.minWeight && r.maxWeight == rs.maxWeight
    ensures OrderedBounds(rs) ==> Valid(r)
    ensures forall id :: Find(r, id).None?
  {
    RuleSet(rs.minWeight, rs.maxWeight, 0.0, [])
  }

  /** The rules with the element at `k` erased, the others keeping their order. */
  function RemoveAt(rules: seq<Rule>, k: nat): (s: seq<Rule>)
    requires k < |rules|
    ensures |s| == |rules| - 1
    ensures forall i :: 0 <= i < k ==> s[i] == rules[i]
    ensures forall i :: k <= i < |s| ==> s[i] == rules[i + 1]
    ensures multiset(s) + multiset{rules[k]} == multiset(rules)
    ensures Sum(s) == Sum(rules) - rules[k].weight
  {
    assert rules == rules[..k] + [rules[k]] + rules[k + 1..];
    SumRemove(rules, k);
    rules[..k] + rules[k + 1..]
  }

  /** A rule appended under a new id is found last, and erasing it gives back
      the rules held before. */
  lemma AppendedIdIsLast(rules: seq<Rule>, r: Rule)
    requires !HasId(rules, r.id)
    ensures IndexOfId(rules + [r], r.id) == Some(|rules|)
    ensures RemoveAt(rules + [r], |rules|) == rules
  {
    var s := rules + [r];
    assert s[|rules|] == r;
    assert forall i :: 0 <= i < |rules| ==> s[i] == rules[i];
    assert s[..|rules|] == rules;
  }

  /** Erasing a rule and subtracting its weight keeps a valid RuleSet valid. */
  lemma RemoveAtKeepsValid(rs: RuleSet, k: nat)
    requires k < |rs.rules|
    ensures Valid(rs) ==> Valid(RuleSet(rs.minWeight, rs.maxWeight, rs.total - rs.rules[k].weight, RemoveAt(rs.rules, k)))
  {
    if Valid(rs) {
      var s := RemoveAt(rs.rules, k);
      forall i | 0 <= i < |s| ensures rs.minWeight <= s[i].weight <= rs.maxWeight {
        if i < k { assert s[i] == rs.rules[i]; } else { assert s[i] == rs.rules[i + 1]; }
      }
    }
  }

  /** Erasing a rule from rules with distinct ids leaves its id unheld and the
      remaining ids distinct. */
  lemma RemoveAtKeepsIdsDistinct(rules: seq<Rule>, k: nat)
    requires k < |rules|
    ensures DistinctIds(rules) ==> !HasId(RemoveAt(rules, k), rules[k].id) && DistinctIds(RemoveAt(rules, k))
  {
    var s := RemoveAt(rules, k);
    assert forall i :: 0 <= i < |s| ==> s[i] == rules[if i < k then i else i + 1];
  }

  /** Store `r` under its id as a dict does: a rule with the same id is
      replaced where it stands, a new id is appended. */
  function Upsert(rules: seq<Rule>, r: Rule): (s: seq<Rule>)
    ensures HasId(rules, r.id) ==> |s| == |rules| && s == rules[IndexOfId(rules, r.id).value := r]
    ensures !HasId(rules, r.id) ==> s == rules + [r]
    ensures r in s
    ensures forall i :: 0 <= i < |rules| && rules[i].id != r.id ==> rules[i] in s
    ensures forall x :: x in s ==> x == r || x in rules
    ensures DistinctIds(rules) ==> DistinctIds(s)
    ensures Sum(s) == Sum(rules) + r.weight - (if HasId(rules, r.id) then rules[IndexOfId(rules, r.id).value].weight else 0.0)
  {
    match IndexOfId(rules, r.id)
    case Some(k) =>
      SumReplace(rules, k, r);
      var s := rules[k := r];
      assert s[k] == r;
      assert forall i :: 0 <= i < |rules| && i != k ==> s[i] == rules[i];
      assert forall x :: x in s ==> x == r || x in rules by {
        forall x | x in s ensures x == r || x in rules {
          var i :| 0 <= i < |s| && s[i] == x;
          if i != k { assert rules[i] == x; }
        }
      }
      s
    case None =>
      SumAppend(rules, [r]);
      rules + [r]
  }

  /** With distinct ids, `find` is the dictionary lookup: it yields exactly the
      held rule carrying that id. */
  lemma FindIsLookup(rs: RuleSet, id: int, r: Rule)
    requires DistinctIds(rs.rules)
    ensures Find(rs, id) == Some(r) <==> r in rs.rules && r.id == id
  {
    if r in rs.rules && r.id == id {
      var i :| 0 <= i < |rs.rules| && rs.rules[i] == r;
      var k := IndexOfId(rs.rules, id).value;
      assert k == i;
    }
  }

  /** The clamp applied on insertion: the upper bound is tested first. */
  function ClampOnAdd(w: real, lo: real, hi: real): (c: real)
    ensures lo <= hi ==> lo <= c <= hi
    ensures lo <= w <= hi ==> c == w
    ensures w > hi ==> c == hi
    ensures w <= hi && w < lo ==> c == lo
  {
    if w > hi then hi else if w < lo then lo else w
  }
}
