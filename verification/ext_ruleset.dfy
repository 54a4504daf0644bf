/** The C extension's RuleSet store. A rule's id is whatever Python object
    the caller passed, and `add` and `remove` key the dictionary with
    `PyInt_FromLong(r->id)`: the address of that id object, read as an
    integer. `find(id)` looks up the id value the caller passes. Each entry
    keeps the key it was stored under next to the rule, and the address of a
    rule's id object is a parameter of the operations that compute a key. */
module ExtRuleSet {
  import opened Wrappers
  import opened Rules
  import opened Weights
  import opened RuleSets
  import PyRuleSet

  datatype Entry = Entry(key: int, rule: Rule)

  datatype Store = Store(minWeight: real, maxWeight: real, total: real, entries: seq<Entry>)

  /** The stored rules, in the order of their entries. */
  function Held(entries: seq<Entry>): (rules: seq<Rule>)
    ensures |rules| == |entries|
    ensures forall i :: 0 <= i < |entries| ==> rules[i] == entries[i].rule
  {
    seq(|entries|, i requires 0 <= i < |entries| => entries[i].rule)
  }

  /** The store seen as a RuleSet: its bounds, its total and its rules. */
  function View(s: Store): (rs: RuleSet)
    ensures rs.rules == Held(s.entries) && rs.total == s.total
    ensures rs.minWeight == s.minWeight && rs.maxWeight == s.maxWeight
  {
    RuleSet(s.minWeight, s.maxWeight, s.total, Held(s.entries))
  }

  /** The cached total equals the sum of the stored weights. */
  predicate Cached(s: Store) {
    s.total == Sum(Held(s.entries))
  }

  /** A dictionary holds each key once. */
  predicate DistinctKeys(entries: seq<Entry>) {
    forall i, j :: 0 <= i < j < |entries| ==> entries[i].key != entries[j].key
  }

  /** Every rule is stored under its own id, as a store keyed by id value is. */
  predicate KeysAreIds(entries: seq<Entry>) {
    forall i :: 0 <= i < |entries| ==> entries[i].key == entries[i].rule.id
  }

  /** Index of the entry stored under `key`. */
  function KeyIndex(entries: seq<Entry>, key: int): (k: Option<nat>)
    ensures k.Some? ==> k.value < |entries| && entries[k.value].key == key
    ensures k.Some? ==> forall i :: 0 <= i < k.value ==> entries[i].key != key
    ensures k.None? <==> forall i :: 0 <= i < |entries| ==> entries[i].key != key
  {
    if |entries| == 0 then None
    else if entries[0].key == key then Some(0)
    else match KeyIndex(entries[1..], key)
      case None => (assert forall i :: 1 <= i < |entries| ==> entries[i] == entries[1..][i - 1]; None)
      case Some(k) => Some(k + 1)
  }

  /** The rule stored under `key`, or nothing. */
  function Lookup(entries: seq<Entry>, key: int): (r: Option<Rule>)
    ensures r.None? <==> forall i :: 0 <= i < |entries| ==> entries[i].key != key
    ensures r.Some? ==> Entry(key, r.value) in entries
  {
    match KeyIndex(entries, key)
    case None => None
    case Some(k) => Some(entries[k].rule)
  }

  /** `find(id)` (src/ruleset.c:253-268): the dictionary lookup of the id
      value itself. */
  function Find(s: Store, id: int): (r: Option<Rule>)
    ensures r.None? <==> forall i :: 0 <= i < |s.entries| ==> s.entries[i].key != id
    ensures r.Some? ==> Entry(id, r.value) in s.entries
  {
    Lookup(s.entries, id)
  }

  /** Entries whose keys agree position by position, the longer one adding
      only entries under other keys, find `key` at the same index. */
  lemma SameKeysSameIndex(a: seq<Entry>, b: seq<Entry>, key: int)
    requires |a| <= |b|
    requires forall i :: 0 <= i < |a| ==> a[i].key == b[i].key
    requires forall i :: |a| <= i < |b| ==> b[i].key != key
    ensures KeyIndex(b, key) == KeyIndex(a, key)
  {
    match KeyIndex(a, key)
    case None =>
    case Some(k) =>
      var j := KeyIndex(b, key).value;
      assert b[k].key == key;
      assert j == k;
  }

  /** `PyDict_SetItem`: `e` is stored under its key, replacing where it
      stands the entry held under that key, or appended for a new key; every
      other key keeps its rule, and the sum changes by the new weight minus
      the replaced one. */
  function Put(entries: seq<Entry>, e: Entry): (s: seq<Entry>)
    ensures KeyIndex(entries, e.key).Some? ==> s == entries[KeyIndex(entries, e.key).value := e]
    ensures KeyIndex(entries, e.key).None? ==> s == entries + [e]
    ensures Lookup(s, e.key) == Some(e.rule)
    ensures forall key :: key != e.key ==> Lookup(s, key) == Lookup(entries, key)
    ensures Sum(Held(s)) == Sum(Held(entries)) + e.rule.weight
      - (if KeyIndex(entries, e.key).Some? then entries[KeyIndex(entries, e.key).value].rule.weight else 0.0)
    ensures DistinctKeys(entries) ==> DistinctKeys(s)
  {
    match KeyIndex(entries, e.key)
    case Some(k) =>
      var s := entries[k := e];
      PutKeepsOthers(entries, s, e.key);
      SameKeysSameIndex(entries, s, e.key);
      assert Held(s) == Held(entries)[k := e.rule];
      SumReplace(Held(entries), k, e.rule);
      s
    case None =>
      var s := entries + [e];
      PutKeepsOthers(entries, s, e.key);
      AppendedKeyIsLast(entries, e);
      assert Held(s) == Held(entries) + [e.rule];
      SumAppend(Held(entries), [e.rule]);
      s
  }

  /** `add(rule)` as written (src/ruleset.c:339-381), with `addr` the address
      of the rule's id object: anything but a rule is a TypeError; otherwise
      the rule is stored under `addr`, replacing the entry held under that key
      (whose weight leaves the total), and the caller's rule is clamped and
      its weight added. `find` then answers for `addr`, not for the id. */
  function Add(s: Store, rule: Option<Rule>, addr: int): (r: Result<(Store, Rule), Error>)
    ensures r.Success? <==> rule.Some?
    ensures r.Failure? ==> r.error == TypeMismatch
    ensures r.Success? ==>
      var added := rule.value.(weight := ClampOnAdd(rule.value.weight, s.minWeight, s.maxWeight));
      var prior := if KeyIndex(s.entries, addr).Some? then s.entries[KeyIndex(s.entries, addr).value].rule.weight else 0.0;
      && r.value.1 == added
      && r.value.0.minWeight == s.minWeight && r.value.0.maxWeight == s.maxWeight
      && r.value.0.entries == Put(s.entries, Entry(addr, added))
      && r.value.0.total == s.total - prior + added.weight
      && Find(r.value.0, addr) == Some(added)
      && (forall id :: id != addr ==> Find(r.value.0, id) == Find(s, id))
    ensures r.Success? && Cached(s) ==> Cached(r.value.0)
    ensures r.Success? && DistinctKeys(s.entries) ==> DistinctKeys(r.value.0.entries)
  {
    match rule
    case None => Failure(TypeMismatch)
    case Some(x) =>
      var added := x.(weight := ClampOnAdd(x.weight, s.minWeight, s.maxWeight));
      var prior := if KeyIndex(s.entries, addr).Some? then s.entries[KeyIndex(s.entries, addr).value].rule.weight else 0.0;
      Success((Store(s.minWeight, s.maxWeight, s.total - prior + added.weight, Put(s.entries, Entry(addr, added))), added))
  }

  /** Storing under `addr` leaves every other key's lookup where it was. */
  lemma PutKeepsOthers(a: seq<Entry>, b: seq<Entry>, addr: int)
    requires |a| <= |b|
    requires forall i :: 0 <= i < |a| ==> a[i].key == b[i].key && (a[i].key != addr ==> a[i] == b[i])
    requires forall i :: |a| <= i < |b| ==> b[i].key == addr
    ensures forall id :: id != addr ==> Lookup(b, id) == Lookup(a, id)
  {
    forall id | id != addr ensures Lookup(b, id) == Lookup(a, id) {
      SameKeysSameIndex(a, b, id);
    }
  }

  /** An entry appended under a key not yet held is found last. */
  lemma AppendedKeyIsLast(a: seq<Entry>, e: Entry)
    requires KeyIndex(a, e.key).None?
    ensures KeyIndex(a + [e], e.key) == Some(|a|)
  {
    var b := a + [e];
    assert b[|a|].key == e.key;
    assert forall i :: 0 <= i < |a| ==> b[i] == a[i];
  }

  /** The entries with the one at `k` erased. */
  function RemoveEntry(entries: seq<Entry>, k: nat): (s: seq<Entry>)
    requires k < |entries|
    ensures |s| == |entries| - 1
    ensures forall i :: 0 <= i < k ==> s[i] == entries[i]
    ensures forall i :: k <= i < |s| ==> s[i] == entries[i + 1]
  {
    entries[..k] + entries[k + 1..]
  }

  /** `remove(rule)` as written (src/ruleset.c:383-440), with `addr` the
      address of the rule's id object: anything but a rule is a TypeError;
      "rule does not exist" when nothing is stored under `addr`, even if a
      rule with an equal id is held; "does not match" when another rule is;
      otherwise that entry is erased and the rule's weight subtracted. */
  function Remove(s: Store, rule: Option<Rule>, addr: int): (r: Result<Store, Error>)
    ensures r == Failure(TypeMismatch) <==> rule.None?
    ensures r == Failure(NotFound) <==> rule.Some? && KeyIndex(s.entries, addr).None?
    ensures r == Failure(Mismatch) <==>
      rule.Some? && KeyIndex(s.entries, addr).Some? && s.entries[KeyIndex(s.entries, addr).value].rule != rule.value
    ensures r.Success? ==>
      && r.value.minWeight == s.minWeight && r.value.maxWeight == s.maxWeight
      && r.value.entries == RemoveEntry(s.entries, KeyIndex(s.entries, addr).value)
      && r.value.total == s.total - rule.value.weight
    ensures r.Success? && Cached(s) ==> Cached(r.value)
  {
    match rule
    case None => Failure(TypeMismatch)
    case Some(x) =>
      match KeyIndex(s.entries, addr)
      case None => Failure(NotFound)
      case Some(k) =>
        if s.entries[k].rule != x then Failure(Mismatch)
        else
          var entries := RemoveEntry(s.entries, k);
          assert Held(entries) == RemoveAt(Held(s.entries), k);
          Success(Store(s.minWeight, s.maxWeight, s.total - x.weight, entries))
  }

  /** Over entries keyed by their rules' ids, the key lookup is the id search. */
  lemma {:induction false} KeyIndexIsIndexOfId(entries: seq<Entry>, id: int)
    requires KeysAreIds(entries)
    ensures KeyIndex(entries, id) == IndexOfId(Held(entries), id)
    decreases |entries|
  {
    if |entries| > 0 && entries[0].key != id {
      assert Held(entries[1..]) == Held(entries)[1..];
      KeyIndexIsIndexOfId(entries[1..], id);
    }
  }

  /** Had `find` and `add` used the same key, the id value, the store would
      be the keyed RuleSet: `find` is its lookup. */
  lemma FindIsKeyedLookup(s: Store, id: int)
    requires KeysAreIds(s.entries)
    ensures Find(s, id) == RuleSets.Find(View(s), id)
  {
    KeyIndexIsIndexOfId(s.entries, id);
  }

  /** Over entries keyed by their rules' ids, storing a rule under its id is
      the keyed store of the rules. */
  lemma PutIsUpsert(entries: seq<Entry>, e: Entry)
    requires KeysAreIds(entries) && e.key == e.rule.id
    ensures KeysAreIds(Put(entries, e)) && Held(Put(entries, e)) == Upsert(Held(entries), e.rule)
  {
    KeyIndexIsIndexOfId(entries, e.key);
    match KeyIndex(entries, e.key)
    case Some(k) =>
      assert Held(Put(entries, e)) == Held(entries)[k := e.rule];
    case None =>
      assert Held(Put(entries, e)) == Held(entries) + [e.rule];
  }

  /** Had `add` keyed by the id value, it would be the keyed add: the same
      stored rule, the same rules and the same total, keys still ids. */
  lemma AddByIdIsKeyedAdd(s: Store, x: Rule)
    requires KeysAreIds(s.entries)
    ensures var a := Add(s, Some(x), x.id).value;
      var p := PyRuleSet.Add(View(s), Some(x)).value;
      && KeysAreIds(a.0.entries) && View(a.0) == p.0 && a.1 == p.1
  {
    var a := Add(s, Some(x), x.id).value;
    var p := PyRuleSet.Add(View(s), Some(x)).value;
    PutIsUpsert(s.entries, Entry(x.id, a.1));
    KeyIndexIsIndexOfId(s.entries, x.id);
    assert a.0.total == p.0.total;
  }

  /** Had `remove` keyed by the id value, it would be the keyed remove: the
      same error, or the same rules and total with keys still ids. */
  lemma RemoveByIdIsKeyedRemove(s: Store, x: Rule)
    requires KeysAreIds(s.entries)
    ensures var r := Remove(s, Some(x), x.id);
      var p := PyRuleSet.Remove(View(s), Some(x));
      && (r.Success? <==> p.Success?)
      && (r.Failure? ==> r.error == p.error)
      && (r.Success? ==> View(r.value) == p.value && KeysAreIds(r.value.entries))
  {
    KeyIndexIsIndexOfId(s.entries, x.id);
    var r := Remove(s, Some(x), x.id);
    if r.Success? {
      var k := KeyIndex(s.entries, x.id).value;
      assert Held(r.value.entries) == RemoveAt(Held(s.entries), k);
    }
  }

  /** A rule added to an empty store is found under its id only if its id
      object happens to sit at the address equal to the id; the keyed add
      always finds it. */
  lemma FindAfterAddMisses(lo: real, hi: real, x: Rule, addr: int)
    ensures var a := Add(Store(lo, hi, 0.0, []), Some(x), addr).value;
      Find(a.0, x.id).Some? <==> addr == x.id
    ensures var p := PyRuleSet.Add(RuleSet(lo, hi, 0.0, []), Some(x)).value;
      RuleSets.Find(p.0, x.id) == Some(p.1)
  {
    var p := PyRuleSet.Add(RuleSet(lo, hi, 0.0, []), Some(x)).value;
    assert p.0.rules == [p.1];
  }

  /** Two rules with the equal id 1000, built from two id objects at
      different addresses, are both stored, while the keyed add keeps one. */
  lemma EqualIdsBothStored()
    ensures var x := Rule(1000, 5.0, false, None);
      var y := Rule(1000, 7.0, false, None);
      var a := Add(Add(Store(0.0, 10.0, 0.0, []), Some(x), 8000).value.0, Some(y), 8032).value.0;
      var p := PyRuleSet.Add(PyRuleSet.Add(RuleSet(0.0, 10.0, 0.0, []), Some(x)).value.0, Some(y)).value.0;
      |a.entries| == 2 && a.total == 12.0 && |p.rules| == 1 && p.total == 7.0
  {
    TwoAddressesTwoEntries(Rule(1000, 5.0, false, None), Rule(1000, 7.0, false, None));
    OneIdOneRule(Rule(1000, 5.0, false, None), Rule(1000, 7.0, false, None));
  }

  lemma TwoAddressesTwoEntries(x: Rule, y: Rule)
    requires 0.0 <= x.weight <= 10.0 && 0.0 <= y.weight <= 10.0
    ensures var a := Add(Add(Store(0.0, 10.0, 0.0, []), Some(x), 8000).value.0, Some(y), 8032).value.0;
      |a.entries| == 2 && a.total == x.weight + y.weight
  {
    var a1 := Add(Store(0.0, 10.0, 0.0, []), Some(x), 8000).value.0;
    assert a1.entries == [Entry(8000, x)] && a1.total == x.weight;
    assert KeyIndex(a1.entries, 8032) == None;
    var a2 := Add(a1, Some(y), 8032).value.0;
    assert a2.entries == Put(a1.entries, Entry(8032, y)) == a1.entries + [Entry(8032, y)];
  }

  lemma OneIdOneRule(x: Rule, y: Rule)
    requires x.id == y.id && 0.0 <= x.weight <= 10.0 && 0.0 <= y.weight <= 10.0
    ensures var p := PyRuleSet.Add(PyRuleSet.Add(RuleSet(0.0, 10.0, 0.0, []), Some(x)).value.0, Some(y)).value.0;
      |p.rules| == 1 && p.total == y.weight
  {
    var p1 := PyRuleSet.Add(RuleSet(0.0, 10.0, 0.0, []), Some(x)).value.0;
    assert p1.rules == [x] && p1.total == x.weight;
    assert IndexOfId(p1.rules, x.id) == Some(0);
  }

  /** Removing a held rule whose id is handed in as an equal value in another
      object (another address) is "rule does not exist", while the keyed
      remove erases it. */
  lemma RemoveByEqualIdMisses(lo: real, hi: real, x: Rule, addr: int, other: int)
    requires other != addr
    ensures var a := Add(Store(lo, hi, 0.0, []), Some(x), addr).value;
      Remove(a.0, Some(a.1), other) == Failure(NotFound)
    ensures var p := PyRuleSet.Add(RuleSet(lo, hi, 0.0, []), Some(x)).value;
      PyRuleSet.Remove(p.0, Some(p.1)) == Success(RuleSet(lo, hi, 0.0, []))
  {
    PyRuleSet.AddThenRemove(RuleSet(lo, hi, 0.0, []), x);
  }
}
