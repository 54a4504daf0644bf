/** A Rule: an id, a weight, a `used` flag and an opaque code payload.

    The C++ class stores the code as a string (empty by default); the Python
    and C-extension classes start with `None`, so the payload is optional. */
module Rules {
  import opened Wrappers

  datatype Rule = Rule(id: int, weight: real, used: bool, code: Option<string>)

  /** The five C++ constructors, folded into one with defaults: they store the
      id, code and weight verbatim (no check on the weight) and clear `used`. */
  function NewCppRule(id: int := 0, code: string := "", weight: real := 0.0): (r: Rule)
    ensures r.id == id && r.code == Some(code) && r.weight == weight
    ensures !r.used
  {
    Rule(id, weight, false, Some(code))
  }

  /** The Python and C-extension constructor: weight 0, unused, no code. */
  function NewPyRule(id: int): (r: Rule)
    ensures r.id == id && r.weight == 0.0 && !r.used && r.code.None?
  {
    Rule(id, 0.0, false, None)
  }

  /** C++ `setWeight`: any value is stored, negative ones included. */
  function SetWeight(r: Rule, weight: real): (r': Rule)
    ensures r'.weight == weight
    ensures r' == r.(weight := r'.weight)
  {
    r.(weight := weight)
  }

  /** Python / C-extension weight setter: a negative weight is refused and
      the rule keeps its old weight. */
  function SetWeightChecked(r: Rule, weight: real): (res: Result<Rule, Error>)
    ensures res.Success? <==> 0.0 <= weight
    ensures res.Failure? ==> res.error == InvalidArgument
    ensures res.Success? ==> res.value == SetWeight(r, weight)
  {
    if weight < 0.0 then Failure(InvalidArgument) else Success(SetWeight(r, weight))
  }

  /** The `used` setter; the rule stays the same rule by id. */
  function SetUsed(r: Rule, used: bool): (r': Rule)
    ensures r'.used == used
    ensures r' == r.(used := r'.used)
    ensures SameRule(r', r)
  {
    r.(used := used)
  }

  /** C++ `setId`; the Python classes have no id setter. */
  function SetId(r: Rule, id: int): (r': Rule)
    ensures r'.id == id
    ensures r' == r.(id := r'.id)
    ensures SameRule(r', r) <==> id == r.id
  {
    r.(id := id)
  }

  /** Code setter; `None` clears the payload (the C extension stores NULL). */
  function SetCode(r: Rule, code: Option<string>): (r': Rule)
    ensures r'.code == code
    ensures r' == r.(code := r'.code)
    ensures Text(r') == code.GetOr("") && SameRule(r', r)
  {
    r.(code := code)
  }

  /** C++ `operator==` (member and free form): only the ids are compared. */
  predicate SameRule(a: Rule, b: Rule) {
    a.id == b.id
  }

  /** Rule equality is an equivalence that ignores weight, `used` and code. */
  lemma SameRuleIsEquivalence(a: Rule, b: Rule, c: Rule)
    ensures SameRule(a, a)
    ensures SameRule(a, b) <==> SameRule(b, a)
    ensures SameRule(a, b) && SameRule(b, c) ==> SameRule(a, c)
  {
  }

  /** Changing anything but the id leaves a rule equal to what it was. */
  lemma SameRuleIgnoresState(a: Rule, w: real, u: bool, c: Option<string>)
    ensures SameRule(SetWeight(a, w), a)
    ensures SameRule(SetUsed(a, u), a)
    ensures SameRule(SetCode(a, c), a)
    ensures SameRule(SetWeight(SetUsed(SetCode(a, c), u), w), a)
  {
  }

  /** The payload text as the C++ assembler sees it (`getCode`). */
  function Text(r: Rule): string {
    r.code.GetOr("")
  }
}
