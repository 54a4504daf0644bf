/** The LearnSystem: it draws rules from a RuleSet by roulette-wheel
    selection and writes their code into a script of bounded size, between a
    header and a footer. Each draw is a unit value u (C and C++:
    `rand() / RAND_MAX`, in [0, 1]; Python: `random()`, in [0, 1)) scaled by
    the set's cached total; the draws are passed in, one per requested rule. */
module LearnSystems {
  import opened Wrappers
  import opened Rules
  import opened Weights
  import opened RuleSets
  import opened Selection

  /** The limits are unsigned in C++ and positive integers in Python. */
  datatype LearnSystem = LearnSystem(ruleset: RuleSet, maxTries: int, maxScriptSize: int)

  /** The three implementations of `createRules`. */
  datatype Variant = Cpp | Py | Ext

  const DefaultMaxTries: int := 100
  const DefaultMaxScriptSize: int := 1024

  /** Both limits are at least one, as the Python setters insist. */
  predicate PositiveLimits(ls: LearnSystem) {
    ls.maxTries >= 1 && ls.maxScriptSize >= 1
  }

  /** Every constructor: the given rule set, 100 tries and a 1024-character budget. */
  function New(rs: RuleSet): (ls: LearnSystem)
    ensures ls.ruleset == rs && PositiveLimits(ls)
    ensures ls.maxTries == DefaultMaxTries && ls.maxScriptSize == DefaultMaxScriptSize
  {
    LearnSystem(rs, DefaultMaxTries, DefaultMaxScriptSize)
  }

  /** C++ `setMaxTries`: any unsigned value, zero included. */
  function SetMaxTriesUnchecked(ls: LearnSystem, maxTries: nat): (r: LearnSystem)
    ensures r.maxTries == maxTries && r.ruleset == ls.ruleset && r.maxScriptSize == ls.maxScriptSize
    ensures PositiveLimits(r) <==> maxTries >= 1 && ls.maxScriptSize >= 1
  {
    ls.(maxTries := maxTries)
  }

  /** C++ `setMaxScriptSize`: any unsigned value, zero included. */
  function SetMaxScriptSizeUnchecked(ls: LearnSystem, maxScriptSize: nat): (r: LearnSystem)
    ensures r.maxScriptSize == maxScriptSize && r.ruleset == ls.ruleset && r.maxTries == ls.maxTries
    ensures PositiveLimits(r) <==> maxScriptSize >= 1 && ls.maxTries >= 1
  {
    ls.(maxScriptSize := maxScriptSize)
  }

  /** Python `maxtries` setter: a value below one is refused and nothing changes. */
  function SetMaxTries(ls: LearnSystem, maxTries: int): (r: Result<LearnSystem, Error>)
    ensures r.Success? <==> maxTries >= 1
    ensures r.Failure? ==> r.error == InvalidArgument
    ensures r.Success? ==> r.value == ls.(maxTries := maxTries)
    ensures r.Success? && PositiveLimits(ls) ==> PositiveLimits(r.value)
  {
    if maxTries < 1 then Failure(InvalidArgument) else Success(ls.(maxTries := maxTries))
  }

  /** Python `maxscriptsize` setter: a value below one is refused. */
  function SetMaxScriptSize(ls: LearnSystem, maxScriptSize: int): (r: Result<LearnSystem, Error>)
    ensures r.Success? <==> maxScriptSize >= 1
    ensures r.Failure? ==> r.error == InvalidArgument
    ensures r.Success? ==> r.value == ls.(maxScriptSize := maxScriptSize)
    ensures r.Success? && PositiveLimits(ls) ==> PositiveLimits(r.value)
    ensures r.Success? ==> r.value.maxTries == ls.maxTries && r.value.ruleset == ls.ruleset
  {
    if maxScriptSize < 1 then Failure(InvalidArgument) else Success(ls.(maxScriptSize := maxScriptSize))
  }

  // ---------------------------------------------------------------------
  // The generators as written
  // ---------------------------------------------------------------------

  /** The text each implementation writes for a rule: C++ code is always a
      string; Python takes `len` of the code, which fails on `None`; the C
      extension keeps a missing code as a NULL pointer and hands it to
      `PyObject_CheckReadBuffer`, which dereferences it: undefined. */
  function Payload(v: Variant, r: Rule): (p: Result<string, Error>)
    ensures r.code.Some? ==> p == Success(r.code.value)
    ensures r.code.None? ==> (p.Failure? <==> v != Cpp)
    ensures r.code.None? && v == Py ==> p == Failure(TypeMismatch)
    ensures r.code.None? && v == Ext ==> p == Failure(Undefined)
    ensures r.code.None? && v == Cpp ==> p == Success("")
  {
    match r.code
    case Some(s) => Success(s)
    case None =>
      match v
      case Cpp => Success("")
      case Py => Failure(TypeMismatch)
      case Ext => Failure(Undefined)
  }

  /** What running off the end of the rule list does: `vector::at` throws in
      C++, list indexing raises IndexError in Python, and the C extension
      reads past its list. */
  function OverrunError(v: Variant): Error {
    match v
    case Cpp => IndexOutOfRange
    case Py => IndexOutOfRange
    case Ext => Undefined
  }

  /** The fractions of the cached total that the draws stand for
      (`u * weights`, the C `rand() / RAND_MAX * weights` and Python's
      `uniform(0, weights)`). */
  function Fractions(draws: seq<real>, total: real): (fs: seq<real>)
    ensures |fs| == |draws|
    ensures forall i :: 0 <= i < |draws| ==> fs[i] == draws[i] * total
  {
    seq(|draws|, i requires 0 <= i < |draws| => draws[i] * total)
  }

  /** The draw loop as written, one fraction per requested rule, after
      `written` has been produced: stop once the budget is used up, walk the
      wheel, and stop for good at the first payload that would overflow the
      budget. With no tries allowed (possible in C++ only) nothing is ever drawn. */
  function RunAsWritten(v: Variant, rules: seq<Rule>, fractions: seq<real>,
                        maxTries: int, maxSize: int, written: string): (r: Result<string, Error>)
    ensures r.Success? ==> written <= r.value
    ensures r.Success? && |written| <= maxSize ==> |r.value| <= maxSize
    ensures maxTries <= 0 ==> r == Success(written)
    decreases |fractions|
  {
    if |fractions| == 0 || |written| >= maxSize || maxTries <= 0 then Success(written)
    else
      match Walk(rules, fractions[0])
      case None => Failure(OverrunError(v))
      case Some(k) =>
        match Payload(v, rules[k])
        case Failure(e) => Failure(e)
        case Success(p) =>
          if |written| + |p| > maxSize then Success(written)
          else RunAsWritten(v, rules, fractions[1..], maxTries, maxSize, written + p)
  }

  /** `createRules(maxrules)` / `create_rules(maxrules)` as written. C++
      returns an empty script for a zero cached total or no requested rules
      (a count below one is treated as zero); Python
      and the C extension refuse a count below one, and only the C extension
      answers a zero total, with `None`. */
  function CreateRulesAsWritten(v: Variant, ls: LearnSystem, maxrules: int, draws: seq<real>)
    : (r: Result<Option<string>, Error>)
    requires maxrules <= |draws|
    ensures v == Cpp ==> r.Success? ==> r.value.Some?
    ensures v != Cpp && maxrules <= 0 ==> r == Failure(InvalidArgument)
    ensures v == Cpp && (maxrules <= 0 || ls.ruleset.total == 0.0) ==> r == Success(Some(""))
    ensures v == Ext && maxrules > 0 && ls.ruleset.total == 0.0 ==> r == Success(None)
    ensures r.Success? && r.value.Some? ==> |r.value.value| <= if ls.maxScriptSize < 0 then 0 else ls.maxScriptSize
  {
    var run := (m: int) requires 0 <= m <= |draws| =>
      match RunAsWritten(v, ls.ruleset.rules, Fractions(draws[..m], ls.ruleset.total), ls.maxTries, ls.maxScriptSize, "")
      case Failure(e) => Failure(e)
      case Success(s) => Success(Some(s));
    match v
    case Cpp =>
      if ls.ruleset.total == 0.0 || maxrules <= 0 then Success(Some("")) else run(maxrules)
    case Py =>
      if maxrules <= 0 then Failure(InvalidArgument) else run(maxrules)
    case Ext =>
      if maxrules <= 0 then Failure(InvalidArgument)
      else if ls.ruleset.total == 0.0 then Success(None)
      else run(maxrules)
  }

  // ---------------------------------------------------------------------
  // The corrected generator
  // ---------------------------------------------------------------------

  /** The script text of a sequence of picks, in order. */
  function Emit(rules: seq<Rule>, picks: seq<nat>): string
    requires forall i :: 0 <= i < |picks| ==> picks[i] < |rules|
  {
    if |picks| == 0 then "" else Text(rules[picks[0]]) + Emit(rules, picks[1..])
  }

  lemma EmitCons(rules: seq<Rule>, k: nat, rest: seq<nat>)
    requires k < |rules| && forall i :: 0 <= i < |rest| ==> rest[i] < |rules|
    ensures Emit(rules, [k] + rest) == Text(rules[k]) + Emit(rules, rest)
  {
    assert ([k] + rest)[1..] == rest;
  }

  /** The guarded selection for every fraction, in draw order. */
  function Selections(rules: seq<Rule>, fractions: seq<real>): (ks: seq<nat>)
    requires |rules| > 0
    ensures |ks| == |fractions|
    ensures forall i :: 0 <= i < |ks| ==> ks[i] < |rules|
  {
    seq(|fractions|, i requires 0 <= i < |fractions| => Select(rules, fractions[i]))
  }

  /** The picks that make it into the script, with `used` characters already
      written: they are taken in order until the budget is used up or the
      next payload would overflow it. */
  function Take(rules: seq<Rule>, picks: seq<nat>, maxSize: int, used: nat): (ps: seq<nat>)
    requires forall i :: 0 <= i < |picks| ==> picks[i] < |rules|
    ensures ps <= picks
    ensures used <= maxSize ==> used + |Emit(rules, ps)| <= maxSize
    ensures |ps| < |picks| ==>
      used + |Emit(rules, ps)| >= maxSize || used + |Emit(rules, ps)| + |Text(rules[picks[|ps|]])| > maxSize
    decreases |picks|
  {
    if |picks| == 0 || used >= maxSize then []
    else
      var n := |Text(rules[picks[0]])|;
      if used + n > maxSize then []
      else
        var rest := Take(rules, picks[1..], maxSize, used + n);
        var ps := [picks[0]] + rest;
        assert ps[1..] == rest;
        assert |rest| < |picks[1..]| ==> picks[|ps|] == picks[1..][|rest|];
        ps
  }

  /** One step of `Take`: the first pick is kept when it fits, followed by
      what fits after it. */
  lemma TakeStep(rules: seq<Rule>, picks: seq<nat>, maxSize: int, used: nat)
    requires forall i :: 0 <= i < |picks| ==> picks[i] < |rules|
    requires |picks| > 0
    ensures var n := |Text(rules[picks[0]])|;
      Take(rules, picks, maxSize, used)
        == if used >= maxSize || used + n > maxSize then []
           else [picks[0]] + Take(rules, picks[1..], maxSize, used + n)
  {
  }

  /** True when the generator has something to draw from. */
  predicate CanDraw(ls: LearnSystem, maxrules: int) {
    maxrules > 0 && ls.maxTries > 0 && |ls.ruleset.rules| > 0 && ls.ruleset.total != 0.0
  }

  /** `createRules(maxrules)` as intended: the C++ guards, then one guarded
      selection per requested rule, kept while it fits into the size budget. */
  function CreateRules(ls: LearnSystem, maxrules: int, draws: seq<real>): (script: string)
    requires maxrules <= |draws|
    ensures !CanDraw(ls, maxrules) ==> script == ""
    ensures |script| <= if ls.maxScriptSize < 0 then 0 else ls.maxScriptSize
  {
    if !CanDraw(ls, maxrules) then ""
    else
      var rules := ls.ruleset.rules;
      Emit(rules, Take(rules, Selections(rules, Fractions(draws[..maxrules], ls.ruleset.total)), ls.maxScriptSize, 0))
  }

  /** The writing loop of `createRules`, over the rules already selected:
      one iteration per pick, leaving the loop when the budget is used up or
      a payload would overflow it. */
  method WritePicks(rules: seq<Rule>, picks: seq<nat>, maxSize: int) returns (script: string)
    requires forall i :: 0 <= i < |picks| ==> picks[i] < |rules|
    ensures script == Emit(rules, Take(rules, picks, maxSize, 0))
  {
    script := "";
    ghost var full := Emit(rules, Take(rules, picks, maxSize, 0));
    var rest: seq<nat> := picks;
    while |rest| > 0
      invariant forall i :: 0 <= i < |rest| ==> rest[i] < |rules|
      invariant script + Emit(rules, Take(rules, rest, maxSize, |script|)) == full
      decreases |rest|
    {
      var p := Text(rules[rest[0]]);
      if |script| >= maxSize || |script| + |p| > maxSize {
        TakeDone(rules, rest, maxSize, script, full);
        return;
      }
      TakeOne(rules, rest, maxSize, script, full);
      script := script + p;
      rest := rest[1..];
    }
    TakeDone(rules, rest, maxSize, script, full);
  }

  /** `createRules(maxrules)` as a method: the C++ guards, one guarded
      selection per requested rule, then the writing loop. It produces
      exactly the corrected script. */
  method BuildRules(ls: LearnSystem, maxrules: int, draws: seq<real>) returns (script: string)
    requires maxrules <= |draws|
    ensures script == CreateRules(ls, maxrules, draws)
    ensures |script| <= if ls.maxScriptSize < 0 then 0 else ls.maxScriptSize
  {
    if !CanDraw(ls, maxrules) {
      return "";
    }
    var rules := ls.ruleset.rules;
    var picks := Selections(rules, Fractions(draws[..maxrules], ls.ruleset.total));
    script := WritePicks(rules, picks, ls.maxScriptSize);
  }

  /** Loop step of `WritePicks`: writing the first pick keeps the rest of the
      script the same. */
  lemma TakeOne(rules: seq<Rule>, ks: seq<nat>, maxSize: int, script: string, full: string)
    requires forall i :: 0 <= i < |ks| ==> ks[i] < |rules|
    requires |ks| > 0 && |script| < maxSize && |script| + |Text(rules[ks[0]])| <= maxSize
    requires script + Emit(rules, Take(rules, ks, maxSize, |script|)) == full
    ensures var p := Text(rules[ks[0]]);
      (script + p) + Emit(rules, Take(rules, ks[1..], maxSize, |script + p|)) == full
  {
    var p := Text(rules[ks[0]]);
    EmitTakeCons(rules, ks, maxSize, |script|);
    AppendAssoc(script, p, Emit(rules, Take(rules, ks[1..], maxSize, |script| + |p|)));
  }

  /** When the first pick fits, the text of what is taken starts with its payload. */
  lemma EmitTakeCons(rules: seq<Rule>, ks: seq<nat>, maxSize: int, used: nat)
    requires forall i :: 0 <= i < |ks| ==> ks[i] < |rules|
    requires |ks| > 0 && used < maxSize && used + |Text(rules[ks[0]])| <= maxSize
    ensures Emit(rules, Take(rules, ks, maxSize, used))
         == Text(rules[ks[0]]) + Emit(rules, Take(rules, ks[1..], maxSize, used + |Text(rules[ks[0]])|))
  {
    TakeStep(rules, ks, maxSize, used);
    EmitCons(rules, ks[0], Take(rules, ks[1..], maxSize, used + |Text(rules[ks[0]])|));
  }

  lemma AppendAssoc(a: string, b: string, c: string)
    ensures a + (b + c) == (a + b) + c
  {
  }

  /** Loop exit of `WritePicks`: when nothing more is drawn, the script is complete. */
  lemma TakeDone(rules: seq<Rule>, ks: seq<nat>, maxSize: int, script: string, full: string)
    requires forall i :: 0 <= i < |ks| ==> ks[i] < |rules|
    requires |ks| == 0 || |script| >= maxSize || |script| + |Text(rules[ks[0]])| > maxSize
    requires script + Emit(rules, Take(rules, ks, maxSize, |script|)) == full
    ensures script == full
  {
    assert Take(rules, ks, maxSize, |script|) == [];
    assert script + "" == script;
  }

  /** Fractions of draws in [0, 1] (the C `RAND_MAX` end included) over a
      cached, positive total only select rules of positive weight: a rule of
      weight zero is never written. */
  lemma SelectionsArePositive(rules: seq<Rule>, draws: seq<real>)
    requires Sum(rules) > 0.0
    requires forall i :: 0 <= i < |draws| ==> 0.0 <= draws[i] <= 1.0
    ensures |rules| > 0
    ensures var ks := Selections(rules, Fractions(draws, Sum(rules)));
      forall i :: 0 <= i < |ks| ==> rules[ks[i]].weight > 0.0
  {
    assert |rules| > 0;
    var fs := Fractions(draws, Sum(rules));
    var ks := Selections(rules, fs);
    forall i | 0 <= i < |ks| ensures rules[ks[i]].weight > 0.0 {
      assert 0.0 <= draws[i] * Sum(rules);
      assert ks[i] == Select(rules, fs[i]);
    }
  }

  /** With every payload `len` characters long, the script holds as many
      rules as were requested or, if fewer, as many as fit into the budget:
      n rules fit, and either every pick was taken or a further one would not
      have fitted. */
  lemma {:induction false} UniformPayloadCount(rules: seq<Rule>, picks: seq<nat>,
                                               maxSize: int, used: nat, len: nat)
    requires forall i :: 0 <= i < |picks| ==> picks[i] < |rules|
    requires len > 0 && used <= maxSize
    requires forall i :: 0 <= i < |rules| ==> |Text(rules[i])| == len
    ensures var n := |Take(rules, picks, maxSize, used)|;
      && n * len <= maxSize - used
      && (n == |picks| || maxSize - used < (n + 1) * len)
    decreases |picks|
  {
    if |picks| > 0 && used + len <= maxSize {
      UniformPayloadCount(rules, picks[1..], maxSize, used + len, len);
      UniformStep(rules, picks, maxSize, used, len);
    } else {
      UniformDone(rules, picks, maxSize, used, len);
    }
  }

  /** The count when nothing more fits: none taken. */
  lemma UniformDone(rules: seq<Rule>, picks: seq<nat>, maxSize: int, used: nat, len: nat)
    requires forall i :: 0 <= i < |picks| ==> picks[i] < |rules|
    requires len > 0 && used <= maxSize
    requires forall i :: 0 <= i < |rules| ==> |Text(rules[i])| == len
    requires |picks| == 0 || used + len > maxSize
    ensures |Take(rules, picks, maxSize, used)| == 0
    ensures |picks| == 0 || maxSize - used < len
  {
    if |picks| > 0 {
      assert |Text(rules[picks[0]])| == len;
      TakeLength(rules, picks, maxSize, used);
    }
  }

  /** The count when the first pick fits, from the count of the rest. */
  lemma UniformStep(rules: seq<Rule>, picks: seq<nat>, maxSize: int, used: nat, len: nat)
    requires forall i :: 0 <= i < |picks| ==> picks[i] < |rules|
    requires len > 0 && |picks| > 0 && used + len <= maxSize
    requires forall i :: 0 <= i < |rules| ==> |Text(rules[i])| == len
    requires var m := |Take(rules, picks[1..], maxSize, used + len)|;
      && m * len <= maxSize - (used + len)
      && (m == |picks[1..]| || maxSize - (used + len) < (m + 1) * len)
    ensures var n := |Take(rules, picks, maxSize, used)|;
      && n * len <= maxSize - used
      && (n == |picks| || maxSize - used < (n + 1) * len)
  {
    assert |Text(rules[picks[0]])| == len;
    TakeLength(rules, picks, maxSize, used);
    CountStep(|Take(rules, picks[1..], maxSize, used + len)|, len, maxSize - used, |picks| - 1);
  }

  /** The number of picks taken, one step at a time. */
  lemma TakeLength(rules: seq<Rule>, picks: seq<nat>, maxSize: int, used: nat)
    requires forall i :: 0 <= i < |picks| ==> picks[i] < |rules|
    requires |picks| > 0
    ensures var n := |Text(rules[picks[0]])|;
      |Take(rules, picks, maxSize, used)|
        == if used >= maxSize || used + n > maxSize then 0
           else 1 + |Take(rules, picks[1..], maxSize, used + n)|
  {
    TakeStep(rules, picks, maxSize, used);
  }

  /** The arithmetic of one more payload of length `len` within `budget`. */
  lemma CountStep(m: int, len: int, budget: int, k: int)
    requires len > 0
    requires m * len <= budget - len && (m == k || budget - len < (m + 1) * len)
    ensures (m + 1) * len <= budget && (m + 1 == k + 1 || budget < (m + 2) * len)
  {
    assert (m + 1) * len == m * len + len;
    assert (m + 2) * len == (m + 1) * len + len;
  }

  /** The default budget of 1024 characters takes ten 100-character rules
      when at least twelve are requested. */
  lemma DefaultBudgetTakesTen(rs: RuleSet, picks: seq<nat>)
    requires forall i :: 0 <= i < |picks| ==> picks[i] < |rs.rules|
    requires |picks| >= 12
    requires forall i :: 0 <= i < |rs.rules| ==> |Text(rs.rules[i])| == 100
    ensures |Take(rs.rules, picks, New(rs).maxScriptSize, 0)| == 10
  {
    UniformPayloadCount(rs.rules, picks, DefaultMaxScriptSize, 0, 100);
  }

  // ---------------------------------------------------------------------
  // As written against corrected
  // ---------------------------------------------------------------------

  /** Every rule carries code. */
  predicate AllCoded(rules: seq<Rule>) {
    forall i :: 0 <= i < |rules| ==> rules[i].code.Some?
  }

  /** One step of the draw loop as written, once the walk has stopped at `k`. */
  lemma RunStep(v: Variant, rules: seq<Rule>, fractions: seq<real>, maxTries: int, maxSize: int,
                written: string, k: nat, p: string)
    requires |fractions| > 0 && |written| < maxSize && maxTries > 0
    requires Walk(rules, fractions[0]) == Some(k) && Payload(v, rules[k]) == Success(p)
    ensures RunAsWritten(v, rules, fractions, maxTries, maxSize, written)
         == if |written| + |p| > maxSize then Success(written)
            else RunAsWritten(v, rules, fractions[1..], maxTries, maxSize, written + p)
  {
  }

  lemma SelectionsStep(rules: seq<Rule>, fractions: seq<real>)
    requires |rules| > 0 && |fractions| > 0
    ensures Selections(rules, fractions)[0] == Select(rules, fractions[0])
    ensures Selections(rules, fractions)[1..] == Selections(rules, fractions[1..])
  {
  }

  /** Away from the overrun (every fraction in [0, Sum)) and from missing
      code, the draw loop as written produces the corrected text. */
  lemma {:induction false} RunAgrees(v: Variant, rules: seq<Rule>, fractions: seq<real>,
                                     maxTries: int, maxSize: int, written: string)
    requires |rules| > 0 && maxTries > 0
    requires forall i :: 0 <= i < |fractions| ==> 0.0 <= fractions[i] < Sum(rules)
    requires v == Cpp || AllCoded(rules)
    ensures RunAsWritten(v, rules, fractions, maxTries, maxSize, written)
         == Success(written + Emit(rules, Take(rules, Selections(rules, fractions), maxSize, |written|)))
    decreases |fractions|
  {
    if |fractions| == 0 || |written| >= maxSize {
      if |fractions| > 0 {
        TakeStep(rules, Selections(rules, fractions), maxSize, |written|);
      }
      assert written + "" == written;
    } else {
      WalkStopsBelowSum(rules, fractions[0]);
      var k := Walk(rules, fractions[0]).value;
      var p := Text(rules[k]);
      RunStep(v, rules, fractions, maxTries, maxSize, written, k, p);
      SelectionsStep(rules, fractions);
      var ks := Selections(rules, fractions);
      var full := written + Emit(rules, Take(rules, ks, maxSize, |written|));
      if |written| + |p| <= maxSize {
        TakeOne(rules, ks, maxSize, written, full);
        RunAgrees(v, rules, fractions[1..], maxTries, maxSize, written + p);
      } else {
        TakeDone(rules, ks, maxSize, written, full);
      }
    }
  }

  /** Draws in [0, 1) over a positive total give fractions in [0, total). */
  lemma FractionsBelowTotal(draws: seq<real>, total: real)
    requires total > 0.0
    requires forall i :: 0 <= i < |draws| ==> 0.0 <= draws[i] < 1.0
    ensures forall i :: 0 <= i < |draws| ==> 0.0 <= Fractions(draws, total)[i] < total
  {
    forall i | 0 <= i < |draws| ensures 0.0 <= Fractions(draws, total)[i] < total {
      assert total - draws[i] * total == (1.0 - draws[i]) * total;
    }
  }

  /** The three generators agree with the corrected one whenever the walk
      cannot overrun, every rule carries code (for Python and the C
      extension) and at least one rule is requested from a positive total. */
  lemma CreateRulesAgrees(v: Variant, ls: LearnSystem, maxrules: int, draws: seq<real>)
    requires maxrules <= |draws| && maxrules > 0 && ls.maxTries > 0
    requires Cached(ls.ruleset) && ls.ruleset.total > 0.0
    requires forall i :: 0 <= i < |draws| ==> 0.0 <= draws[i] < 1.0
    requires v == Cpp || AllCoded(ls.ruleset.rules)
    ensures CreateRulesAsWritten(v, ls, maxrules, draws) == Success(Some(CreateRules(ls, maxrules, draws)))
  {
    assert |ls.ruleset.rules| > 0;
    var ds := draws[..maxrules];
    FractionsBelowTotal(ds, ls.ruleset.total);
    RunAgrees(v, ls.ruleset.rules, Fractions(ds, ls.ruleset.total), ls.maxTries, ls.maxScriptSize, "");
    assert "" + CreateRules(ls, maxrules, draws) == CreateRules(ls, maxrules, draws);
  }

  /** A draw of exactly 1 (`rand()` returning `RAND_MAX`) makes the fraction
      equal to the total, which no running sum exceeds: C++ throws and the C
      extension reads past its list, while the guarded selection writes the
      last rule. */
  lemma FullDrawOverruns()
    ensures var ls := New(RuleSet(0.0, 10.0, 5.0, [Rule(1, 5.0, false, Some("attack"))]));
      && CreateRulesAsWritten(Cpp, ls, 1, [1.0]) == Failure(IndexOutOfRange)
      && CreateRulesAsWritten(Ext, ls, 1, [1.0]) == Failure(Undefined)
      && CreateRules(ls, 1, [1.0]) == "attack"
  {
    var rules := [Rule(1, 5.0, false, Some("attack"))];
    assert Through(rules, 0) == 5.0 by { assert rules[..1] == rules; }
    assert Walk(rules, 5.0).None?;
    assert [1.0][..1] == [1.0];
    assert Fractions([1.0], 5.0) == [5.0];
  }

  /** A zero total: C++ writes nothing and the C extension answers `None`,
      but pure Python has no guard, walks off the end and raises. */
  lemma PythonZeroTotalRaises()
    ensures var ls := New(RuleSet(0.0, 10.0, 0.0, [Rule(1, 0.0, false, Some("attack"))]));
      && CreateRulesAsWritten(Py, ls, 1, [0.5]) == Failure(IndexOutOfRange)
      && CreateRulesAsWritten(Cpp, ls, 1, [0.5]) == Success(Some(""))
      && CreateRulesAsWritten(Ext, ls, 1, [0.5]) == Success(None)
      && CreateRules(ls, 1, [0.5]) == ""
  {
    var rules := [Rule(1, 0.0, false, Some("attack"))];
    assert Through(rules, 0) == 0.0 by { assert rules[..1] == rules; }
    assert Walk(rules, 0.0).None?;
    assert [0.5][..1] == [0.5];
    assert Fractions([0.5], 0.0) == [0.0];
  }

  /** A rule that was never given code, drawn with certainty: pure Python
      raises a TypeError and the C extension dereferences the NULL code, while
      C++ and the corrected generator write the rule's empty text. */
  lemma MissingCodeFails()
    ensures var ls := New(RuleSet(0.0, 10.0, 5.0, [Rule(1, 5.0, false, None)]));
      && CreateRulesAsWritten(Cpp, ls, 1, [0.5]) == Success(Some(""))
      && CreateRulesAsWritten(Py, ls, 1, [0.5]) == Failure(TypeMismatch)
      && CreateRulesAsWritten(Ext, ls, 1, [0.5]) == Failure(Undefined)
      && CreateRules(ls, 1, [0.5]) == ""
  {
    var rules := [Rule(1, 5.0, false, None)];
    assert Through(rules, 0) == 5.0 by { assert rules[..1] == rules; }
    assert Walk(rules, 2.5) == Some(0);
    assert [0.5][..1] == [0.5];
    assert Fractions([0.5], 5.0) == [2.5];
    assert RunAsWritten(Cpp, rules, [2.5], 100, 1024, "") == Success("");
  }

  // ---------------------------------------------------------------------
  // Script assembly
  // ---------------------------------------------------------------------

  /** C++ `createScript`: header, rules and footer, each followed by a line
      end. */
  function CppCreateScript(ls: LearnSystem, header: string, footer: string, maxrules: nat, draws: seq<real>)
    : (r: Result<string, Error>)
    requires maxrules <= |draws|
    ensures r.Success? <==> CreateRulesAsWritten(Cpp, ls, maxrules, draws).Success?
    ensures r.Success? ==> header + "\n" <= r.value
    ensures r.Success? ==> |footer| + 1 <= |r.value| && r.value[|r.value| - |footer| - 1..] == footer + "\n"
    ensures r.Success? ==>
      |r.value| <= |header| + |footer| + 3 + (if ls.maxScriptSize < 0 then 0 else ls.maxScriptSize)
  {
    match CreateRulesAsWritten(Cpp, ls, maxrules, draws)
    case Failure(e) => Failure(e)
    case Success(body) =>
      var s := header + "\n" + body.value + "\n" + footer + "\n";
      assert s == (header + "\n") + (body.value + "\n") + (footer + "\n");
      Success(s)
  }

  /** Pure-Python `create_script`: each part is written as returned, and
      writing `None` raises a TypeError; header, rules and footer are
      produced in that order, so the first failure wins. */
  function PyCreateScript(ls: LearnSystem, header: Option<string>, footer: Option<string>,
                          maxrules: int, draws: seq<real>): (r: Result<string, Error>)
    requires maxrules <= |draws|
    ensures r.Success? <==> header.Some? && footer.Some? && CreateRulesAsWritten(Py, ls, maxrules, draws).Success?
    ensures header.None? ==> r == Failure(TypeMismatch)
    ensures r.Success? ==> header.value <= r.value
    ensures r.Success? ==> |footer.value| <= |r.value| && r.value[|r.value| - |footer.value|..] == footer.value
  {
    match header
    case None => Failure(TypeMismatch)
    case Some(h) =>
      match CreateRulesAsWritten(Py, ls, maxrules, draws)
      case Failure(e) => Failure(e)
      case Success(body) =>
        match footer
        case None => Failure(TypeMismatch)
        case Some(f) =>
          var s := h + body.value + f;
          assert s == h + (body.value + f) && s == (h + body.value) + f;
          Success(s)
  }

  /** The hooks as shipped return `None`, so pure-Python `create_script`
      raises before any rule is written. */
  lemma PyDefaultScriptRaises(ls: LearnSystem, maxrules: int, draws: seq<real>)
    requires maxrules <= |draws|
    ensures PyCreateScript(ls, None, None, maxrules, draws) == Failure(TypeMismatch)
  {
  }

  /** The C extension's `create_script`: a part that is `None` is skipped. */
  function ExtCreateScript(ls: LearnSystem, header: Option<string>, footer: Option<string>,
                           maxrules: int, draws: seq<real>): (r: Result<string, Error>)
    requires maxrules <= |draws|
    ensures r.Success? <==> CreateRulesAsWritten(Ext, ls, maxrules, draws).Success?
    ensures r.Success? ==> header.GetOr("") <= r.value
    ensures r.Success? ==> |footer.GetOr("")| <= |r.value| && r.value[|r.value| - |footer.GetOr("")|..] == footer.GetOr("")
    ensures r.Success? ==>
      |r.value| <= |header.GetOr("")| + |footer.GetOr("")| + (if ls.maxScriptSize < 0 then 0 else ls.maxScriptSize)
  {
    match CreateRulesAsWritten(Ext, ls, maxrules, draws)
    case Failure(e) => Failure(e)
    case Success(body) =>
      var h := header.GetOr("");
      var f := footer.GetOr("");
      var s := h + body.GetOr("") + f;
      assert s == h + (body.GetOr("") + f) && s == (h + body.GetOr("")) + f;
      Success(s)
  }

  /** With the hooks as shipped, the C extension's script is exactly the
      corrected rule text whenever the walk cannot overrun; given a header
      and a footer, the pure-Python script agrees with it. */
  lemma ScriptsAgree(ls: LearnSystem, header: Option<string>, footer: Option<string>, maxrules: int, draws: seq<real>)
    requires maxrules <= |draws| && maxrules > 0 && ls.maxTries > 0
    requires Cached(ls.ruleset) && ls.ruleset.total > 0.0 && AllCoded(ls.ruleset.rules)
    requires forall i :: 0 <= i < |draws| ==> 0.0 <= draws[i] < 1.0
    ensures ExtCreateScript(ls, None, None, maxrules, draws) == Success(CreateRules(ls, maxrules, draws))
    ensures header.Some? && footer.Some? ==>
      PyCreateScript(ls, header, footer, maxrules, draws) == ExtCreateScript(ls, header, footer, maxrules, draws)
  {
    CreateRulesAgrees(Py, ls, maxrules, draws);
    CreateRulesAgrees(Ext, ls, maxrules, draws);
    var body := CreateRules(ls, maxrules, draws);
    assert "" + body + "" == body;
  }

  /** Whenever the C++ generator agrees with the corrected one, the C++
      script is the header, exactly the corrected rule text and the footer,
      each followed by a line end. */
  lemma CppScriptFrame(ls: LearnSystem, header: string, footer: string, maxrules: nat, draws: seq<real>)
    requires maxrules <= |draws| && maxrules > 0 && ls.maxTries > 0
    requires Cached(ls.ruleset) && ls.ruleset.total > 0.0
    requires forall i :: 0 <= i < |draws| ==> 0.0 <= draws[i] < 1.0
    ensures CppCreateScript(ls, header, footer, maxrules, draws)
         == Success(header + "\n" + CreateRules(ls, maxrules, draws) + "\n" + footer + "\n")
  {
    CreateRulesAgrees(Cpp, ls, maxrules, draws);
  }

  /** On coded rules, the pure-Python script given a header and a footer is
      the header, exactly the corrected rule text and the footer. */
  lemma PyScriptFrame(ls: LearnSystem, header: string, footer: string, maxrules: int, draws: seq<real>)
    requires maxrules <= |draws| && maxrules > 0 && ls.maxTries > 0
    requires Cached(ls.ruleset) && ls.ruleset.total > 0.0 && AllCoded(ls.ruleset.rules)
    requires forall i :: 0 <= i < |draws| ==> 0.0 <= draws[i] < 1.0
    ensures PyCreateScript(ls, Some(header), Some(footer), maxrules, draws)
         == Success(header + CreateRules(ls, maxrules, draws) + footer)
  {
    CreateRulesAgrees(Py, ls, maxrules, draws);
  }

  /** On coded rules, the C extension's script is the header, exactly the
      corrected rule text and the footer, a missing header or footer
      contributing nothing. */
  lemma ExtScriptFrame(ls: LearnSystem, header: Option<string>, footer: Option<string>, maxrules: int, draws: seq<real>)
    requires maxrules <= |draws| && maxrules > 0 && ls.maxTries > 0
    requires Cached(ls.ruleset) && ls.ruleset.total > 0.0 && AllCoded(ls.ruleset.rules)
    requires forall i :: 0 <= i < |draws| ==> 0.0 <= draws[i] < 1.0
    ensures ExtCreateScript(ls, header, footer, maxrules, draws)
         == Success(header.GetOr("") + CreateRules(ls, maxrules, draws) + footer.GetOr(""))
  {
    CreateRulesAgrees(Ext, ls, maxrules, draws);
  }
}
