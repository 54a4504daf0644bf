# dynrules: dynamic scripting, modelled in Dafny

dynrules implements *dynamic scripting* (Spronck et al. 2005, "Adaptive Game
AI with Dynamic Scripting"). A **RuleSet** holds weighted **Rules** whose
weights stay between a minimum and a maximum, and it caches their total
weight. After an encounter, `updateWeights(fitness)` rewards the rules that
were used, compensates the unused ones so that the shifts cancel out, clamps
every weight into the bounds and hands the clamped-off remainder to a
redistribution hook. A **LearnSystem** then writes a new script. It draws
rules by roulette-wheel selection (a rule's chance is proportional to its
weight) and appends their code while it fits a character budget. The code
sits between a header and a footer.

The repository has four implementations of this core, and the model keeps
them apart where they differ:

- **C++** (`cplusplus/src`): a vector of rule pointers. A duplicate id is
  appended. Removal is by pointer identity. Bounds may be negative. The
  limits are unsigned and unchecked.
- **Python** (`dynrules/`): a dictionary keyed by id. A duplicate id replaces
  the old rule. Both bounds must be non-negative. The weight setter refuses
  negative weights. The limits must be at least one.
- **C extension** (`src/*.c`): the Python behaviour in C. It differs in four
  places. The initialiser is unchecked, so the bounds may be inverted. `add`
  and `remove` key the dictionary with `PyInt_FromLong(r->id)`, and the id
  is an object pointer. So the key is the address of the id object, while
  `find(id)` looks up the id value. A drawn rule without code hands a NULL
  pointer to `PyObject_CheckReadBuffer`, which is undefined. A zero total
  answers `None`.
- **Legacy Python 2** (`lib/`): an older copy whose `add`, `remove` and
  `update_weights` go through a property that returns a fresh list.

`dynrules/__init__.py` repeats the Python classes word for word: `Rule` at
lines 24-65 is `dynrules/Rule.py`, `RuleSet` at lines 68-242 is
`dynrules/RuleSet.py`, and `LearnSystem` at lines 326-492 is
`dynrules/LearnSystem.py`. The members that cite the separate files model
both copies.

Everything is a value. A rule is a datatype, and a RuleSet is its bounds,
its cached total and a sequence of rules in insertion order. An object's
identity (a pointer, or a Python `is`) is modelled as equality of the whole
value. Adding a rule clamps its weight on the caller's object, so the add
operations return the stored rule with the new set, and that rule is the
handle a later removal compares. The overridable hooks `calculateAdjustment` and `distributeRemainder`
form a `Policy` record of two functions. Random draws are parameters: one
unit value per requested rule. In C and C++ a draw is `rand() / RAND_MAX`,
in [0, 1]. In Python it is `uniform`, in [0, 1).

Modules, one per file:

- `Wrappers`: `Option`, `Result` and the error kinds.
- `Rules`: the rule.
- `Weights`: sums of weights.
- `RuleSets`: the shared state, its invariants, `find`, `clear` and
  keyed storage.
- `Reweighting`: the weight update.
- `Policies`: the base hooks and the warrior example.
- `CppRuleSet`, `PyRuleSet` and `LegacyRuleSet`: the three containers.
- `ExtRuleSet`: the C extension's dictionary, keyed by the address of each
  rule's id object.
- `Selection`: the weighted walk.
- `LearnSystems`: the rule text generators and the script assembly.

Where the code and its documentation disagree, the model follows the code:

- C++ `addRule` is documented to throw `invalid_argument` on a null rule. The
  body dereferences it.
- C++ `removeRule` is documented to compare with `==`, which compares ids. The
  body compares pointers.
- The older `lib/` RuleSet's `add` is read as written. It assigns into the
  list of values that the `rules` property returns, so it never stores the
  rule and never touches the total.

## Model

| member | source | states |
|---|---|---|
| Rules.NewCppRule | cplusplus/src/Rule.cpp:12-50 | the C++ constructors store id, code and weight as given, with no check on the weight, and start unused |
| Rules.NewPyRule | dynrules/Rule.py:16-21 | a new Python rule has weight 0, is unused and has no code; the C extension's initialiser (src/rule.c:109-122) starts the same way |
| Rules.SetWeight | cplusplus/src/Rule.cpp:61-64 | the C++ setter stores any weight and changes nothing else |
| Rules.SetWeightChecked | dynrules/Rule.py:33-41 | a weight is accepted exactly when it is non-negative; a negative one is a ValueError and the rule is unchanged; src/rule.c:165-178 and lib/Rule.py:34-43 refuse the same way |
| Rules.SetUsed | cplusplus/src/Rule.cpp:71-74 | the flag is stored and nothing else changes, so the rule stays equal to what it was |
| Rules.SetId | cplusplus/src/Rule.cpp:81-84 | the id is stored and nothing else changes; the rule stays equal to what it was exactly when the id is unchanged |
| Rules.SetCode | src/rule.c:191-207 | the code is stored, and `None` clears it, so the rule's text becomes the new code or empty; everything else stays alone |
| Rules.SameRuleIsEquivalence | cplusplus/src/Rule.cpp:96-104 | rule equality compares ids only and is reflexive, symmetric and transitive |
| Rules.SameRuleIgnoresState | cplusplus/src/Rule.cpp:96-104 | changing weight, use flag or code leaves a rule equal to what it was |
| RuleSets.Find | cplusplus/src/RuleSet.cpp:99-106 | `find(id)` yields nothing exactly when no held rule has the id, and otherwise the first held rule with it; the pure-Python lookup (dynrules/RuleSet.py:96-103) returns None in the same cases |
| RuleSets.FindIsLookup | dynrules/RuleSet.py:96-103 | with ids kept distinct, `find(id)` returns r exactly when r is held and carries that id |
| RuleSets.Clear | cplusplus/src/RuleSet.cpp:108-112 | `clear()` leaves no rules and a zero total, keeps the bounds, keeps the set valid, and afterwards no id is found; dynrules/RuleSet.py:77-80 and src/ruleset.c:245-251 do the same |
| RuleSets.Upsert | dynrules/RuleSet.py:86-89 | storing under an id replaces the rule held there in place, or appends one for a new id; other rules stay; distinct ids stay distinct; the sum changes by the new weight minus the replaced one |
| RuleSets.RemoveAt | cplusplus/src/RuleSet.cpp:91-95 | erasing one rule keeps the others in order, removes exactly that element from the multiset and lowers the sum by its weight |
| RuleSets.RemoveAtKeepsValid | cplusplus/src/RuleSet.cpp:91-95 | erasing a rule and subtracting its weight keeps bounds, in-bound weights and the cached total |
| RuleSets.ClampOnAdd | cplusplus/src/RuleSet.cpp:72-75 | an added weight above the maximum becomes the maximum, one below the minimum the minimum, one in range is kept; the upper bound is tested first, as also in dynrules/RuleSet.py:90-93 and src/ruleset.c:374-377 |
| Reweighting.ZeroSumShift | cplusplus/src/RuleSet.cpp:138-141 | the compensation `-used * adjustment / unused` makes the shifts of all rules sum to zero; src/ruleset.c:487-503 computes the same compensation |
| Reweighting.ClampWeight | cplusplus/src/RuleSet.cpp:151-162 | a shifted weight is clamped into the bounds, lower bound first, and clamped value plus overshoot is the shifted weight; src/ruleset.c:509-519 clamps the same way |
| Reweighting.ClampPass | cplusplus/src/RuleSet.cpp:144-164 | every rule is shifted by the adjustment (if used) or the compensation, then clamped; only weights change; the new sum plus the remainder equals the old sum plus all shifts; the remainder is zero when nothing was clamped |
| Reweighting.Reweigh | cplusplus/src/RuleSet.cpp:138-166 | before the hook, every weight is within the bounds and the clamped sum plus the remainder is the old sum |
| Reweighting.UpdateWeights | cplusplus/src/RuleSet.cpp:114-176 | without both used and unused rules the set is unchanged; otherwise the hook receives the clamped rules and the remainder, and the total is recomputed from what the hook leaves, so it is always the sum of the weights; inverted bounds are accepted, as the C extension's unchecked initialiser allows, and src/ruleset.c:442-542 takes the same steps |
| Reweighting.NoSignalNoChange | cplusplus/src/RuleSet.cpp:125-136 | an empty set, a set with no used rule and a set with only used rules are left exactly as they were; dynrules/RuleSet.py:157-158 returns early in the same cases |
| Reweighting.RewardMovesWeights | dynrules/test/ruleset_test.py:101-121 | a non-negative reward never lowers a used rule nor raises an unused one; a positive reward strictly raises used rules below the maximum and lowers unused rules above the minimum |
| Policies.BaseUpdateIsIdentity | cplusplus/src/RuleSet.cpp:178-185 | with the base hooks (adjustment 0, no redistribution) an update leaves a valid set unchanged |
| Policies.WarriorAdjustment | cplusplus/examples/WarriorRuleSet.h:16-36 | null fitness gives 0; above 3 gives fitness minus 3; a negative fitness is passed through; otherwise 3 minus fitness |
| Policies.WarriorAdjustmentSign | cplusplus/examples/WarriorRuleSet.h:16-36 | the warrior is penalised exactly when the fitness is negative, and gets zero exactly for a null fitness or a fitness of 3 |
| Policies.WarriorDistribute | cplusplus/examples/WarriorRuleSet.h:38-50 | every rule gets an equal share of the remainder, so the sum grows by exactly the remainder; an empty set is left alone |
| Policies.AddToAllSum | cplusplus/examples/WarriorRuleSet.h:44-49 | adding the same amount to n weights raises their sum by n times that amount |
| Policies.WarriorUpdateConservesTotal | cplusplus/examples/WarriorRuleSet.h:38-50 | under the warrior policy an update keeps the total weight exactly and keeps it cached |
| Policies.WarriorMayLeaveBounds | cplusplus/examples/WarriorRuleSet.h:44-49 | the even spread is not clamped again, so a valid set can end with a weight below the minimum |
| CppRuleSet.Default | cplusplus/src/RuleSet.cpp:11-17 | the default set has bounds 0 and 0, no rules and total 0 |
| CppRuleSet.New | cplusplus/src/RuleSet.cpp:19-29 | construction succeeds exactly for ordered bounds, negative ones included, and gives an empty valid set |
| CppRuleSet.SetMinWeight | cplusplus/src/RuleSet.cpp:40-45 | the minimum is accepted exactly when it is not above the maximum; a refusal changes nothing |
| CppRuleSet.SetMaxWeight | cplusplus/src/RuleSet.cpp:52-57 | the maximum is accepted exactly when it is not below the minimum |
| CppRuleSet.SetMinWeightStrandsRules | cplusplus/src/RuleSet.cpp:40-45 | moving a bound does not re-clamp held rules, which can end up outside the bounds |
| CppRuleSet.AddRule | cplusplus/src/RuleSet.cpp:69-77 | a rule is appended after the existing ones, even with an id already held, with its clamped weight added to the total; the clamp lands on the caller's rule, which is returned as the stored rule; a valid set stays valid; a null rule is undefined |
| CppRuleSet.AddDuplicateKeepsFirst | cplusplus/src/RuleSet.cpp:99-106 | after adding a duplicate id, `find` still returns the first rule; a new id finds the added, clamped rule |
| CppRuleSet.IndexOfRule | cplusplus/src/RuleSet.cpp:81-90 | the search finds the first held rule identical to the argument, or reports that there is none |
| CppRuleSet.RemoveRule | cplusplus/src/RuleSet.cpp:79-97 | `removeRule` answers true exactly for a held rule; it then erases the first occurrence and subtracts that rule's weight; otherwise nothing changes; validity is kept |
| CppRuleSet.AddThenRemove | cplusplus/src/RuleSet.cpp:69-97 | removing the rule that `addRule` stored always succeeds and gives back the held rules (as a multiset) and the total; when no identical rule was held before, the set is exactly the one before the add |
| CppRuleSet.RemoveRuleAsWritten | cplusplus/src/RuleSet.cpp:93-94 | as written, the erased iterator is read again: removing the last rule is undefined, any other removal erases the first identical rule but subtracts the weight of the rule that followed it, and a missing rule changes nothing |
| CppRuleSet.RemoveAsWrittenBreaksTotal | cplusplus/src/RuleSet.cpp:93-94 | removing the first of two rules (weights 5 and 7) leaves a cached total of 5 for a held weight of 7 |
| PyRuleSet.SetMinWeight | dynrules/RuleSet.py:42-55 | the minimum is accepted exactly when it is non-negative and not above the maximum; a refusal is a ValueError and nothing changes; src/ruleset.c:189-208 and lib/RuleSet.py:22-36 check the same way |
| PyRuleSet.SetMaxWeight | dynrules/RuleSet.py:62-75 | the maximum is accepted exactly when it is non-negative and not below the minimum; src/ruleset.c:216-236 and lib/RuleSet.py:38-52 check the same way |
| PyRuleSet.New | dynrules/RuleSet.py:18-25 | construction runs the maximum setter and then the minimum setter, so it succeeds exactly for 0 <= min <= max and gives an empty valid set |
| PyRuleSet.Add | dynrules/RuleSet.py:82-94 | a non-rule is a TypeError; a rule is stored under its id with its weight clamped, replacing a rule with that id in place, and is returned as the stored rule; the total gains the clamped weight and loses the replaced one's; distinct ids stay distinct; `find` then returns the stored rule; a valid set stays valid |
| PyRuleSet.StoredUnderId | dynrules/RuleSet.py:109-112 | with distinct ids, a held rule is the one stored under its id, so a "does not match" refusal concerns a rule that is not held |
| PyRuleSet.Remove | dynrules/RuleSet.py:105-115 | a non-rule is a TypeError; an id not held is "does not exist"; "does not match" happens exactly when a different rule is held under the id; success erases the rule held under the id, subtracts its weight and keeps the set valid, and a held rule is always removable |
| PyRuleSet.AddThenRemove | dynrules/RuleSet.py:82-115 | with distinct ids, removing the rule that `add` stored always succeeds; for a new id it gives back exactly the set before the add |
| PyRuleSet.ThreeAddsKeepOne | dynrules/test/ruleset_test.py:48-58 | adding a fresh rule 1 three times to RuleSet(10, 20) keeps one rule, raised to weight 10, and a total of 10 |
| PyRuleSet.CheckedClampPass | dynrules/RuleSet.py:165-176 | shifting through the validating setter succeeds exactly when no shifted weight is negative, and then equals the clamping pass |
| PyRuleSet.UpdateWeightsAsWritten | dynrules/RuleSet.py:140-185 | the pure-Python update fails exactly when a shifted weight would be negative, and otherwise equals the clamping update |
| PyRuleSet.Py2Compensation | dynrules/RuleSet.py:160-162 | under Python 2 with an integer adjustment, `-usedcount * adjustment / nonactive` floors: the compensation is the largest integer whose multiple by the unused count does not exceed the negated reward |
| PyRuleSet.Py2ShiftDrift | dynrules/RuleSet.py:160-169 | with the floored compensation the shifts no longer cancel: their sum lies in (-unused count, 0], and it is zero, and the compensation equals the exact one, exactly when the unused count divides the reward |
| PyRuleSet.PenaltyBelowZeroRaises | dynrules/RuleSet.py:165-173 | a penalty of 3 on a used rule of weight 1 raises in pure Python; the clamping update sets it to the minimum 0 and the unused rule to 13 |
| PyRuleSet.ExtInit | src/ruleset.c:134-149 | the C extension's initialiser stores both integers unchecked; the bounds are ordered exactly when the arguments are |
| PyRuleSet.ExtInitAcceptsInvertedBounds | test/test_cruleset.py:17 | RuleSet(10, 9) is refused by the checked constructor but accepted by the C extension, whose next add stores a rule below the minimum |
| PyRuleSet.InvertedBoundsPinWeights | src/ruleset.c:509-519 | with the inverted bounds the C extension's initialiser admits, every reweighted rule ends at the minimum or the maximum, outside the range between them |
| ExtRuleSet.Find | src/ruleset.c:253-268 | `find(id)` looks up the id value itself: nothing exactly when no entry is stored under a key equal to the id, otherwise a rule stored under that key |
| ExtRuleSet.Put | src/ruleset.c:363-367 | the dictionary store replaces the entry under the key where it stands or appends one for a new key; the key then finds the new rule, every other key keeps its rule, distinct keys stay distinct, and the sum changes by the new weight minus the replaced one |
| ExtRuleSet.Add | src/ruleset.c:339-381 | a non-rule is a TypeError; the rule is stored under the address of its id object with its weight clamped, and is returned as the stored rule; the total gains the clamped weight and loses the replaced entry's; `find` answers the rule for the address, and every other key is unchanged; a cached total stays cached |
| ExtRuleSet.Remove | src/ruleset.c:383-440 | a non-rule is a TypeError; "rule does not exist" exactly when nothing is stored under the address of the id object; "does not match" exactly when another rule is; success erases that entry and subtracts the rule's weight |
| ExtRuleSet.FindAfterAddMisses | src/ruleset.c:361 | after adding a rule to an empty store, `find` of its id succeeds exactly when the id object's address equals the id, while the keyed add always finds it |
| ExtRuleSet.EqualIdsBothStored | src/ruleset.c:361-367 | two rules with the equal id 1000 held in two id objects are both stored and both counted in the total, while the keyed add keeps only the second |
| ExtRuleSet.RemoveByEqualIdMisses | src/ruleset.c:404-430 | removing the stored rule with its id given in an object at another address is "rule does not exist", while the keyed remove gives back the empty set |
| ExtRuleSet.FindIsKeyedLookup | src/ruleset.c:253-268 | with every rule stored under its own id value, `find` is the keyed lookup `RuleSets.Find` |
| ExtRuleSet.PutIsUpsert | src/ruleset.c:363-367 | with keys equal to ids, storing a rule under its id is `RuleSets.Upsert` of the rules and keeps keys equal to ids |
| ExtRuleSet.AddByIdIsKeyedAdd | src/ruleset.c:339-381 | keyed by the id value instead of the address, the C add is `PyRuleSet.Add`: the same stored rule, rules and total |
| ExtRuleSet.RemoveByIdIsKeyedRemove | src/ruleset.c:383-440 | keyed by the id value instead of the address, the C remove is `PyRuleSet.Remove`: the same error, or the same rules and total |
| LegacyRuleSet.New | lib/RuleSet.py:16-20 | the older constructor stores the bounds unchecked; they are ordered exactly when the arguments are |
| LegacyRuleSet.Add | lib/RuleSet.py:54-66 | a non-rule is a TypeError; a rule raises IndexError unless its id indexes the fresh values list, and on success the set is unchanged while the caller's rule is clamped |
| LegacyRuleSet.Remove | lib/RuleSet.py:68-80 | a non-rule is a TypeError; any rule raises, because the values list has no `has_key` |
| LegacyRuleSet.UpdateWeights | lib/RuleSet.py:109-116 | every update raises, because the values list has no `values` method |
| LegacyRuleSet.UpdateAlwaysRaises | lib/RuleSet.py:114-116 | the older update raises on every set where the clamping update returns a set with a correct total |
| LegacyRuleSet.AddNeverStores | lib/RuleSet.py:54-66 | adding rule 0 to an empty RuleSet(0, 10) raises, while the keyed add stores it |
| LegacyRuleSet.RemoveAlwaysRaises | lib/RuleSet.py:68-80 | removing a held rule raises, while the keyed remove empties the set and zeroes the total |
| Selection.WalkFrom | cplusplus/src/LearnSystem.cpp:118-132 | the walk returns the first index whose running sum exceeds the fraction, and runs off the end exactly when no running sum does |
| Selection.Walk | cplusplus/src/LearnSystem.cpp:118-132 | from the first rule, the walk picks the first index whose running sum exceeds the fraction, or overruns; src/learnsystem.c:290-304 and dynrules/LearnSystem.py:163-173 walk the same way |
| Selection.WalkStopsBelowSum | cplusplus/src/LearnSystem.cpp:106-132 | a fraction below the sum of the weights always stops the walk inside the list |
| Selection.WalkOverrunsAtSum | cplusplus/src/LearnSystem.cpp:121-132 | with non-negative weights, a fraction at or above the sum runs the walk off the end |
| Selection.Select | cplusplus/src/LearnSystem.cpp:106-134 | the guarded pick is always a valid index and equals the walk's pick when there is one; for a non-negative fraction over a positive sum it has positive weight |
| Selection.SelectIsSlice | cplusplus/src/LearnSystem.cpp:118-132 | the roulette property: rule k is picked exactly when the fraction lies in [weight before k, that plus k's weight) |
| LearnSystems.New | cplusplus/src/LearnSystem.cpp:26-31 | a new learn system uses the given rule set, 100 tries and a budget of 1024 characters; dynrules/LearnSystem.py:41-49 and src/learnsystem.c:124-143 set the same defaults |
| LearnSystems.SetMaxTriesUnchecked | cplusplus/src/LearnSystem.cpp:60-63 | C++ stores any unsigned count, zero included, and nothing else changes |
| LearnSystems.SetMaxScriptSizeUnchecked | cplusplus/src/LearnSystem.cpp:70-73 | C++ stores any unsigned budget, zero included |
| LearnSystems.SetMaxTries | dynrules/LearnSystem.py:70-79 | the count is accepted exactly when it is at least 1; a refusal is a ValueError; src/learnsystem.c:166-180 checks the same way |
| LearnSystems.SetMaxScriptSize | dynrules/LearnSystem.py:86-94 | the budget is accepted exactly when it is at least 1, and nothing else changes; src/learnsystem.c:188-203 checks the same way |
| LearnSystems.Payload | dynrules/LearnSystem.py:182-185 | a rule's code is written as it is; a missing code is written as nothing in C++, fails in Python (`len(None)`, a TypeError), and is undefined in the C extension, which hands NULL to `PyObject_CheckReadBuffer` (src/learnsystem.c:306-309) |
| LearnSystems.Fractions | cplusplus/src/LearnSystem.cpp:121 | each fraction is the draw times the cached total |
| LearnSystems.RunAsWritten | cplusplus/src/LearnSystem.cpp:110-149 | the draw loop only appends to what is written, never exceeds the budget, and draws nothing when no tries are allowed |
| LearnSystems.CreateRulesAsWritten | cplusplus/src/LearnSystem.cpp:87-153 | C++ writes nothing for a zero total or no requested rules, and its text stays within the budget; Python (dynrules/LearnSystem.py:141-192) refuses a count below one with a ValueError and has no guard for a zero total; the C extension (src/learnsystem.c:240-361) refuses a count below one and answers None for a zero total |
| LearnSystems.Take | cplusplus/src/LearnSystem.cpp:110-149 | the written picks are a prefix of the drawn ones that fits the budget, and they stop only when the budget is used up or the next payload would overflow it |
| LearnSystems.CreateRules | cplusplus/src/LearnSystem.cpp:87-153 | the corrected generator writes nothing when there is nothing to draw and never exceeds the budget |
| LearnSystems.WritePicks | cplusplus/src/LearnSystem.cpp:136-147 | the writing loop produces exactly the text of the picks that fit |
| LearnSystems.BuildRules | cplusplus/src/LearnSystem.cpp:87-153 | the loop implementation produces exactly the corrected generator's text, within the budget |
| LearnSystems.SelectionsArePositive | cplusplus/src/LearnSystem.cpp:121-132 | for draws in [0, 1] over a positive total, every selected rule has positive weight, so a zero-weight rule is never written |
| LearnSystems.UniformPayloadCount | cplusplus/src/LearnSystem.cpp:140-143 | with every payload n characters long, the script holds all requested rules or as many as fit, and one more would not fit |
| LearnSystems.DefaultBudgetTakesTen | cplusplus/src/LearnSystem.cpp:12-14 | the default budget of 1024 takes exactly ten 100-character rules when twelve or more are requested |
| LearnSystems.RunAgrees | cplusplus/src/LearnSystem.cpp:110-149 | when every fraction lies below the sum and every rule has code, the loop as written yields the corrected text |
| LearnSystems.CreateRulesAgrees | dynrules/LearnSystem.py:141-192 | for draws in [0, 1) over a positive cached total, the three generators as written return the corrected text |
| LearnSystems.FullDrawOverruns | cplusplus/src/LearnSystem.cpp:121-132 | a draw of exactly 1 makes C++ throw out_of_range and the C extension (src/learnsystem.c:293-306) read past its list, while the corrected generator writes the only rule |
| LearnSystems.PythonZeroTotalRaises | dynrules/LearnSystem.py:150-173 | for a zero total, Python walks off the list and raises IndexError, C++ writes nothing, the C extension answers None, and the corrected generator writes nothing |
| LearnSystems.MissingCodeFails | src/learnsystem.c:306-309 | drawing a rule that was never given code makes Python raise a TypeError and the C extension dereference NULL, while C++ and the corrected generator write nothing for it |
| LearnSystems.CppCreateScript | cplusplus/src/LearnSystem.cpp:155-161 | the script is the header, the rule text and the footer, each followed by a line end; it fails exactly when the rule text does |
| LearnSystems.CppScriptFrame | cplusplus/src/LearnSystem.cpp:155-161 | for draws in [0, 1) over a positive total, the C++ script is the header, the corrected rule text and the footer, each on its own line |
| LearnSystems.PyCreateScript | dynrules/LearnSystem.py:117-119 | the Python script writes header, rules and footer in order; writing a `None` part raises a TypeError, and the first failure wins |
| LearnSystems.PyScriptFrame | dynrules/LearnSystem.py:117-119 | given a header and a footer, for draws in [0, 1) over a positive total with every rule coded, the Python script is the header, the corrected rule text and the footer |
| LearnSystems.PyDefaultScriptRaises | dynrules/LearnSystem.py:125-139 | with the hooks as shipped (returning None), the Python script raises before any rule is written |
| LearnSystems.ExtCreateScript | src/learnsystem.c:439-496 | the C extension skips a `None` header, rule text or footer; the result starts with the header and ends with the footer |
| LearnSystems.ExtScriptFrame | src/learnsystem.c:439-496 | for draws in [0, 1) over a positive total with every rule coded, the C extension's script is the header (or nothing), the corrected rule text and the footer (or nothing) |
| LearnSystems.ScriptsAgree | src/learnsystem.c:363-373 | with the hooks as shipped, the C extension's script is exactly the corrected rule text; given a header and a footer, Python's script equals the C extension's |

## Left out

- Streams and files: `createScript` returns the text it would write. Opening, appending to, flushing and closing files are not modelled.
- Partial output: when a script part fails, the parts already written to the stream are not modelled. The result is only the error.
- Floating point: weights and fractions are exact reals. IEEE rounding, `float(count)` conversions and the `0.f` constants are not modelled. The overrun at a draw of 1 happens even over exact reals.
- Text lengths: lengths are counted in characters. The C extension's byte-buffer lengths and Python 2 `str`/`unicode` sizes are not modelled.
- Tries: `maxtries` only matters as zero versus positive. In all three generators the inner loop ends after one attempt (an unconditional `break`), so more tries never draw again.
- Randomness: `srand(time(0))`, `rand()` and `uniform` are replaced by the draws passed in.
- Python type checks: any non-rule argument is modelled as `None`. Conversions such as `float("hello")` and their TypeError/ValueError are not modelled.
- C++ limits: `maxrules` and the limits are unsigned. A negative value wrapping to a large one is not modelled; the model takes natural numbers or treats a count below one as zero.
- Hooks of the Python base classes raise NotImplementedError. The model passes the hooks in as functions and does not model an unset hook.
- The C extension's final total loop reads the values list after releasing it (src/ruleset.c:525-538). Memory ownership is not modelled; the loop is treated as a read of the current weights. That loop sums the rules in the values list taken before `distribute_remainder` ran, and so does Python 2's `.values()` list (dynrules/RuleSet.py:146,183). The model sums the rules the hook leaves in the set, as C++ does over its live `_rules`. So a hook that adds or removes rules gives a different total in the C extension and Python 2 than the model states.
- A hook that raises inside the C extension's update is not modelled. In the C extension's `create_script`, a `None` header or footer is skipped, as modelled. A `create_footer` that raises leaves `footer` NULL, and nothing checks it before `PyObject_Size` and `Py_DECREF` (src/learnsystem.c:479-490), which is undefined. A header or footer without a length makes `PyObject_Size` return -1, an error. Neither case is modelled.
- RuleManager, MMapRuleManager and RuleManagement (file-backed rule loading) are not part of this model. Neither is the older `lib/LearnSystem.py`, or the examples' game loops.
- CppRuleSet.RemoveRule: pointer identity is modelled as equality of the whole rule value. Two distinct objects with identical contents count as one rule.
- PyRuleSet.UpdateWeightsAsWritten: the weights already changed before the setter raises are not modelled, and the adjustment and the compensation are exact reals, as under Python 3 or with a float adjustment. Under Python 2 with an integer adjustment the compensation floors (PyRuleSet.Py2Compensation), so the shifts can leave the total short by less than the unused count (PyRuleSet.Py2ShiftDrift). "Equals the clamping update" then holds only when the division is exact.
- PyRuleSet.Add: the model keeps the rules in insertion order. Dictionaries before Python 3.7, and the C extension's `PyDict_Values` (src/ruleset.c:241), iterate in hash order instead, and that order decides which rule a fraction selects. The model's selections are those of an insertion-ordered dictionary.
- PyRuleSet.Remove: removal compares the whole rule value, so it needs the rule as stored, which is the one `add` returns. A copy taken before a clamp that changed the weight counts as a different rule and gives "does not match". CppRuleSet.RemoveRule likewise answers false for such a copy.
- The C extension writes the header to the file before it writes the rules, so a later failure leaves a partial file. Only the error is modelled.
- RuleSets.Find: states the lookup by id value of C++ and pure Python. The C extension's `find` misses every rule its `add` stored unless the id object's address equals the id; that store is modelled separately as ExtRuleSet.Find.
- RuleSets.Upsert: replaces by id value. The C extension replaces only an entry stored under the same id object address, so two equal ids in different objects are both kept (ExtRuleSet.Put, ExtRuleSet.EqualIdsBothStored).
- PyRuleSet.Add: keys by id value, as the pure-Python class does. It does not describe the C extension's add, which keys by the id object's address (ExtRuleSet.Add).
- PyRuleSet.Remove: looks the rule up by id value. The C extension's remove answers "rule does not exist" when the id is an equal value in another object (ExtRuleSet.Remove, ExtRuleSet.RemoveByEqualIdMisses).
- ExtRuleSet.Add: the address of a rule's id object is a parameter. Object allocation, and the small-integer cache that makes equal small ids share one object, are not modelled. Ids are integers, though the C extension accepts any object as an id.
- Shared rule objects: the Python and C stores hold the caller's rule objects, not copies. A rule changed later through another reference (`ruleset.rules[3].used = True` in dynrules/test/ruleset_test.py:110-111, or `rule.weight = w`) changes the set without touching its cached total. The model does not follow such changes. It only sees the result as some other RuleSet value, which need not satisfy `Cached`.
- Selection.Select: the corrected fallback when the walk would overrun (the last rule of positive weight) is one evidently intended choice. The source offers none.

## Findings

| source | as written | input that shows it | evidently intended | confidence | as-written member | corrected member |
|---|---|---|---|---|---|---|
| cplusplus/src/RuleSet.cpp:93-94 | after `erase(iter)`, `(*iter)->getWeight()` reads the rule that followed the erased one, or past the end | rules of weights 5 and 7, removing the first: the total becomes 5 while 7 is held | subtract the removed rule's own weight | high, not executed | CppRuleSet.RemoveAsWrittenBreaksTotal | CppRuleSet.RemoveRule |
| cplusplus/src/LearnSystem.cpp:121-132 | `rand() / RAND_MAX * weights` reaches the total when `rand()` returns `RAND_MAX`, and no running sum exceeds it, so `rules.at(j)` throws | one rule of weight 5, draw 1.0 | always select a rule (the source's own comment asks for a safety net) | high, not executed | LearnSystems.FullDrawOverruns | LearnSystems.CreateRules |
| src/learnsystem.c:293-306 | the same walk indexes past the values list with `PyList_GET_ITEM` | one rule of weight 5, draw 1.0 | always select a rule | high, not executed | LearnSystems.FullDrawOverruns | Selection.SelectIsSlice |
| dynrules/RuleSet.py:165-176 | the shift goes through the validating weight setter before the clamp, so a negative intermediate weight raises ValueError | bounds [0, 20], used rule weight 1, unused rule weight 10, adjustment -3 | clamp to the minimum as the C++ and C versions do | high, not executed | PyRuleSet.PenaltyBelowZeroRaises | Reweighting.UpdateWeights |
| src/ruleset.c:134-149 | the initialiser stores the bounds without the setters' checks, though the tests expect ValueError for RuleSet(10, 9) | RuleSet(10, 9), then adding a rule of weight 9.5 stores weight 9, below the minimum | validate the bounds as the Python constructor does | high, not executed | PyRuleSet.ExtInitAcceptsInvertedBounds | PyRuleSet.New |
| lib/RuleSet.py:54-66 | `self.rules[rule.id] = rule` assigns into the list the `rules` property creates, so nothing is stored | empty RuleSet(0, 10), adding rule 0 raises IndexError | store the rule under its id and update the total | high, not executed | LegacyRuleSet.AddNeverStores | PyRuleSet.Add |
| lib/RuleSet.py:68-80 | `self.rules.has_key(...)` is called on a list | a set holding one rule, removing that rule raises AttributeError | look the id up in the dictionary | high, not executed | LegacyRuleSet.RemoveAlwaysRaises | PyRuleSet.Remove |
| lib/RuleSet.py:114-116 | `self.rules.values()` is called on the list the property already returns | any set | iterate over the stored rules | high, not executed | LegacyRuleSet.UpdateAlwaysRaises | Reweighting.UpdateWeights |
| dynrules/LearnSystem.py:150-173 | no guard for a zero total: `uniform(0, 0)` is 0, no running sum exceeds it, and `rules[j]` raises IndexError | one rule of weight 0, draw 0.5 | return an empty script as the C++ version does | high, not executed | LearnSystems.PythonZeroTotalRaises | LearnSystems.CreateRules |
| src/learnsystem.c:306-309 | a drawn rule whose code was never set holds NULL, and `PyObject_CheckReadBuffer(rule->code)` dereferences it | one rule of weight 5 without code, draw 0.5 | write nothing for the rule, as C++ does with an empty string | high, not executed | LearnSystems.MissingCodeFails | LearnSystems.CreateRules |
| src/ruleset.c:361-367 | `add` keys the dictionary with `PyInt_FromLong(r->id)`, where `id` is a `PyObject *`, so the key is the id object's address, while `find(id)` looks up the id value | a rule with id 1 whose id object is not at address 1, added to an empty set; `find(1)` answers None | key the dictionary by the id value, as the pure-Python class does | high, not executed | ExtRuleSet.FindAfterAddMisses | ExtRuleSet.AddByIdIsKeyedAdd |
| src/ruleset.c:404-430 | `remove` builds the same address key, so a rule whose id is an equal value in another object is "rule does not exist" | a rule with id 1000 added, then removed with its id given as another object | look the rule up by id value | high, not executed | ExtRuleSet.RemoveByEqualIdMisses | ExtRuleSet.RemoveByIdIsKeyedRemove |
| dynrules/LearnSystem.py:117-139 | `create_header` and `create_footer` return None, and writing None raises TypeError | any learn system with the hooks as shipped | skip a missing part as the C extension does | medium, not executed | LearnSystems.PyDefaultScriptRaises | LearnSystems.ExtCreateScript |
