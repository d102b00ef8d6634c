# Pattern: a verified model of the record validator

This project models `Pattern`, the validation class of the analytics server,
and proves what it does. A Pattern is built from a map of declarations:
a key name, or a `'@regex <body>'` key regular expression, bound to a rule
object `{type, required, minLength, maxLength, min, max, regexp, pattern}`
or to an array of rule objects. Built once, it checks records with two
calls. `test(record)` returns `{matched, errors}`. `matches(record)` returns
only `matched`.

The model is split by what the source does:

- `Rules` holds the rule language. A bound is a literal, a Date or a
  zero-argument function, and it is checked only when truthy.
- `JsValues` holds the values a record may hold, records as ordered entry
  lists, and `Object.keys`.
- `Diagnostics` holds the error kinds of `Pattern.errors`, plus the plain
  `false` that a rule without a matcher yields.
- `Matchers` holds the leaf entries of `Pattern.matchers` and the bound check
  they share.
- `Construction` holds the constructor. `NewPattern` is its loop, proved to
  build the Pattern that the functions `RegexRulesOf` and `RequiredNamesOf`
  describe.
- `Engine` holds `ruleForKey`, `matcherForValue`, `matchValue`, the nested
  'pattern' matcher, and `test`/`matches`. `Evaluate` is the value `test`
  computes. The method `Test` is its loop, proved to compute exactly that
  value. The nested matcher calls `matches` on a nested Pattern, so `test` is
  also needed as a pure function. `Evaluate`, `Walk`, `Step` and
  `MatchValue` recurse through nested patterns and terminate structurally.
- `Properties` holds what `test` promises for every record and every
  Pattern.
- `Scenarios` holds the behaviour of the declarations used by the
  repository's tests and by its event pattern, worked out exactly.

Three things are parameters:

- Key regular expressions are compiled by a caller-supplied
  `compile: string -> (string -> bool)`, which stands for `new RegExp`.
- The value regular expressions of 'regexp' rules are abstract predicates.
- The ambient state that a function-valued bound or regexp reads when it is
  called (the clock, for instance) is `now: int`.

A lazy `TypeError` is the `Thrown` outcome. It happens when the source
dereferences a missing `regexp` or `pattern`, or when a nested pattern does
so.

The model follows the code, not the intent of its tests:

- An array rule has no `type`, so it yields `false` for every value. The
  alternation test (tests/validation/pattern-test.js:287-298) is not
  satisfied.
- There is no 'object' matcher. The test at
  tests/validation/pattern-test.js:132-143 is not satisfied either.
- Errors are message kinds or `false`, not `Error` objects, whereas the tests
  expect `instanceof Error`.
- A bound of literal 0 is never checked.
- `'@regexp [age]'` is an ordinary exact key, not a key regular expression.

The event pattern (events/event_dal.js:17-47) spells `requried` for
`event_type`. As written, only `profile_id` is required, and
`Scenarios.EventRequiresProfile` states that.

## Model

| member | source | states |
|---|---|---|
| Construction.NewPattern | validation/pattern.js:10-30 | the constructor's loop builds exactly `Compile(decls)`: all declarations kept as `rules`, plus the regex rules and required names the loop collects |
| Construction.RegexRulesInDeclarationOrder | validation/pattern.js:14-27 | every entry of `regexRules` comes from a declaration whose name starts with exactly `'@regex '`; it holds that declaration's text, its compiled body and its rule; the entries appear in strictly increasing declaration order |
| Construction.RegexRulesComplete | validation/pattern.js:19-26 | every declaration whose name starts with `'@regex '` has its compiled rule in `regexRules` |
| Construction.RequiredNamesInDeclarationOrder | validation/pattern.js:14-16 | every entry of `requiredRules` is the name of a declaration that is one rule object with a truthy `required`; the entries appear in strictly increasing declaration order |
| Construction.RequiredNamesComplete | validation/pattern.js:15-16 | every declaration with a truthy `required` has its name in `requiredRules` |
| Construction.CompiledIsWellFormed | validation/pattern.js:15-29 | `rules` keeps every declaration (regex declarations included), and every required name is a declared name |
| Rules.FalsyBounds | validation/pattern.js:149-180 | the truthiness test `rule.min &&` (and its five siblings) skips exactly an absent bound and a literal 0 |
| Rules.BoundResolution | validation/pattern.js:133-138 | `matcherRuleValue` returns a raw bound unchanged at every moment, and calls a function-valued bound at the moment of the check |
| Rules.RegexpResolution | validation/pattern.js:195 | a RegExp `regexp` is used as it is at every moment; a function-valued one is called at the moment of the check |
| Rules.SigilPrefix | validation/pattern.js:19 | `name.indexOf('@regex ') === 0` holds exactly when the first seven characters of the name are `@regex ` |
| Rules.SigilRoundTrip | validation/pattern.js:19-25 | the sigil followed by any body is a regex declaration, and removing the sigil gives back that body |
| Construction.RequiredOnlyForRuleObjects | validation/pattern.js:15 | an array of rules is never required; a rule object is required exactly when its `required` is set |
| Rules.RegexBody | validation/pattern.js:25 | removing the sigil from a regex declaration leaves the body that, prefixed by the sigil, gives back the name |
| JsValues.Entries | validation/pattern.js:46 | the `Object.keys` entries a nested pattern sees: an object gives its fields; an array gives one entry per item, each under the decimal text of its index, and these keys are distinct; a date gives none |
| JsValues.DecimalRoundTrip | validation/pattern.js:46 | the decimal text of an array index reads back as that index, which is why the index keys are distinct |
| JsValues.ObjectLikeIffNotPrimitive | validation/pattern.js:187 | `_.isObject` fails exactly for strings, numbers, booleans and null |
| Diagnostics.KeyMessageNamesKey | validation/pattern.js:120-125 | an `invalidKey` or `requiredNotMatched` message is its fixed prefix, then the key, then `)` |
| Matchers.CheckBounds | validation/pattern.js:149-152 | two-sided bound check: passes exactly when each truthy bound is met inclusively; a missed min is reported before the max is looked at |
| Matchers.StringMatcher | validation/pattern.js:146-154 | a non-string gives `invalidType('string')`; a string is judged on its length against `minLength`/`maxLength` |
| Matchers.NumberMatcher | validation/pattern.js:159-167 | a non-number gives `invalidType('number')`; a number is judged against `min`/`max` |
| Matchers.BooleanMatcher | validation/pattern.js:169-173 | passes exactly the booleans; anything else gives `invalidType('boolean')` |
| Matchers.DateMatcher | validation/pattern.js:175-183 | a non-date gives `invalidType('date')`; a date's instant is judged against `min`/`max` |
| Matchers.RegexpMatcher | validation/pattern.js:192-199 | a non-string gives `invalidType('string')`; a rule without a `regexp` throws exactly when given a string; otherwise it passes exactly when the resolved regexp accepts the string and gives `invalidRegexp` exactly when it does not |
| Matchers.BoundEqualPasses | validation/pattern.js:149-152 | a value equal to each truthy bound passes: both checks are inclusive |
| Matchers.ZeroLiteralBoundIsSkipped | validation/pattern.js:149-180 | a literal bound of 0 behaves as an absent bound, for every matcher and value |
| Matchers.SupplierResolvedAtMatchTime | validation/pattern.js:133-138 | a function-valued bound is called during the match, so one number can pass at one moment and fail `invalidMinValue` at another |
| Matchers.TypeCheckedBeforeBounds | validation/pattern.js:146-177 | each leaf matcher refuses a value of the wrong type with `invalidType`, whatever the bounds or regexp |
| Engine.LookupExact | validation/pattern.js:77 | finds the first declaration with exactly that name, and finds none exactly when no declaration has it |
| Engine.FirstRegex | validation/pattern.js:79-81 | finds the first regex rule whose key regexp accepts the key, and finds none exactly when no regex rule accepts it |
| Engine.RuleForKey | validation/pattern.js:76-82 | an exact declaration wins exactly when one exists; otherwise the first accepting regex rule in declaration order; no rule exactly when neither exists |
| Engine.MatcherForValue | validation/pattern.js:93-95 | a matcher exists only for a single rule object whose `type` is its registered name; an array rule, a missing `type` or an unregistered `type` has none |
| Engine.MatchValue | validation/pattern.js:85-89 | no matcher gives `false`; a failure is always a diagnostic about the value, never about a key |
| Engine.RunMatcher | validation/pattern.js:88 | the matcher found is applied to the rule and the value; whichever it is, a failure is a diagnostic about the value, never about a key |
| Engine.PatternMatcher | validation/pattern.js:186-190 | a non-object gives `invalidType('object')`; an object with no nested `pattern` throws; the only failures are `false` and `invalidType('object')` |
| Engine.StepOnlyAdds | validation/pattern.js:49-61 | one iteration of the loop (`Step`) only adds: the covered list grows by at most one name; the error map keeps its keys, and every error not under the entry's key; it gains at most the entry's key |
| Engine.WalkBookkeeping | validation/pattern.js:48-62 | the loop (`Walk`) covers at most one name per record entry, and puts errors only under the record's own keys |
| Engine.Evaluate | validation/pattern.js:41-71 | `test(rec)`: when it returns, `matched` holds exactly when the error map is empty |
| Engine.Matches | validation/pattern.js:35-37 | `matches` throws exactly when `test` does, and otherwise returns `test`'s `matched` |
| Engine.Difference | validation/pattern.js:63 | `_.difference` keeps exactly the required names that were not covered |
| Engine.AddRequired | validation/pattern.js:64-68 | every missing name gets `requiredNotMatched` under its own key; all other errors are kept |
| Engine.Finish | validation/pattern.js:63-69 | after the loop, the error keys are the loop's plus the uncovered required names, each marked `requiredNotMatched`; `matched` holds exactly when there is no error |
| Engine.Test | validation/pattern.js:41-71 | the loop of `test` computes exactly `Evaluate(p, record)` |
| Properties.CoverNameIsDeclared | validation/pattern.js:58-61 | in a constructed Pattern a key covers a declared name: the key itself for an exact rule, a regex declaration's text for a rule found by regex |
| Properties.TestThrowsIff | validation/pattern.js:48-62 | `test` throws exactly when checking some entry throws |
| Properties.TestReportsEveryKey | validation/pattern.js:48-56 | every key is visited and judged on its own: a key with no rule has exactly `invalidKey`; a failing value has its matcher's verdict; a passing value has no error; an unknown key does not stop the others |
| Properties.RequiredCoverage | validation/pattern.js:58-68 | a required declaration has `requiredNotMatched` exactly when no key covers it; a key covers even when its value failed, and a key resolved by regex covers the regex declaration |
| Properties.ErrorsAccountedFor | validation/pattern.js:48-68 | every error sits under a record key that was not accepted, or under an uncovered required declaration |
| Properties.MatchedIff | validation/pattern.js:69 | `matched` holds exactly when the error map is empty, which is exactly when every entry has a rule and passes and every required declaration is covered |
| Properties.AlternativesNeverMatch | validation/pattern.js:86-87 | an array of rules yields `false` for every value |
| Properties.UnregisteredTypeIsFalse | validation/pattern.js:86-87 | a `type` without a registered matcher, 'object' among them, yields `false` for every value |
| Properties.NestedMismatchIsFalse | validation/pattern.js:186-190 | for an object-like value, a 'pattern' rule passes exactly when the nested `test` matches, and is otherwise `false`; the nested errors are never hoisted |
| Properties.PatternRuleDispatch | validation/pattern.js:85-95 | a rule of type 'pattern' is checked by the nested-pattern matcher |
| Scenarios.SingleDeclaration | validation/pattern.js:41-71 | one optional plain declaration against the record holding only its key: the result is the rule's verdict alone |
| Scenarios.ZeroMinimumIgnored | validation/pattern.js:162-163 | `min: 0` is never checked: age -5 passes |
| Scenarios.SupplierBounds | tests/validation/pattern-test.js:145-158 | with `min: () => 2`, `max: () => 3`: 1 fails `invalidMinValue`, 2 and 3 pass, 4 fails `invalidMaxValue` |
| Scenarios.AlternationRefusesEverything | tests/validation/pattern-test.js:287-298 | the `[string, number]` rule refuses 'Pixel' and 10 with `false` |
| Scenarios.ObjectTypeRefusesEverything | tests/validation/pattern-test.js:132-143 | a rule of type 'object' refuses even `{}` with `false` |
| Scenarios.RegexpRuleWithoutRegexpThrows | validation/pattern.js:192-195 | a 'regexp' rule with no `regexp` throws on a string and gives `invalidType('string')` on a number |
| Scenarios.ExactDeclarationWins | tests/validation/pattern-test.js:273-285 | the exact 'age' rule governs the key 'age' ahead of a regex declaration; `'@regexp [age]'` yields no regex rule at all |
| Scenarios.MisspelledSigil | validation/pattern.js:19 | `'@regexp [age]'` is a plain declaration: no regex rule, and 'age' is judged by its number rule |
| Scenarios.FirstRegexGoverns | tests/validation/pattern-test.js:259-271 | with two accepting key regexps, the first declared one's string rule judges 'age' |
| Scenarios.RequiredRegexDeclaration | tests/validation/pattern-test.js:247-257 | any key accepted by a required regex declaration covers it; the empty record gets `requiredNotMatched` under the declaration's own text |
| Scenarios.NestedPattern | tests/validation/pattern-test.js:192-210 | the nested `{first, last}` pattern passes `{first: 'Pixel', last: 'Other'}` and refuses `{first: 10, …}` with just `false` under 'name' |
| Scenarios.ErrorsPerKey | tests/validation/pattern-test.js:302-319 | `{name: 'Pi', age: true}` gets `invalidMinLength` under 'name' and `invalidType('number')` under 'age', and nothing else |
| Scenarios.KeyDiagnostics | tests/validation/pattern-test.js:321-347 | an undeclared 'age' gets `invalidKey`; a missing required 'age' gets `requiredNotMatched` |
| Scenarios.UnknownKey | tests/validation/pattern-test.js:321-331 | `{name: 'Pixel', age: 10}` against a 'name'-only pattern gets exactly `invalidKey('age')` |
| Scenarios.MissingRequiredKey | tests/validation/pattern-test.js:333-347 | `{name: 'Pixel'}` with 'age' required gets exactly `requiredNotMatched('age')` |
| Scenarios.EventCompiled | events/event_dal.js:17-47 | the event pattern has its four declarations as exact rules, no regex rule, and only `profile_id` required (`requried` is not `required`) |
| Scenarios.PropertiesRefuse | events/event_dal.js:35-45 | the nested properties pattern refuses, with `false`, any one property whose key `.+` accepts, whatever its value: its `'@regex .+'` rule is an array |
| Scenarios.EventRequiresProfile | events/event_dal.js:17-25 | an event holding just `profile_id` passes; an event holding just `event_type` fails with `requiredNotMatched('profile_id')` |
| Scenarios.EventPropertiesRefused | events/event_dal.js:32-46 | an event with a `profile_id` and one property whose key `.+` accepts is refused, with just `false` under `properties` |

## Left out

- I/O modules: the database connection pool, the session and event data-access stubs, and the custom error constructors. They do no validation.
- Regular-expression engines: key regexps and `regexp` rules are abstract predicates, and `new RegExp` is the `compile` parameter. A `SyntaxError` from an invalid key regexp at construction is not modelled.
- Message rendering: only the key messages of `invalidKey` and `requiredNotMatched` are rendered. The other errors are kinds, because rendering an arbitrary JavaScript value in a template string is not modelled.
- Numbers and dates are integers: floating point, `NaN` and the `Date` internals are not modelled.
- Strings are sequences of characters. A JavaScript string length counts UTF-16 code units, which is not modelled.
- Bounds are numbers, Dates or functions. A bound of any other type (a string, say) and JavaScript's coercions in `>=`/`<=` are not modelled.
- Engine.MatcherForValue, Properties.UnregisteredTypeIsFalse: the prototype chain is not modelled. `Pattern.matchers[rule.type]` also finds inherited members. A `type` of 'toString' makes the matcher return the string "[object Undefined]", 'constructor' returns the rule object, and 'valueOf' or '__proto__' throw a TypeError. The model gives `false` for every unregistered type. Likewise `this.rules[key]` finds inherited members such as `toString` as rules.
- Construction.IsRequired: `required` is a boolean in the model. The source tests truthiness, so `required: 1` or `required: 'yes'` also make a declaration required; the model reads those as `true`.
- Determinism of `test`: value regexps are pure predicates, so the `lastIndex` that a regexp with the `g` or `y` flag advances on each `test` call is not modelled, and two tests of the same record by such a rule may disagree in the source. One `now` serves every function-valued bound and regexp called during a whole `test`, so a supplier that reads a clock sees one instant per test.
- Constructor side effects: the constructor writes `__hasRegexpKey`, `__regexpDef` and `__keyRegexp` into the caller's rule objects, so one rule object shared by two declarations, or by two Patterns, sees the later write. The model keeps the compiled regex data in the Pattern, which does not capture that aliasing.
- Key order: records and declaration maps are ordered entry lists. JavaScript's ordering of integer-like keys before other keys is not modelled.
- Type tests: `_.isObject`, `_.isDate` and the other underscore tests are modelled by the value's variant. Functions, boxed primitives and other host objects are not values of the model.
- Error-map key order: the errors are a map. The insertion order of the keys of `res.errors` is not modelled.
- Cyclic patterns: a nested Pattern is held by value, so a pattern that contains itself cannot be built.
- Properties.TestReportsEveryKey: requires distinct record keys, as every JavaScript object has. It also requires every required name to be declared, as every constructed Pattern satisfies (`Construction.CompiledIsWellFormed`).
