/**
 * The matcher engine of `Pattern`: rule resolution (`ruleForKey`), matcher
 * dispatch (`matcherForValue`, `matchValue`, the nested 'pattern' matcher)
 * and `test` / `matches`. `Evaluate` is the value `test` computes; the method
 * `Test` is its loop, proved to compute exactly that value.
 */
module Engine {
  import opened Wrappers
  import opened JsValues
  import opened Rules
  import opened Diagnostics
  import opened Matchers

  // ---------------------------------------------------------------------
  // Rule resolution

  /** Where a key's rule was found: the declaration at index i, or regex rule j. */
  datatype Loc = Exact(i: nat) | ByRegex(j: nat)

  /** `this.rules[key]`: the index of the declaration named `key`, if any. */
  function LookupExact(rules: seq<(string, RuleSpec)>, key: string): (r: Option<nat>)
    ensures r.Some? ==> r.value < |rules| && rules[r.value].0 == key
    ensures r.Some? ==> forall i :: 0 <= i < r.value ==> rules[i].0 != key
    ensures r.None? <==> forall i :: 0 <= i < |rules| ==> rules[i].0 != key
  {
    if rules == [] then None
    else if rules[0].0 == key then Some(0)
    else match LookupExact(rules[1..], key)
      case None => None
      case Some(i) => Some(i + 1)
  }

  /** `_.find(this.regexRules, …)`: the first regex rule whose key regexp accepts `key`. */
  function FirstRegex(regexRules: seq<RegexRule>, key: string): (r: Option<nat>)
    ensures r.Some? ==> r.value < |regexRules| && regexRules[r.value].keyRegexp(key)
    ensures r.Some? ==> forall j :: 0 <= j < r.value ==> !regexRules[j].keyRegexp(key)
    ensures r.None? <==> forall j :: 0 <= j < |regexRules| ==> !regexRules[j].keyRegexp(key)
  {
    if regexRules == [] then None
    else if regexRules[0].keyRegexp(key) then Some(0)
    else match FirstRegex(regexRules[1..], key)
      case None => None
      case Some(j) => Some(j + 1)
  }

  /** Some declaration is named exactly `key`. */
  ghost predicate HasExact(p: Pattern, key: string)
  {
    exists i :: 0 <= i < |p.rules| && p.rules[i].0 == key
  }

  /**
   * `ruleForKey`: an exact declaration wins whenever there is one; otherwise
   * the first regex rule, in declaration order, whose key regexp accepts the
   * key; otherwise there is no rule.
   */
  function RuleForKey(p: Pattern, key: string): (r: Option<Loc>)
    ensures r.Some? && r.value.Exact? <==> HasExact(p, key)
    ensures r.Some? && r.value.Exact? ==>
      && r.value.i < |p.rules| && p.rules[r.value.i].0 == key
      && forall i :: 0 <= i < r.value.i ==> p.rules[i].0 != key
    ensures r.Some? && r.value.ByRegex? ==>
      && r.value.j < |p.regexRules|
      && p.regexRules[r.value.j].keyRegexp(key)
      && forall j :: 0 <= j < r.value.j ==> !p.regexRules[j].keyRegexp(key)
    ensures r.None? <==>
      !HasExact(p, key) && forall j :: 0 <= j < |p.regexRules| ==> !p.regexRules[j].keyRegexp(key)
  {
    match LookupExact(p.rules, key)
    case Some(i) => Some(Exact(i))
    case None =>
      match FirstRegex(p.regexRules, key)
      case Some(j) => Some(ByRegex(j))
      case None => None
  }

  /** A location `RuleForKey` can return for this pattern. */
  predicate ValidLoc(p: Pattern, loc: Loc)
  {
    match loc
    case Exact(i) => i < |p.rules|
    case ByRegex(j) => j < |p.regexRules|
  }

  /** The rule found at a location. */
  function SpecAt(p: Pattern, loc: Loc): RuleSpec
    requires ValidLoc(p, loc)
  {
    match loc
    case Exact(i) => p.rules[i].1
    case ByRegex(j) => p.regexRules[j].spec
  }

  /**
   * What a key resolved at `loc` covers for required-rule bookkeeping: the
   * declaration string of a regex rule, the key itself for an exact rule
   * (an exact hit on a regex declaration covers that declaration, which is
   * the same string).
   */
  function CoverName(p: Pattern, key: string, loc: Loc): string
    requires ValidLoc(p, loc)
  {
    match loc
    case Exact(_) => key
    case ByRegex(j) => p.regexRules[j].decl
  }

  // ---------------------------------------------------------------------
  // Matcher dispatch

  /** The entries of `Pattern.matchers`. */
  datatype MatcherKind = StringKind | NumberKind | BooleanKind | DateKind | PatternKind | RegexpKind
  {
    /** The `type` name under which the matcher is registered. */
    function Name(): string
    {
      match this
      case StringKind => "string"
      case NumberKind => "number"
      case BooleanKind => "boolean"
      case DateKind => "date"
      case PatternKind => "pattern"
      case RegexpKind => "regexp"
    }
  }

  /**
   * `matcherForValue`: `Pattern.matchers[rule.type]`. There is a matcher
   * exactly when the rule is one rule object whose `type` names a registered
   * matcher; an array of rules has no `type` and so no matcher.
   */
  function MatcherForValue(spec: RuleSpec): (r: Option<MatcherKind>)
    ensures r.Some? ==> spec.Single? && spec.config.ty == Some(r.value.Name())
    ensures r.None? ==>
      spec.Alternatives? || spec.config.ty.None? || forall k: MatcherKind :: k.Name() != spec.config.ty.value
  {
    if spec.Alternatives? || spec.config.ty.None? then None
    else match spec.config.ty.value
      case "string" => Some(StringKind)
      case "number" => Some(NumberKind)
      case "boolean" => Some(BooleanKind)
      case "date" => Some(DateKind)
      case "pattern" => Some(PatternKind)
      case "regexp" => Some(RegexpKind)
      case _ => None
  }

  // ---------------------------------------------------------------------
  // What `test` computes

  /** The result object of `test`. */
  datatype TestResult = TestResult(matched: bool, errors: map<string, Diagnostic>)

  /** The loop state of `test`: `res.errors` and `requiredMatched`. */
  datatype WalkState = WalkState(errors: map<string, Diagnostic>, covered: seq<string>)

  /**
   * `matchValue`: no matcher gives `false`; otherwise the matcher's verdict.
   * A matcher never reports a key diagnostic.
   */
  function MatchValue(spec: RuleSpec, v: Value, now: int): (r: Completion<Outcome>)
    ensures MatcherForValue(spec).None? ==> r == Returned(Fail(FalseResult))
    ensures r.Returned? && r.value.Fail? ==> IsValueDiagnostic(r.value.error)
    decreases spec, 2, 0
  {
    match MatcherForValue(spec)
    case None => Returned(Fail(FalseResult))
    case Some(kind) => RunMatcher(kind, spec.config, v, now)
  }

  /** The matcher registered under `kind`, applied to the rule object c and the value. */
  function RunMatcher(kind: MatcherKind, c: Config, v: Value, now: int): (r: Completion<Outcome>)
    ensures r.Returned? && r.value.Fail? ==> IsValueDiagnostic(r.value.error)
    decreases c, 1, 0
  {
    match kind
    case StringKind => Returned(StringMatcher(c, v, now))
    case NumberKind => Returned(NumberMatcher(c, v, now))
    case BooleanKind => Returned(BooleanMatcher(c, v))
    case DateKind => Returned(DateMatcher(c, v, now))
    case PatternKind => PatternMatcher(c, v, now)
    case RegexpKind => RegexpMatcher(c, v, now)
  }

  /**
   * `Pattern.matchers.pattern`: an object-like value is handed to the nested
   * pattern's `matches`, whose boolean is the verdict; the nested errors are
   * never passed up, so a nested mismatch is just `false`.
   */
  function PatternMatcher(c: Config, v: Value, now: int): (r: Completion<Outcome>)
    ensures !IsObjectLike(v) ==> r == Returned(Fail(InvalidType("object")))
    ensures r.Returned? && r.value.Fail? ==> r.value.error in {FalseResult, InvalidType("object")}
    ensures IsObjectLike(v) && c.pattern.None? ==> r.Thrown?
    decreases c, 0, 0
  {
    if !IsObjectLike(v) then Returned(Fail(InvalidType("object")))
    else if c.pattern.None? then Thrown
    else
      match Matches(c.pattern.value, Entries(v), now)
      case Thrown => Thrown
      case Returned(b) => Returned(if b then Pass else Fail(FalseResult))
  }

  /** One iteration of the loop of `test`, for the entry (key, value). */
  function Step(p: Pattern, st: WalkState, e: (string, Value), now: int): Completion<WalkState>
    decreases p, 2, 0
  {
    var key := e.0;
    match RuleForKey(p, key)
    case None => Returned(st.(errors := st.errors[key := InvalidKey(key)]))
    case Some(loc) =>
      var result := match loc
        case Exact(i) => MatchValue(p.rules[i].1, e.1, now)
        case ByRegex(j) => MatchValue(p.regexRules[j].spec, e.1, now);
      match result
      case Thrown => Thrown
      case Returned(o) =>
        Returned(WalkState(
          if o.Fail? then st.errors[key := o.error] else st.errors,
          st.covered + [CoverName(p, key, loc)]))
  }

  /** The loop of `test` run over the entries of `rec`, in order. */
  function Walk(p: Pattern, rec: Record, now: int): Completion<WalkState>
    decreases p, 3, |rec|
  {
    if rec == [] then Returned(WalkState(map[], []))
    else
      match Walk(p, rec[..|rec| - 1], now)
      case Thrown => Thrown
      case Returned(st) => Step(p, st, rec[|rec| - 1], now)
  }

  /** `test(rec)`. */
  function Evaluate(p: Pattern, rec: Record, now: int): (r: Completion<TestResult>)
    ensures r.Returned? ==> (r.value.matched <==> r.value.errors == map[])
    decreases p, 4, 0
  {
    match Walk(p, rec, now)
    case Thrown => Thrown
    case Returned(st) => Returned(Finish(p, st))
  }

  /**
   * One iteration of the loop only adds: the covered list grows by at most
   * one name, and the error map keeps every key it had, with its error
   * unless the key is the entry's own, and gains at most the entry's key.
   */
  lemma StepOnlyAdds(p: Pattern, st: WalkState, e: (string, Value), now: int)
    requires Step(p, st, e, now).Returned?
    ensures var after := Step(p, st, e, now).value;
      && st.covered <= after.covered && |after.covered| <= |st.covered| + 1
      && st.errors.Keys <= after.errors.Keys <= st.errors.Keys + {e.0}
      && forall k :: k in st.errors && k != e.0 ==> after.errors[k] == st.errors[k]
  {
  }

  /** The loop covers at most one name per entry of the record, and only ever puts record keys in the error map. */
  lemma {:induction false} WalkBookkeeping(p: Pattern, rec: Record, now: int)
    requires Walk(p, rec, now).Returned?
    ensures |Walk(p, rec, now).value.covered| <= |rec|
    ensures forall k :: k in Walk(p, rec, now).value.errors ==> exists i :: 0 <= i < |rec| && rec[i].0 == k
  {
    if rec != [] {
      var n := |rec| - 1;
      var init := rec[..n];
      assert Walk(p, init, now).Returned?;
      var st := Walk(p, init, now).value;
      WalkBookkeeping(p, init, now);
      StepOnlyAdds(p, st, rec[n], now);
      forall k | k in Walk(p, rec, now).value.errors ensures exists i :: 0 <= i < |rec| && rec[i].0 == k {
        if k != rec[n].0 {
          var i :| 0 <= i < |init| && init[i].0 == k;
          assert rec[i] == init[i];
        }
      }
    }
  }

  /** `matches(rec)`: the `matched` flag of `test(rec)`. */
  function Matches(p: Pattern, rec: Record, now: int): (r: Completion<bool>)
    ensures r.Thrown? <==> Evaluate(p, rec, now).Thrown?
    ensures r.Returned? ==> r.value == Evaluate(p, rec, now).value.matched
    decreases p, 5, 0
  {
    match Evaluate(p, rec, now)
    case Thrown => Thrown
    case Returned(res) => Returned(res.matched)
  }

  // ---------------------------------------------------------------------
  // After the loop: required declarations

  /** `_.difference(xs, ys)`: the elements of `xs` that are not in `ys`, in order. */
  function Difference(xs: seq<string>, ys: seq<string>): (r: seq<string>)
    ensures forall x :: x in r <==> x in xs && x !in ys
  {
    if xs == [] then []
    else if xs[0] in ys then Difference(xs[1..], ys)
    else [xs[0]] + Difference(xs[1..], ys)
  }

  /** `_.each(diff, …)`: a `requiredNotMatched` error under each name in `names`, in order. */
  function AddRequired(errors: map<string, Diagnostic>, names: seq<string>): (r: map<string, Diagnostic>)
    ensures r.Keys == errors.Keys + set n | n in names
    ensures forall n :: n in names ==> r[n] == RequiredNotMatched(n)
    ensures forall k :: k in errors && k !in names ==> r[k] == errors[k]
  {
    if names == [] then errors
    else AddRequired(errors, names[..|names| - 1])[names[|names| - 1] := RequiredNotMatched(names[|names| - 1])]
  }

  /** The names `Difference` leaves, as a set. */
  lemma MissingNames(required: seq<string>, covered: seq<string>)
    ensures (set n | n in Difference(required, covered)) == (set n | n in required && n !in covered)
  {
  }

  /** `_.isEmpty` on a map: it has no key exactly when it is the empty map. */
  lemma EmptyIffNoKeys(errors: map<string, Diagnostic>)
    ensures |errors| == 0 <==> errors == map[]
  {
    if |errors| == 0 {
      assert errors.Keys == {};
    }
  }

  /**
   * The end of `test`: every required declaration that was never covered
   * gets a `requiredNotMatched` error, and `matched` holds exactly when
   * there is no error at all.
   */
  function Finish(p: Pattern, st: WalkState): (r: TestResult)
    ensures r.matched <==> r.errors == map[]
    ensures r.errors.Keys == st.errors.Keys + set n | n in p.requiredRules && n !in st.covered
    ensures forall n :: n in p.requiredRules && n !in st.covered ==> r.errors[n] == RequiredNotMatched(n)
    ensures forall k :: k in st.errors && !(k in p.requiredRules && k !in st.covered) ==> r.errors[k] == st.errors[k]
  {
    var missing := Difference(p.requiredRules, st.covered);
    var errors := AddRequired(st.errors, missing);
    MissingNames(p.requiredRules, st.covered);
    EmptyIffNoKeys(errors);
    TestResult(|errors| == 0, errors)
  }

  // ---------------------------------------------------------------------
  // The loop itself

  /** A TypeError raised while checking one entry ends the whole walk. */
  lemma {:induction false} ThrownPersists(p: Pattern, rec: Record, k: nat, now: int)
    requires k <= |rec|
    requires Walk(p, rec[..k], now).Thrown?
    ensures Walk(p, rec, now).Thrown?
    decreases |rec| - k
  {
    if k < |rec| {
      assert rec[..k + 1][..k] == rec[..k];
      ThrownPersists(p, rec, k + 1, now);
    } else {
      assert rec[..k] == rec;
    }
  }

  /**
   * `test(record)`: for each entry in order, resolve the key; no rule gives
   * `invalidKey`; otherwise the value is checked, any verdict but `true` is
   * stored under the key, and the key (or the regex declaration) is covered.
   * Then every uncovered required declaration gets `requiredNotMatched`.
   */
  method Test(p: Pattern, record: Record, now: int) returns (r: Completion<TestResult>)
    ensures r == Evaluate(p, record, now)
  {
    var errors: map<string, Diagnostic> := map[];
    var covered: seq<string> := [];
    var i := 0;
    while i < |record|
      invariant 0 <= i <= |record|
      invariant Walk(p, record[..i], now) == Returned(WalkState(errors, covered))
    {
      assert record[..i + 1][..i] == record[..i];
      var key := record[i].0;
      var rule := RuleForKey(p, key);
      if rule.None? {
        errors := errors[key := InvalidKey(key)];
        i := i + 1;
        continue;
      }
      var result := MatchValue(SpecAt(p, rule.value), record[i].1, now);
      if result.Thrown? {
        ThrownPersists(p, record, i + 1, now);
        return Thrown;
      }
      if result.value.Fail? {
        errors := errors[key := result.value.error];
      }
      covered := covered + [CoverName(p, key, rule.value)];
      i := i + 1;
    }
    assert record[..i] == record;
    ghost var walked := errors;
    var diff := Difference(p.requiredRules, covered);
    var j := 0;
    while j < |diff|
      invariant 0 <= j <= |diff|
      invariant errors == AddRequired(walked, diff[..j])
    {
      assert diff[..j + 1][..j] == diff[..j];
      errors := errors[diff[j] := RequiredNotMatched(diff[j])];
      j := j + 1;
    }
    assert diff[..j] == diff;
    r := Returned(TestResult(|errors| == 0, errors));
  }
}
