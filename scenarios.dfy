/**
 * Worked examples: the Patterns declared in tests/validation/pattern-test.js
 * and the event Pattern of events/event_dal.js, with what the code does on
 * the records those tests use. Key regexps are left abstract: each example
 * holds for every regular-expression engine that accepts the keys named in
 * its requires clause.
 */
module Scenarios {
  import opened Wrappers
  import opened JsValues
  import opened Rules
  import opened Diagnostics
  import opened Engine
  import opened Construction
  import opened Properties

  // ---------------------------------------------------------------------
  // Evaluating small literal Patterns and records

  /** A name that does not start with '@' is a plain declaration. */
  lemma PlainName(name: string)
    requires |name| > 0 && name[0] != '@'
    ensures !IsRegexDecl(name)
  {
    if |RegexSigil| <= |name| {
      assert name[..|RegexSigil|][0] != RegexSigil[0];
    }
  }

  /** The constructor handles one more declaration. */
  lemma CompileSnoc(decls: seq<(string, RuleSpec)>, d: (string, RuleSpec), compile: string -> Regexp)
    ensures RegexRulesOf(decls + [d], compile) ==
      RegexRulesOf(decls, compile) + (if IsRegexDecl(d.0) then [CompileDecl(d, compile)] else [])
    ensures RequiredNamesOf(decls + [d]) == RequiredNamesOf(decls) + (if IsRequired(d.1) then [d.0] else [])
  {
    assert (decls + [d])[..|decls|] == decls;
  }

  /** What the constructor's loop adds for declaration d to `regexRules`. */
  function RegexPart(d: (string, RuleSpec), compile: string -> Regexp): seq<RegexRule>
  {
    if IsRegexDecl(d.0) then [CompileDecl(d, compile)] else []
  }

  /** What the constructor's loop adds for declaration d to `requiredRules`. */
  function RequiredPart(d: (string, RuleSpec)): seq<string>
  {
    if IsRequired(d.1) then [d.0] else []
  }

  /** The Pattern built from one declaration. */
  lemma CompileOne(d: (string, RuleSpec), compile: string -> Regexp)
    ensures Compile([d], compile) == Pattern([d], RegexPart(d, compile), RequiredPart(d))
  {
    var none: seq<(string, RuleSpec)> := [];
    CompileSnoc(none, d, compile);
    assert none + [d] == [d];
  }

  /** The Pattern built from two declarations. */
  lemma CompileTwo(d1: (string, RuleSpec), d2: (string, RuleSpec), compile: string -> Regexp)
    ensures Compile([d1, d2], compile) ==
      Pattern([d1, d2], RegexPart(d1, compile) + RegexPart(d2, compile), RequiredPart(d1) + RequiredPart(d2))
  {
    CompileSnoc([d1], d2, compile);
    assert [d1] + [d2] == [d1, d2];
    CompileOne(d1, compile);
  }

  /** A one-entry record is one step of the walk. */
  lemma WalkOne(p: Pattern, e: (string, Value), now: int)
    ensures Walk(p, [e], now) == Step(p, WalkState(map[], []), e, now)
  {
    assert [e][..0] == [];
  }

  /** A two-entry record is two steps of the walk. */
  lemma WalkTwo(p: Pattern, e1: (string, Value), e2: (string, Value), now: int)
    ensures Walk(p, [e1, e2], now) == match Step(p, WalkState(map[], []), e1, now)
      case Thrown => Thrown
      case Returned(st) => Step(p, st, e2, now)
  {
    assert [e1, e2][..1] == [e1];
    WalkOne(p, e1, now);
  }

  /** The entry's key has an exact declaration at index i, the first with that name. */
  lemma JudgeExact(p: Pattern, i: nat, e: (string, Value), now: int)
    requires i < |p.rules| && p.rules[i].0 == e.0
    requires forall i' :: 0 <= i' < i ==> p.rules[i'].0 != e.0
    ensures RuleForKey(p, e.0) == Some(Exact(i))
    ensures Judge(p, e, now) == Some(MatchValue(p.rules[i].1, e.1, now))
  {
  }

  /** The entry's key has no exact declaration and regex rule j is the first to accept it. */
  lemma JudgeRegex(p: Pattern, j: nat, e: (string, Value), now: int)
    requires forall i :: 0 <= i < |p.rules| ==> p.rules[i].0 != e.0
    requires j < |p.regexRules| && p.regexRules[j].keyRegexp(e.0)
    requires forall j' :: 0 <= j' < j ==> !p.regexRules[j'].keyRegexp(e.0)
    ensures RuleForKey(p, e.0) == Some(ByRegex(j))
    ensures Judge(p, e, now) == Some(MatchValue(p.regexRules[j].spec, e.1, now))
  {
  }

  /** The entry's key has no rule at all. */
  lemma JudgeNone(p: Pattern, e: (string, Value), now: int)
    requires forall i :: 0 <= i < |p.rules| ==> p.rules[i].0 != e.0
    requires forall j :: 0 <= j < |p.regexRules| ==> !p.regexRules[j].keyRegexp(e.0)
    ensures RuleForKey(p, e.0) == None
    ensures Judge(p, e, now) == None
  {
  }

  /** One step on an entry whose key has the exact declaration i, the first with that name. */
  lemma StepExact(p: Pattern, st: WalkState, i: nat, e: (string, Value), o: Outcome, now: int)
    requires i < |p.rules| && p.rules[i].0 == e.0
    requires forall i' :: 0 <= i' < i ==> p.rules[i'].0 != e.0
    requires MatchValue(p.rules[i].1, e.1, now) == Returned(o)
    ensures Step(p, st, e, now) == Returned(WalkState(if o.Fail? then st.errors[e.0 := o.error] else st.errors, st.covered + [e.0]))
  {
    JudgeExact(p, i, e, now);
    StepByJudge(p, st, e, now);
  }

  /** One step on an entry whose key regex rule j is the first to accept, with no exact declaration. */
  lemma StepRegex(p: Pattern, st: WalkState, j: nat, e: (string, Value), o: Outcome, now: int)
    requires forall i :: 0 <= i < |p.rules| ==> p.rules[i].0 != e.0
    requires j < |p.regexRules| && p.regexRules[j].keyRegexp(e.0)
    requires forall j' :: 0 <= j' < j ==> !p.regexRules[j'].keyRegexp(e.0)
    requires MatchValue(p.regexRules[j].spec, e.1, now) == Returned(o)
    ensures Step(p, st, e, now) == Returned(WalkState(if o.Fail? then st.errors[e.0 := o.error] else st.errors, st.covered + [p.regexRules[j].decl]))
  {
    JudgeRegex(p, j, e, now);
    StepByJudge(p, st, e, now);
  }

  /** Two entries, each with its own exact declaration, walked in order. */
  lemma WalkTwoExact(p: Pattern, i1: nat, e1: (string, Value), o1: Outcome, i2: nat, e2: (string, Value), o2: Outcome, now: int)
    requires i1 < |p.rules| && p.rules[i1].0 == e1.0 && forall i' :: 0 <= i' < i1 ==> p.rules[i'].0 != e1.0
    requires i2 < |p.rules| && p.rules[i2].0 == e2.0 && forall i' :: 0 <= i' < i2 ==> p.rules[i'].0 != e2.0
    requires MatchValue(p.rules[i1].1, e1.1, now) == Returned(o1)
    requires MatchValue(p.rules[i2].1, e2.1, now) == Returned(o2)
    ensures var after1 := if o1.Fail? then map[e1.0 := o1.error] else map[];
      Walk(p, [e1, e2], now) == Returned(WalkState(if o2.Fail? then after1[e2.0 := o2.error] else after1, [e1.0, e2.0]))
  {
    WalkTwo(p, e1, e2, now);
    var none: seq<string> := [];
    assert none + [e1.0] == [e1.0] && [e1.0] + [e2.0] == [e1.0, e2.0];
    StepExact(p, WalkState(map[], none), i1, e1, o1, now);
    var after1 := if o1.Fail? then map[e1.0 := o1.error] else map[];
    StepExact(p, WalkState(after1, [e1.0]), i2, e2, o2, now);
  }

  /** A one-entry record tested against a pattern with nothing required, its key resolved by regex rule j. */
  lemma EvaluateOneRegex(p: Pattern, j: nat, e: (string, Value), o: Outcome, now: int)
    requires p.requiredRules == []
    requires forall i :: 0 <= i < |p.rules| ==> p.rules[i].0 != e.0
    requires j < |p.regexRules| && p.regexRules[j].keyRegexp(e.0)
    requires forall j' :: 0 <= j' < j ==> !p.regexRules[j'].keyRegexp(e.0)
    requires MatchValue(p.regexRules[j].spec, e.1, now) == Returned(o)
    ensures Evaluate(p, [e], now) == Returned(TestResult(o.Pass?, if o.Fail? then map[e.0 := o.error] else map[]))
  {
    WalkOne(p, e, now);
    StepRegex(p, WalkState(map[], []), j, e, o, now);
    FinishNoneRequired(p, Walk(p, [e], now).value);
  }

  /** A one-entry record tested against a pattern with nothing required, its key declared exactly at i. */
  lemma EvaluateOneExact(p: Pattern, i: nat, e: (string, Value), o: Outcome, now: int)
    requires p.requiredRules == []
    requires i < |p.rules| && p.rules[i].0 == e.0
    requires forall i' :: 0 <= i' < i ==> p.rules[i'].0 != e.0
    requires MatchValue(p.rules[i].1, e.1, now) == Returned(o)
    ensures Evaluate(p, [e], now) == Returned(TestResult(o.Pass?, if o.Fail? then map[e.0 := o.error] else map[]))
  {
    WalkOne(p, e, now);
    StepExact(p, WalkState(map[], []), i, e, o, now);
    FinishNoneRequired(p, Walk(p, [e], now).value);
  }

  /** One step on an entry whose key has no rule. */
  lemma StepNone(p: Pattern, st: WalkState, e: (string, Value), now: int)
    requires forall i :: 0 <= i < |p.rules| ==> p.rules[i].0 != e.0
    requires forall j :: 0 <= j < |p.regexRules| ==> !p.regexRules[j].keyRegexp(e.0)
    ensures Step(p, st, e, now) == Returned(st.(errors := st.errors[e.0 := InvalidKey(e.0)]))
  {
    JudgeNone(p, e, now);
    StepByJudge(p, st, e, now);
  }

  /** The end of a test when nothing is required. */
  lemma FinishNoneRequired(p: Pattern, st: WalkState)
    requires p.requiredRules == []
    ensures Finish(p, st) == TestResult(st.errors == map[], st.errors)
  {
  }

  /** The end of a test when exactly one name is required. */
  lemma FinishOneRequired(p: Pattern, st: WalkState, n: string)
    requires p.requiredRules == [n]
    ensures n in st.covered ==> Finish(p, st) == TestResult(st.errors == map[], st.errors)
    ensures n !in st.covered ==> Finish(p, st) == TestResult(false, st.errors[n := RequiredNotMatched(n)])
  {
    var missing := Difference([n], st.covered);
    assert [n][1..] == [];
    assert Difference([], st.covered) == [];
    if n in st.covered {
      assert missing == [];
    } else {
      assert missing == [n] + [];
    }
    if n !in st.covered {
      assert missing[..0] == [];
      assert AddRequired(st.errors, missing) == st.errors[n := RequiredNotMatched(n)];
    }
  }

  function Rule(ty: string): RuleSpec
  {
    Single(Typed(ty))
  }

  /**
   * A Pattern with one plain, optional declaration, tested on the record
   * holding only that key: the result is exactly the verdict of the rule.
   */
  lemma SingleDeclaration(name: string, spec: RuleSpec, v: Value, compile: string -> Regexp, now: int)
    requires !IsRegexDecl(name) && !IsRequired(spec)
    ensures Evaluate(Compile([(name, spec)], compile), [(name, v)], now) == match MatchValue(spec, v, now)
      case Thrown => Thrown
      case Returned(Pass) => Returned(TestResult(true, map[]))
      case Returned(Fail(d)) => Returned(TestResult(false, map[name := d]))
  {
    CompileOne((name, spec), compile);
    var p := Compile([(name, spec)], compile);
    assert p.regexRules == [] && p.requiredRules == [];
    var e := (name, v);
    WalkOne(p, e, now);
    JudgeExact(p, 0, e, now);
    StepByJudge(p, WalkState(map[], []), e, now);
    if Walk(p, [e], now).Returned? {
      FinishNoneRequired(p, Walk(p, [e], now).value);
    }
  }

  // ---------------------------------------------------------------------
  // The examples

  /** `min: 0` is falsy and never checked: a negative age passes. */
  lemma ZeroMinimumIgnored(compile: string -> Regexp, now: int)
    ensures var p := Compile([("age", Single(Typed("number").(min := Literal(0))))], compile);
      Evaluate(p, [("age", Num(-5))], now) == Returned(TestResult(true, map[]))
  {
    var spec := Single(Typed("number").(min := Literal(0)));
    assert MatchValue(spec, Num(-5), now) == Returned(Pass);
    SingleDeclaration("age", spec, Num(-5), compile, now);
  }

  /** Function-valued bounds `min: () => 2, max: () => 3`, both inclusive. */
  lemma SupplierBounds(compile: string -> Regexp, now: int)
    ensures var spec := Single(Typed("number").(min := Supplier(_ => 2), max := Supplier(_ => 3)));
      var p := Compile([("age", spec)], compile);
      && Evaluate(p, [("age", Num(1))], now) == Returned(TestResult(false, map["age" := InvalidMinValue]))
      && Evaluate(p, [("age", Num(2))], now) == Returned(TestResult(true, map[]))
      && Evaluate(p, [("age", Num(3))], now) == Returned(TestResult(true, map[]))
      && Evaluate(p, [("age", Num(4))], now) == Returned(TestResult(false, map["age" := InvalidMaxValue]))
  {
    var spec := Single(Typed("number").(min := Supplier(_ => 2), max := Supplier(_ => 3)));
    assert MatcherForValue(spec) == Some(NumberKind);
    assert MatchValue(spec, Num(1), now) == Returned(Fail(InvalidMinValue));
    assert MatchValue(spec, Num(2), now) == Returned(Pass);
    assert MatchValue(spec, Num(3), now) == Returned(Pass);
    assert MatchValue(spec, Num(4), now) == Returned(Fail(InvalidMaxValue));
    SingleDeclaration("age", spec, Num(1), compile, now);
    SingleDeclaration("age", spec, Num(2), compile, now);
    SingleDeclaration("age", spec, Num(3), compile, now);
    SingleDeclaration("age", spec, Num(4), compile, now);
  }

  /**
   * An array of rules is refused by the code whatever the value: the
   * alternation the tests expect does not happen.
   */
  lemma AlternationRefusesEverything(compile: string -> Regexp, now: int)
    ensures var p := Compile([("value", Alternatives([Typed("string"), Typed("number")]))], compile);
      && Evaluate(p, [("value", Str("Pixel"))], now) == Returned(TestResult(false, map["value" := FalseResult]))
      && Evaluate(p, [("value", Num(10))], now) == Returned(TestResult(false, map["value" := FalseResult]))
  {
    var spec := Alternatives([Typed("string"), Typed("number")]);
    AlternativesNeverMatch(spec.configs, Str("Pixel"), now);
    AlternativesNeverMatch(spec.configs, Num(10), now);
    SingleDeclaration("value", spec, Str("Pixel"), compile, now);
    SingleDeclaration("value", spec, Num(10), compile, now);
  }

  /** There is no 'object' matcher, so a rule of that type refuses even an empty object. */
  lemma ObjectTypeRefusesEverything(compile: string -> Regexp, now: int)
    ensures var p := Compile([("properties", Rule("object"))], compile);
      Evaluate(p, [("properties", Obj([]))], now) == Returned(TestResult(false, map["properties" := FalseResult]))
  {
    UnregisteredTypeIsFalse(Typed("object"), Obj([]), now);
    assert "properties"[0] != RegexSigil[0];
    SingleDeclaration("properties", Rule("object"), Obj([]), compile, now);
  }

  /** A 'regexp' rule that has no `regexp` throws from `test` once it meets a string, and only then. */
  lemma RegexpRuleWithoutRegexpThrows(compile: string -> Regexp, now: int)
    ensures var p := Compile([("name", Rule("regexp"))], compile);
      && Evaluate(p, [("name", Str("a"))], now) == Thrown
      && Evaluate(p, [("name", Num(1))], now) == Returned(TestResult(false, map["name" := InvalidType("string")]))
  {
    var spec := Rule("regexp");
    assert MatcherForValue(spec) == Some(RegexpKind);
    assert MatchValue(spec, Str("a"), now) == Thrown;
    assert MatchValue(spec, Num(1), now) == Returned(Fail(InvalidType("string")));
    OneRegexpRule(compile, Str("a"), now);
    OneRegexpRule(compile, Num(1), now);
  }

  /** The Pattern of `RegexpRuleWithoutRegexpThrows` on the one-entry record holding v. */
  lemma OneRegexpRule(compile: string -> Regexp, v: Value, now: int)
    ensures Evaluate(Compile([("name", Rule("regexp"))], compile), [("name", v)], now) == match MatchValue(Rule("regexp"), v, now)
      case Thrown => Thrown
      case Returned(Pass) => Returned(TestResult(true, map[]))
      case Returned(Fail(d)) => Returned(TestResult(false, map["name" := d]))
  {
    SingleDeclaration("name", Rule("regexp"), v, compile, now);
  }

  /** A declaration named exactly "age", declared after another one, governs the key "age". */
  lemma ExactAgeRule(d1: (string, RuleSpec), compile: string -> Regexp, now: int)
    requires d1.0 != "age" && !IsRequired(d1.1)
    ensures var p := Compile([d1, ("age", Rule("number"))], compile);
      && Evaluate(p, [("age", Num(10))], now) == Returned(TestResult(true, map[]))
      && Evaluate(p, [("age", Str("Qux"))], now) == Returned(TestResult(false, map["age" := InvalidType("number")]))
  {
    var d2 := ("age", Rule("number"));
    var e, e' := ("age", Num(10)), ("age", Str("Qux"));
    assert MatchValue(Rule("number"), e.1, now) == Returned(Pass);
    assert MatchValue(Rule("number"), e'.1, now) == Returned(Fail(InvalidType("number")));
    CompileTwo(d1, d2, compile);
    var p := Compile([d1, d2], compile);
    assert p.requiredRules == [];
    EvaluateOneExact(p, 1, e, Pass, now);
    EvaluateOneExact(p, 1, e', Fail(InvalidType("number")), now);
  }

  /**
   * An exact declaration wins over a regex one, and `'@regexp [age]'` does not
   * start with the sigil, so it is itself an exact (and unused) declaration.
   */
  lemma ExactDeclarationWins(compile: string -> Regexp, now: int)
    ensures var p := Compile([("@regex [age]", Rule("string")), ("age", Rule("number"))], compile);
      && Evaluate(p, [("age", Num(10))], now) == Returned(TestResult(true, map[]))
      && Evaluate(p, [("age", Str("Qux"))], now) == Returned(TestResult(false, map["age" := InvalidType("number")]))
    ensures var p := Compile([("@regexp [age]", Rule("string")), ("age", Rule("number"))], compile);
      && p.regexRules == []
      && Evaluate(p, [("age", Num(10))], now) == Returned(TestResult(true, map[]))
      && Evaluate(p, [("age", Str("Qux"))], now) == Returned(TestResult(false, map["age" := InvalidType("number")]))
  {
    ExactAgeRule(("@regex [age]", Rule("string")), compile, now);
    MisspelledSigil(compile, now);
  }

  /** The second half of `ExactDeclarationWins`: `'@regexp [age]'` is a plain declaration. */
  lemma MisspelledSigil(compile: string -> Regexp, now: int)
    ensures var p := Compile([("@regexp [age]", Rule("string")), ("age", Rule("number"))], compile);
      && p.regexRules == []
      && Evaluate(p, [("age", Num(10))], now) == Returned(TestResult(true, map[]))
      && Evaluate(p, [("age", Str("Qux"))], now) == Returned(TestResult(false, map["age" := InvalidType("number")]))
  {
    var d1, d2 := ("@regexp [age]", Rule("string")), ("age", Rule("number"));
    assert !IsRegexDecl(d1.0) by {
      assert d1.0[..|RegexSigil|][6] == 'p' && RegexSigil[6] == ' ';
    }
    assert !IsRegexDecl(d2.0) by {
      assert d2.0[0] != RegexSigil[0];
    }
    CompileTwo(d1, d2, compile);
    ExactAgeRule(d1, compile, now);
  }

  /** Among overlapping key regexps the first declared one governs the key. */
  lemma FirstRegexGoverns(compile: string -> Regexp, now: int)
    requires compile("[name|age]")("age")
    ensures var p := Compile([("@regex [name|age]", Rule("string")), ("@regex [age|time]", Rule("number"))], compile);
      && Evaluate(p, [("age", Str("Pixel"))], now) == Returned(TestResult(true, map[]))
      && Evaluate(p, [("age", Num(20))], now) == Returned(TestResult(false, map["age" := InvalidType("string")]))
  {
    var d1, d2 := ("@regex [name|age]", Rule("string")), ("@regex [age|time]", Rule("number"));
    assert IsRegexDecl(d1.0) && RegexBody(d1.0) == "[name|age]";
    assert IsRegexDecl(d2.0);
    CompileTwo(d1, d2, compile);
    var p := Compile([d1, d2], compile);
    assert p.requiredRules == [];
    assert p.regexRules == [CompileDecl(d1, compile), CompileDecl(d2, compile)];
    assert MatchValue(Rule("string"), Str("Pixel"), now) == Returned(Pass);
    assert MatchValue(Rule("string"), Num(20), now) == Returned(Fail(InvalidType("string")));
    EvaluateOneRegex(p, 0, ("age", Str("Pixel")), Pass, now);
    EvaluateOneRegex(p, 0, ("age", Num(20)), Fail(InvalidType("string")), now);
  }

  /** A required regex declaration is covered by any key its regexp accepts, and reported under its own text otherwise. */
  lemma RequiredRegexDeclaration(compile: string -> Regexp, now: int)
    requires compile("[name|fullName]")("name") && compile("[name|fullName]")("fullName")
    ensures var decl := "@regex [name|fullName]";
      var p := Compile([(decl, Single(Typed("string").(required := true)))], compile);
      && Evaluate(p, [("name", Str("Pixel"))], now) == Returned(TestResult(true, map[]))
      && Evaluate(p, [("fullName", Str("Pixel"))], now) == Returned(TestResult(true, map[]))
      && Evaluate(p, [], now) == Returned(TestResult(false, map[decl := RequiredNotMatched(decl)]))
  {
    var decl := "@regex [name|fullName]";
    var d := (decl, Single(Typed("string").(required := true)));
    assert IsRegexDecl(decl) && RegexBody(decl) == "[name|fullName]";
    CompileOne(d, compile);
    var p := Compile([d], compile);
    assert p.requiredRules == [decl];
    assert p.regexRules == [CompileDecl(d, compile)];
    var start := WalkState(map[], []);
    assert MatchValue(d.1, Str("Pixel"), now) == Returned(Pass);
    var e, e' := ("name", Str("Pixel")), ("fullName", Str("Pixel"));
    WalkOne(p, e, now);
    StepRegex(p, start, 0, e, Pass, now);
    FinishOneRequired(p, Walk(p, [e], now).value, decl);
    WalkOne(p, e', now);
    StepRegex(p, start, 0, e', Pass, now);
    FinishOneRequired(p, Walk(p, [e'], now).value, decl);
    FinishOneRequired(p, start, decl);
  }

  /** A nested pattern passes or fails as a whole: a nested type error comes back as `false`. */
  lemma NestedPattern(compile: string -> Regexp, now: int)
    ensures var inner := Compile([("first", Rule("string")), ("last", Rule("string"))], compile);
      var p := Compile([("name", Single(Typed("pattern").(pattern := Some(inner))))], compile);
      && Evaluate(p, [("name", Obj([("first", Str("Pixel")), ("last", Str("Other"))]))], now)
         == Returned(TestResult(true, map[]))
      && Evaluate(p, [("name", Obj([("first", Num(10)), ("last", Str("Other"))]))], now)
         == Returned(TestResult(false, map["name" := FalseResult]))
  {
    var inner := Compile([("first", Rule("string")), ("last", Rule("string"))], compile);
    NestedOne(compile, Obj([("first", Str("Pixel")), ("last", Str("Other"))]), Pass, now);
    NestedOne(compile, Obj([("first", Num(10)), ("last", Str("Other"))]), Fail(InvalidType("string")), now);
  }

  /** The nested Pattern of `NestedPattern`: two plain declarations, nothing required. */
  lemma InnerShape(compile: string -> Regexp)
    ensures var inner := Compile([("first", Rule("string")), ("last", Rule("string"))], compile);
      && inner.rules == [("first", Rule("string")), ("last", Rule("string"))]
      && inner.regexRules == [] && inner.requiredRules == []
  {
    var d1, d2 := ("first", Rule("string")), ("last", Rule("string"));
    assert "first"[0] != RegexSigil[0] && "last"[0] != RegexSigil[0];
    CompileTwo(d1, d2, compile);
  }

  /**
   * The outer Pattern of `NestedPattern` on `{name: {first, last: "Other"}}`:
   * it passes exactly when `first` passes the nested string rule.
   */
  lemma NestedOne(compile: string -> Regexp, v: Value, o: Outcome, now: int)
    requires v.Obj? && |v.fields| == 2 && v.fields[0].0 == "first" && v.fields[1] == ("last", Str("Other"))
    requires MatchValue(Rule("string"), v.fields[0].1, now) == Returned(o)
    ensures var inner := Compile([("first", Rule("string")), ("last", Rule("string"))], compile);
      var p := Compile([("name", Single(Typed("pattern").(pattern := Some(inner))))], compile);
      Evaluate(p, [("name", v)], now) == Returned(if o.Pass? then TestResult(true, map[]) else TestResult(false, map["name" := FalseResult]))
  {
    InnerShape(compile);
    var inner := Compile([("first", Rule("string")), ("last", Rule("string"))], compile);
    var c := Typed("pattern").(pattern := Some(inner));
    assert MatchValue(Rule("string"), Str("Other"), now) == Returned(Pass);
    assert Entries(v) == [v.fields[0], v.fields[1]];
    WalkTwoExact(inner, 0, v.fields[0], o, 1, v.fields[1], Pass, now);
    FinishNoneRequired(inner, Walk(inner, Entries(v), now).value);
    NestedMismatchIsFalse(c, v, now);
    assert "name"[0] != RegexSigil[0];
    SingleDeclaration("name", Single(c), v, compile, now);
  }

  /** One error per offending key, each the diagnostic of its own matcher. */
  lemma ErrorsPerKey(compile: string -> Regexp, now: int)
    ensures var p := Compile([("name", Single(Typed("string").(minLength := Literal(3)))), ("age", Rule("number"))], compile);
      Evaluate(p, [("name", Str("Pi")), ("age", Bool(true))], now)
      == Returned(TestResult(false, map["name" := InvalidMinLength, "age" := InvalidType("number")]))
  {
    var d1, d2 := ("name", Single(Typed("string").(minLength := Literal(3)))), ("age", Rule("number"));
    assert "name"[0] != RegexSigil[0] && "age"[0] != RegexSigil[0];
    CompileTwo(d1, d2, compile);
    var p := Compile([d1, d2], compile);
    assert p.regexRules == [] && p.requiredRules == [];
    var e1, e2 := ("name", Str("Pi")), ("age", Bool(true));
    assert MatchValue(d1.1, e1.1, now) == Returned(Fail(InvalidMinLength));
    assert MatchValue(d2.1, e2.1, now) == Returned(Fail(InvalidType("number")));
    var start := WalkState(map[], []);
    WalkTwoExact(p, 0, e1, Fail(InvalidMinLength), 1, e2, Fail(InvalidType("number")), now);
    FinishNoneRequired(p, Walk(p, [e1, e2], now).value);
  }

  /**
   * A key without a rule gets `invalidKey` and the other keys are still
   * judged; a missing required key gets `requiredNotMatched`.
   */
  lemma KeyDiagnostics(compile: string -> Regexp, now: int)
    ensures var p := Compile([("name", Rule("string"))], compile);
      Evaluate(p, [("name", Str("Pixel")), ("age", Num(10))], now)
      == Returned(TestResult(false, map["age" := InvalidKey("age")]))
    ensures var p := Compile([("name", Rule("string")), ("age", Single(Typed("number").(required := true)))], compile);
      Evaluate(p, [("name", Str("Pixel"))], now)
      == Returned(TestResult(false, map["age" := RequiredNotMatched("age")]))
  {
    UnknownKey(compile, now);
    MissingRequiredKey(compile, now);
  }

  /** The first half of `KeyDiagnostics`: a key without a rule. */
  lemma UnknownKey(compile: string -> Regexp, now: int)
    ensures var p := Compile([("name", Rule("string"))], compile);
      Evaluate(p, [("name", Str("Pixel")), ("age", Num(10))], now)
      == Returned(TestResult(false, map["age" := InvalidKey("age")]))
  {
    var d1 := ("name", Rule("string"));
    assert "name"[0] != RegexSigil[0];
    var start := WalkState(map[], []);
    var e1, e2 := ("name", Str("Pixel")), ("age", Num(10));
    CompileOne(d1, compile);
    var p := Compile([d1], compile);
    assert p.regexRules == [] && p.requiredRules == [];
    assert MatchValue(p.rules[0].1, e1.1, now) == Returned(Pass);
    WalkTwo(p, e1, e2, now);
    StepExact(p, start, 0, e1, Pass, now);
    StepNone(p, WalkState(map[], ["name"]), e2, now);
    FinishNoneRequired(p, Walk(p, [e1, e2], now).value);
  }

  /** The second half of `KeyDiagnostics`: a required key that is absent. */
  lemma MissingRequiredKey(compile: string -> Regexp, now: int)
    ensures var p := Compile([("name", Rule("string")), ("age", Single(Typed("number").(required := true)))], compile);
      Evaluate(p, [("name", Str("Pixel"))], now)
      == Returned(TestResult(false, map["age" := RequiredNotMatched("age")]))
  {
    var d1, d2 := ("name", Rule("string")), ("age", Single(Typed("number").(required := true)));
    assert "name"[0] != RegexSigil[0] && "age"[0] != RegexSigil[0];
    var start := WalkState(map[], []);
    var e1 := ("name", Str("Pixel"));
    CompileTwo(d1, d2, compile);
    var q := Compile([d1, d2], compile);
    assert q.regexRules == [] && q.requiredRules == ["age"];
    assert MatchValue(q.rules[0].1, e1.1, now) == Returned(Pass);
    WalkOne(q, e1, now);
    StepExact(q, start, 0, e1, Pass, now);
    FinishOneRequired(q, Walk(q, [e1], now).value, "age");
  }

  /**
   * The event Pattern of events/event_dal.js. `event_type` is spelled with
   * `requried`, so it is not required; the `properties` rule holds an array
   * of rules under `'@regex .+'`.
   */
  function EventPattern(compile: string -> Regexp): Pattern
  {
    Compile(EventDeclarations(PropertiesPattern(compile)), compile)
  }

  /** The event declarations, with the nested pattern of `properties` left as a parameter. */
  function EventDeclarations(props: Pattern): seq<(string, RuleSpec)>
  {
    [
      ("event_type", Rule("string")),
      ("profile_id", Single(Typed("string").(required := true))),
      ("timestamp", Rule("number")),
      ("properties", Single(Typed("pattern").(pattern := Some(props))))
    ]
  }

  function PropertiesPattern(compile: string -> Regexp): Pattern
  {
    Compile([("@regex .+", Alternatives([Typed("string"), Typed("number"), Typed("boolean")]))], compile)
  }

  /** The shape of the compiled event Pattern: four exact rules, no regex rule, one required name. */
  lemma EventCompiled(compile: string -> Regexp)
    ensures var p := EventPattern(compile);
      && p.rules == EventDeclarations(PropertiesPattern(compile))
      && p.regexRules == [] && p.requiredRules == ["profile_id"]
  {
    EventShape(PropertiesPattern(compile), compile);
  }

  /** The shape of the compiled event declarations, whatever the nested pattern. */
  lemma EventShape(props: Pattern, compile: string -> Regexp)
    ensures var p := Compile(EventDeclarations(props), compile);
      && p.regexRules == [] && p.requiredRules == ["profile_id"]
  {
    var decls := EventDeclarations(props);
    forall i | 0 <= i < |decls| ensures !IsRegexDecl(decls[i].0) {
      PlainName(decls[i].0);
    }
    NoRegexDeclarations(decls, compile);
    EventRequired(props);
  }

  /** Declarations none of whose names starts with the sigil give no regex rule. */
  lemma {:induction false} NoRegexDeclarations(decls: seq<(string, RuleSpec)>, compile: string -> Regexp)
    requires forall i :: 0 <= i < |decls| ==> !IsRegexDecl(decls[i].0)
    ensures RegexRulesOf(decls, compile) == []
  {
    if decls != [] {
      NoRegexDeclarations(decls[..|decls| - 1], compile);
    }
  }

  /** Only `profile_id` is required among the event declarations. */
  lemma EventRequired(props: Pattern)
    ensures RequiredNamesOf(EventDeclarations(props)) == ["profile_id"]
  {
    var decls := EventDeclarations(props);
    var d0, d1, d2, d3 := decls[0], decls[1], decls[2], decls[3];
    assert decls[..3] == [d0, d1, d2] && [d0, d1, d2][..2] == [d0, d1] && [d0, d1][..1] == [d0] && [d0][..0] == [];
    assert RequiredNamesOf([d0]) == [];
    assert RequiredNamesOf([d0, d1]) == ["profile_id"];
    assert RequiredNamesOf([d0, d1, d2]) == ["profile_id"];
  }

  /**
   * The nested `properties` pattern refuses every property its key regexp
   * accepts, whatever the value, with `false`: its rule is an array. The key
   * `'@regex .+'` itself hits that declaration exactly, with the same verdict.
   */
  lemma PropertiesRefuse(compile: string -> Regexp, k: string, pv: Value, now: int)
    requires compile(".+")(k)
    ensures Evaluate(PropertiesPattern(compile), [(k, pv)], now)
      == Returned(TestResult(false, map[k := FalseResult]))
  {
    var props := PropertiesPattern(compile);
    var pd := ("@regex .+", Alternatives([Typed("string"), Typed("number"), Typed("boolean")]));
    assert IsRegexDecl(pd.0) && RegexBody(pd.0) == ".+";
    CompileOne(pd, compile);
    assert props.rules == [pd] && props.regexRules == [CompileDecl(pd, compile)] && props.requiredRules == [];
    var e := (k, pv);
    AlternativesNeverMatch(pd.1.configs, pv, now);
    if k == pd.0 {
      EvaluateOneExact(props, 0, e, Fail(FalseResult), now);
    } else {
      EvaluateOneRegex(props, 0, e, Fail(FalseResult), now);
    }
  }

  /** Only `profile_id` is required: an event holding just that key passes, one without it does not. */
  lemma EventRequiresProfile(compile: string -> Regexp, now: int)
    ensures EventPattern(compile).requiredRules == ["profile_id"]
    ensures Evaluate(EventPattern(compile), [("profile_id", Str("p1"))], now) == Returned(TestResult(true, map[]))
    ensures Evaluate(EventPattern(compile), [("event_type", Str("view"))], now)
      == Returned(TestResult(false, map["profile_id" := RequiredNotMatched("profile_id")]))
  {
    EventCompiled(compile);
    var p := EventPattern(compile);
    var start := WalkState(map[], []);
    var id, ty := ("profile_id", Str("p1")), ("event_type", Str("view"));
    assert MatchValue(p.rules[1].1, id.1, now) == Returned(Pass);
    assert MatchValue(p.rules[0].1, ty.1, now) == Returned(Pass);
    WalkOne(p, id, now);
    StepExact(p, start, 1, id, Pass, now);
    FinishOneRequired(p, Walk(p, [id], now).value, "profile_id");
    WalkOne(p, ty, now);
    StepExact(p, start, 0, ty, Pass, now);
    FinishOneRequired(p, Walk(p, [ty], now).value, "profile_id");
  }

  /** An event that carries a property its key regexp accepts is refused, with `false` under `properties`. */
  lemma EventPropertiesRefused(compile: string -> Regexp, k: string, pv: Value, now: int)
    requires compile(".+")(k)
    ensures Evaluate(EventPattern(compile), [("profile_id", Str("p1")), ("properties", Obj([(k, pv)]))], now)
      == Returned(TestResult(false, map["properties" := FalseResult]))
  {
    var props := PropertiesPattern(compile);
    var v := Obj([(k, pv)]);
    PropertiesRefuse(compile, k, pv, now);
    assert Entries(v) == [(k, pv)];
    NestedMismatchIsFalse(Typed("pattern").(pattern := Some(props)), v, now);
    EventWithRefusedProperties(props, compile, v, now);
  }

  /** Whatever the nested pattern, properties whose rule gives `false` make the event fail with `false` under `properties`. */
  lemma EventWithRefusedProperties(props: Pattern, compile: string -> Regexp, v: Value, now: int)
    requires MatchValue(Single(Typed("pattern").(pattern := Some(props))), v, now) == Returned(Fail(FalseResult))
    ensures Evaluate(Compile(EventDeclarations(props), compile), [("profile_id", Str("p1")), ("properties", v)], now)
      == Returned(TestResult(false, map["properties" := FalseResult]))
  {
    EventShape(props, compile);
    var p := Compile(EventDeclarations(props), compile);
    var id := ("profile_id", Str("p1"));
    assert p.rules[1].1 == Single(Typed("string").(required := true));
    assert p.rules[3] == ("properties", Single(Typed("pattern").(pattern := Some(props))));
    assert MatchValue(p.rules[1].1, id.1, now) == Returned(Pass);
    WalkTwoExact(p, 1, id, Pass, 3, ("properties", v), Fail(FalseResult), now);
    FinishOneRequired(p, WalkState(map["properties" := FalseResult], ["profile_id", "properties"]), "profile_id");
  }
}
