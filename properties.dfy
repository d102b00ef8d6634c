/**
 * What `test` promises about every record: each key is visited and judged on
 * its own, required declarations are checked against what the keys covered,
 * `matched` means "no error at all", and a TypeError from a malformed rule
 * is the only way a test does not produce a result.
 */
module Properties {
  import opened Wrappers
  import opened JsValues
  import opened Rules
  import opened Diagnostics
  import opened Engine
  import Construction

  /** The verdict of the rule resolved for entry `e`, if a rule resolves. */
  function Judge(p: Pattern, e: (string, Value), now: int): Option<Completion<Outcome>>
  {
    match RuleForKey(p, e.0)
    case None => None
    case Some(loc) => Some(MatchValue(SpecAt(p, loc), e.1, now))
  }

  /** Entry `e` has a rule and its value passes. */
  predicate Accepted(p: Pattern, e: (string, Value), now: int)
  {
    Judge(p, e, now) == Some(Returned(Pass))
  }

  /** Checking entry `e` raises a TypeError. */
  predicate Throws(p: Pattern, e: (string, Value), now: int)
  {
    Judge(p, e, now) == Some(Thrown)
  }

  /** Entry i of `rec` has key k and is not accepted. */
  ghost predicate KeyFailsAt(p: Pattern, rec: Record, i: int, k: string, now: int)
  {
    0 <= i < |rec| && rec[i].0 == k && !Accepted(p, rec[i], now)
  }

  /** Entry i of `rec` resolves to a rule that covers the name c. */
  ghost predicate CoversAt(p: Pattern, rec: Record, i: int, c: string)
  {
    0 <= i < |rec| && RuleForKey(p, rec[i].0).Some? && CoverName(p, rec[i].0, RuleForKey(p, rec[i].0).value) == c
  }

  /** Some entry of `rec` covers the name c, whatever its value. */
  ghost predicate IsCovered(p: Pattern, rec: Record, c: string)
  {
    exists i :: CoversAt(p, rec, i, c)
  }

  /**
   * What the errors say about entry `e`: no rule means exactly `invalidKey`
   * under its key; a failing value means the matcher's verdict under its key;
   * a passing value means no error under its key.
   */
  ghost predicate Reported(p: Pattern, errors: map<string, Diagnostic>, e: (string, Value), now: int)
  {
    match Judge(p, e, now)
    case None => e.0 in errors && errors[e.0] == InvalidKey(e.0)
    case Some(Thrown) => false
    case Some(Returned(Pass)) => e.0 !in errors
    case Some(Returned(Fail(d))) => e.0 in errors && errors[e.0] == d
  }

  /**
   * In a constructed Pattern a key always covers a declared name: the key
   * itself when its rule is exact, the text of a regex declaration when its
   * rule was found by regex.
   */
  lemma CoverNameIsDeclared(decls: seq<(string, RuleSpec)>, compile: string -> Regexp, key: string)
    ensures var p := Construction.Compile(decls, compile);
      RuleForKey(p, key).Some? ==>
        var c := CoverName(p, key, RuleForKey(p, key).value);
        && (exists i :: 0 <= i < |decls| && decls[i].0 == c)
        && (RuleForKey(p, key).value.Exact? ==> c == key)
        && (RuleForKey(p, key).value.ByRegex? ==> IsRegexDecl(c))
  {
    var p := Construction.Compile(decls, compile);
    if RuleForKey(p, key).Some? {
      match RuleForKey(p, key).value
      case Exact(i) =>
        assert decls[i].0 == key;
      case ByRegex(j) =>
        var idx := Construction.RegexRulesInDeclarationOrder(decls, compile);
        assert p.regexRules[j] == Construction.CompileDecl(decls[idx[j]], compile);
        assert decls[idx[j]].0 == p.regexRules[j].decl;
    }
  }

  /** The step of the walk for entry e, stated with `Judge`. */
  lemma StepByJudge(p: Pattern, st: WalkState, e: (string, Value), now: int)
    ensures Judge(p, e, now).None? ==>
      Step(p, st, e, now) == Returned(st.(errors := st.errors[e.0 := InvalidKey(e.0)]))
    ensures Judge(p, e, now) == Some(Thrown) <==> Step(p, st, e, now).Thrown?
    ensures Judge(p, e, now).Some? && Judge(p, e, now).value.Returned? ==>
      var o := Judge(p, e, now).value.value;
      Step(p, st, e, now) == Returned(WalkState(
        if o.Fail? then st.errors[e.0 := o.error] else st.errors,
        st.covered + [CoverName(p, e.0, RuleForKey(p, e.0).value)]))
  {
  }

  /** The walk of `rec`, split into the walk of all but the last entry and one step. */
  lemma WalkSplit(p: Pattern, rec: Record, now: int)
    requires rec != []
    ensures forall i :: 0 <= i < |rec| - 1 ==> rec[..|rec| - 1][i] == rec[i]
    ensures Walk(p, rec[..|rec| - 1], now).Thrown? ==> Walk(p, rec, now).Thrown?
    ensures Walk(p, rec[..|rec| - 1], now).Returned? ==>
      Walk(p, rec, now) == Step(p, Walk(p, rec[..|rec| - 1], now).value, rec[|rec| - 1], now)
  {
  }

  /** A walk raises a TypeError exactly when checking some entry does. */
  lemma {:induction false} WalkThrowsIff(p: Pattern, rec: Record, now: int)
    ensures Walk(p, rec, now).Thrown? <==> exists i :: 0 <= i < |rec| && Throws(p, rec[i], now)
  {
    if rec != [] {
      var init := rec[..|rec| - 1];
      WalkThrowsIff(p, init, now);
      ThrowsSnoc(p, rec, init, now);
    }
  }

  /** One entry more: the walk throws exactly when the shorter walk did or the new entry does. */
  lemma ThrowsSnoc(p: Pattern, rec: Record, init: Record, now: int)
    requires rec != [] && init == rec[..|rec| - 1]
    requires Walk(p, init, now).Thrown? <==> exists i :: 0 <= i < |init| && Throws(p, init[i], now)
    ensures Walk(p, rec, now).Thrown? <==> exists i :: 0 <= i < |rec| && Throws(p, rec[i], now)
  {
    var n := |rec| - 1;
    WalkSplit(p, rec, now);
    if Walk(p, init, now).Thrown? {
      var i :| 0 <= i < |init| && Throws(p, init[i], now);
      assert Throws(p, rec[i], now);
    } else {
      StepByJudge(p, Walk(p, init, now).value, rec[n], now);
      forall i | 0 <= i < n ensures !Throws(p, rec[i], now) {
        assert rec[i] == init[i];
      }
    }
  }

  /** One entry more: the names it covers are those of the shorter record plus the entry's own. */
  lemma CoveredSnoc(p: Pattern, rec: Record, before: seq<string>, after: seq<string>)
    requires rec != []
    requires forall c :: c in before <==> IsCovered(p, rec[..|rec| - 1], c)
    requires var e := rec[|rec| - 1];
      after == before + if RuleForKey(p, e.0).Some? then [CoverName(p, e.0, RuleForKey(p, e.0).value)] else []
    ensures forall c :: c in after <==> IsCovered(p, rec, c)
  {
    var n := |rec| - 1;
    var init := rec[..n];
    forall c | c in after ensures IsCovered(p, rec, c) {
      if c in before {
        var i :| CoversAt(p, init, i, c);
        assert rec[i] == init[i];
        assert CoversAt(p, rec, i, c);
      } else {
        assert CoversAt(p, rec, n, c);
      }
    }
    forall c | IsCovered(p, rec, c) ensures c in after {
      var i :| CoversAt(p, rec, i, c);
      if i < n {
        assert rec[i] == init[i];
        assert CoversAt(p, init, i, c);
      }
    }
  }

  /** The names a completed walk records as covered are exactly the names some entry covers. */
  lemma {:induction false} WalkCovered(p: Pattern, rec: Record, now: int)
    requires Walk(p, rec, now).Returned?
    ensures forall c :: c in Walk(p, rec, now).value.covered <==> IsCovered(p, rec, c)
  {
    if rec != [] {
      var n := |rec| - 1;
      var init := rec[..n];
      WalkSplit(p, rec, now);
      WalkThrowsIff(p, rec, now);
      assert !Walk(p, init, now).Thrown?;
      var st := Walk(p, init, now).value;
      WalkCovered(p, init, now);
      StepByJudge(p, st, rec[n], now);
      CoveredSnoc(p, rec, st.covered, Walk(p, rec, now).value.covered);
    }
  }

  /** One entry more: its key gains an error exactly when it is not accepted; other keys keep theirs. */
  lemma ErrorsSnoc(p: Pattern, rec: Record, init: Record, before: map<string, Diagnostic>, after: map<string, Diagnostic>, d: Diagnostic, now: int)
    requires rec != [] && init == rec[..|rec| - 1]
    requires forall k :: k in before <==> exists i :: KeyFailsAt(p, init, i, k, now)
    requires forall k :: k in before ==> !before[k].RequiredNotMatched?
    requires !d.RequiredNotMatched?
    requires after == if Accepted(p, rec[|rec| - 1], now) then before else before[rec[|rec| - 1].0 := d]
    ensures forall k :: k in after <==> exists i :: KeyFailsAt(p, rec, i, k, now)
    ensures forall k :: k in after ==> !after[k].RequiredNotMatched?
  {
    forall k | k in after ensures exists i :: KeyFailsAt(p, rec, i, k, now) {
      ErrorHasCause(p, rec, init, before, after, d, k, now);
    }
    forall k | exists i :: KeyFailsAt(p, rec, i, k, now) ensures k in after {
      var i :| KeyFailsAt(p, rec, i, k, now);
      FailureRecorded(p, rec, init, before, after, d, i, k, now);
    }
  }

  /** The other half of `ErrorsSnoc`: an entry that failed leaves an error under its key. */
  lemma FailureRecorded(p: Pattern, rec: Record, init: Record, before: map<string, Diagnostic>, after: map<string, Diagnostic>, d: Diagnostic, i: int, k: string, now: int)
    requires rec != [] && init == rec[..|rec| - 1]
    requires (exists i :: KeyFailsAt(p, init, i, k, now)) ==> k in before
    requires after == if Accepted(p, rec[|rec| - 1], now) then before else before[rec[|rec| - 1].0 := d]
    requires KeyFailsAt(p, rec, i, k, now)
    ensures k in after
  {
    if i < |init| {
      assert rec[i] == init[i];
      assert KeyFailsAt(p, init, i, k, now);
    }
  }

  /** The step half of `ErrorsSnoc`: a key that holds an error has an entry that failed. */
  lemma ErrorHasCause(p: Pattern, rec: Record, init: Record, before: map<string, Diagnostic>, after: map<string, Diagnostic>, d: Diagnostic, k: string, now: int)
    requires rec != [] && init == rec[..|rec| - 1]
    requires k in before ==> exists i :: KeyFailsAt(p, init, i, k, now)
    requires after == if Accepted(p, rec[|rec| - 1], now) then before else before[rec[|rec| - 1].0 := d]
    requires k in after
    ensures exists i :: KeyFailsAt(p, rec, i, k, now)
  {
    var n := |rec| - 1;
    if k == rec[n].0 && !Accepted(p, rec[n], now) {
      assert KeyFailsAt(p, rec, n, k, now);
    } else {
      var i :| KeyFailsAt(p, init, i, k, now);
      assert rec[i] == init[i];
      assert KeyFailsAt(p, rec, i, k, now);
    }
  }

  /**
   * After a completed walk, a key carries an error exactly when some entry
   * with that key was not accepted, and none of those errors is a
   * `requiredNotMatched` one.
   */
  lemma {:induction false} WalkErrors(p: Pattern, rec: Record, now: int)
    requires Walk(p, rec, now).Returned?
    ensures var errors := Walk(p, rec, now).value.errors;
      && (forall k :: k in errors <==> exists i :: KeyFailsAt(p, rec, i, k, now))
      && (forall k :: k in errors ==> !errors[k].RequiredNotMatched?)
  {
    if rec != [] {
      var n := |rec| - 1;
      var init := rec[..n];
      WalkSplit(p, rec, now);
      WalkThrowsIff(p, rec, now);
      assert !Walk(p, init, now).Thrown?;
      var st := Walk(p, init, now).value;
      WalkErrors(p, init, now);
      StepByJudge(p, st, rec[n], now);
      assert !Throws(p, rec[n], now);
      var d := match Judge(p, rec[n], now)
        case None => InvalidKey(rec[n].0)
        case Some(res) => if res.Returned? && res.value.Fail? then res.value.error else FalseResult;
      ErrorsSnoc(p, rec, init, st.errors, Walk(p, rec, now).value.errors, d, now);
    }
  }

  /**
   * In a record whose keys are distinct, a completed walk reports every entry
   * as `Reported` says: the keys before and after an unknown key are judged
   * just the same.
   */
  lemma {:induction false} WalkReports(p: Pattern, rec: Record, now: int)
    requires DistinctKeys(rec)
    requires Walk(p, rec, now).Returned?
    ensures forall i :: 0 <= i < |rec| ==> Reported(p, Walk(p, rec, now).value.errors, rec[i], now)
  {
    if rec != [] {
      var n := |rec| - 1;
      var init := rec[..n];
      WalkSplit(p, rec, now);
      WalkThrowsIff(p, rec, now);
      assert !Walk(p, init, now).Thrown?;
      var st := Walk(p, init, now).value;
      WalkReports(p, init, now);
      WalkErrors(p, init, now);
      forall i' | 0 <= i' < n ensures !KeyFailsAt(p, init, i', rec[n].0, now) && init[i'].0 != rec[n].0 {
        assert init[i'].0 == rec[i'].0 != rec[n].0;
      }
      assert rec[n].0 !in st.errors;
      ReportsSnoc(p, rec, init, st, Walk(p, rec, now).value, now);
    }
  }

  /** One entry more, with a key new to the record: the earlier reports stand and the new entry is reported. */
  lemma ReportsSnoc(p: Pattern, rec: Record, init: Record, st: WalkState, after: WalkState, now: int)
    requires rec != [] && init == rec[..|rec| - 1]
    requires forall i :: 0 <= i < |init| ==> Reported(p, st.errors, init[i], now)
    requires forall i :: 0 <= i < |init| ==> init[i].0 != rec[|rec| - 1].0
    requires rec[|rec| - 1].0 !in st.errors
    requires Step(p, st, rec[|rec| - 1], now) == Returned(after)
    ensures forall i :: 0 <= i < |rec| ==> Reported(p, after.errors, rec[i], now)
  {
    var n := |rec| - 1;
    StepByJudge(p, st, rec[n], now);
    forall i | 0 <= i < |rec| ensures Reported(p, after.errors, rec[i], now) {
      if i < n {
        assert rec[i] == init[i];
        assert Reported(p, st.errors, init[i], now);
      }
    }
  }

  // ---------------------------------------------------------------------
  // The result of `test`

  /** `test` raises a TypeError exactly when checking some entry of the record does. */
  lemma TestThrowsIff(p: Pattern, rec: Record, now: int)
    ensures Evaluate(p, rec, now).Thrown? <==> exists i :: 0 <= i < |rec| && Throws(p, rec[i], now)
  {
    WalkThrowsIff(p, rec, now);
  }

  /**
   * Every key is visited and judged on its own (keys are distinct in a
   * JavaScript object, and the Pattern was built by the constructor, so every
   * required name is declared): a key without a rule has exactly
   * `invalidKey`, a failing value has its matcher's verdict, a passing value
   * has no error.
   */
  lemma TestReportsEveryKey(p: Pattern, rec: Record, now: int)
    requires DistinctKeys(rec)
    requires Construction.RequiredDeclared(p)
    requires Evaluate(p, rec, now).Returned?
    ensures forall i :: 0 <= i < |rec| ==> Reported(p, Evaluate(p, rec, now).value.errors, rec[i], now)
  {
    var st := Walk(p, rec, now).value;
    var res := Evaluate(p, rec, now).value;
    WalkReports(p, rec, now);
    WalkCovered(p, rec, now);
    forall i | 0 <= i < |rec| ensures Reported(p, res.errors, rec[i], now) {
      var k := rec[i].0;
      if k in p.requiredRules {
        // a required name has an exact rule, so the entry covers its own key
        assert HasExact(p, k);
        assert CoversAt(p, rec, i, k);
      }
    }
  }

  /**
   * Required coverage: a required declaration carries `requiredNotMatched`
   * exactly when no key of the record covers it; a key covers it even if its
   * value failed, and a key resolved by a regex rule covers that rule's
   * declaration string.
   */
  lemma RequiredCoverage(p: Pattern, rec: Record, now: int)
    requires Evaluate(p, rec, now).Returned?
    ensures var errors := Evaluate(p, rec, now).value.errors;
      forall n :: n in p.requiredRules ==>
        (n in errors && errors[n] == RequiredNotMatched(n) <==> !IsCovered(p, rec, n))
  {
    WalkCovered(p, rec, now);
    WalkErrors(p, rec, now);
  }

  /** Every error is under a key of the record that was not accepted, or under an uncovered required declaration. */
  lemma ErrorsAccountedFor(p: Pattern, rec: Record, now: int)
    requires Evaluate(p, rec, now).Returned?
    ensures var errors := Evaluate(p, rec, now).value.errors;
      forall k :: k in errors ==>
        (exists i :: KeyFailsAt(p, rec, i, k, now)) || (k in p.requiredRules && !IsCovered(p, rec, k))
  {
    WalkCovered(p, rec, now);
    WalkErrors(p, rec, now);
  }

  /**
   * `matched` holds exactly when every entry has a rule and passes and every
   * required declaration is covered, which is when the error map is empty.
   */
  lemma MatchedIff(p: Pattern, rec: Record, now: int)
    requires Evaluate(p, rec, now).Returned?
    ensures var res := Evaluate(p, rec, now).value;
      && (res.matched <==> res.errors == map[])
      && (res.matched <==>
           (forall i :: 0 <= i < |rec| ==> Accepted(p, rec[i], now)) &&
           (forall n :: n in p.requiredRules ==> IsCovered(p, rec, n)))
  {
    var st := Walk(p, rec, now).value;
    var res := Evaluate(p, rec, now).value;
    WalkCovered(p, rec, now);
    WalkErrors(p, rec, now);
    if res.matched {
      forall i | 0 <= i < |rec| ensures Accepted(p, rec[i], now) {
        assert rec[i].0 !in st.errors;
        assert !KeyFailsAt(p, rec, i, rec[i].0, now);
      }
      forall n | n in p.requiredRules ensures IsCovered(p, rec, n) {
        assert n !in res.errors;
        assert n in st.covered;
      }
    } else {
      var k :| k in res.errors;
      if k in st.errors {
        var i :| KeyFailsAt(p, rec, i, k, now);
      }
    }
  }

  // ---------------------------------------------------------------------
  // Matcher dispatch

  /** An array of rules has no `type`, so no matcher: every value gets `false`. */
  lemma AlternativesNeverMatch(configs: seq<Rules.Config>, v: Value, now: int)
    ensures MatchValue(Alternatives(configs), v, now) == Returned(Fail(FalseResult))
  {
  }

  /** A `type` with no entry in `Pattern.matchers` ('object' among them) gives `false` for every value. */
  lemma UnregisteredTypeIsFalse(c: Rules.Config, v: Value, now: int)
    requires c.ty.Some? && c.ty.value !in {"string", "number", "boolean", "date", "pattern", "regexp"}
    ensures MatchValue(Single(c), v, now) == Returned(Fail(FalseResult))
  {
    assert forall k: MatcherKind :: k.Name() in {"string", "number", "boolean", "date", "pattern", "regexp"};
  }

  /**
   * A nested pattern is opaque: an object-like value passes exactly when the
   * nested pattern matches its entries, and a nested mismatch is stored as
   * `false`, never as the nested errors, whatever they were.
   */
  lemma NestedMismatchIsFalse(c: Rules.Config, v: Value, now: int)
    requires c.ty == Some("pattern") && c.pattern.Some? && IsObjectLike(v)
    requires Evaluate(c.pattern.value, Entries(v), now).Returned?
    ensures var res := Evaluate(c.pattern.value, Entries(v), now).value;
      MatchValue(Single(c), v, now) == Returned(if res.matched then Pass else Fail(FalseResult))
  {
    PatternRuleDispatch(c, v, now);
  }

  /** A rule of type 'pattern' is checked by the nested-pattern matcher. */
  lemma PatternRuleDispatch(c: Rules.Config, v: Value, now: int)
    requires c.ty == Some("pattern")
    ensures MatchValue(Single(c), v, now) == PatternMatcher(c, v, now)
  {
    PatternTypeDispatch(c);
    DispatchToKind(Single(c), PatternKind, v, now);
    RunPatternKind(c, v, now);
  }

  /** Once a matcher is found for a rule, `matchValue` is that matcher's verdict. */
  lemma DispatchToKind(spec: RuleSpec, kind: MatcherKind, v: Value, now: int)
    requires MatcherForValue(spec) == Some(kind)
    ensures spec.Single? && MatchValue(spec, v, now) == RunMatcher(kind, spec.config, v, now)
  {
  }

  /** The matcher registered under 'pattern' is the nested-pattern matcher. */
  lemma RunPatternKind(c: Rules.Config, v: Value, now: int)
    ensures RunMatcher(PatternKind, c, v, now) == PatternMatcher(c, v, now)
  {
  }

  /** The type name 'pattern' selects the nested-pattern matcher. */
  lemma PatternTypeDispatch(c: Rules.Config)
    requires c.ty == Some("pattern")
    ensures MatcherForValue(Single(c)) == Some(PatternKind)
  {
  }
}
