/**
 * The `Pattern` constructor: it walks the declarations in order, collects
 * the names of the required ones and the regex declarations, and keeps the
 * whole declaration map as `rules`.
 */
module Construction {
  import opened Wrappers
  import opened Rules

  /** A declaration is required when it is one rule object whose `required` is truthy; an array has no `required`. */
  predicate IsRequired(spec: RuleSpec)
  {
    spec.Single? && spec.config.required
  }

  /** An array of rules is never required; a rule object is required exactly when its `required` is set. */
  lemma RequiredOnlyForRuleObjects(spec: RuleSpec)
    ensures spec.Alternatives? ==> !IsRequired(spec)
    ensures spec.Single? ==> (IsRequired(spec) <==> spec.config.required)
  {
  }

  /** The regex rule built from a regex declaration: its text, its compiled body and its rule. */
  function CompileDecl(d: (string, RuleSpec), compile: string -> Regexp): RegexRule
    requires IsRegexDecl(d.0)
  {
    RegexRule(d.0, compile(RegexBody(d.0)), d.1)
  }

  /** `this.regexRules` after the constructor's loop has seen `decls`. */
  function RegexRulesOf(decls: seq<(string, RuleSpec)>, compile: string -> Regexp): seq<RegexRule>
  {
    if decls == [] then []
    else
      var d := decls[|decls| - 1];
      RegexRulesOf(decls[..|decls| - 1], compile) + (if IsRegexDecl(d.0) then [CompileDecl(d, compile)] else [])
  }

  /** `this.requiredRules` after the constructor's loop has seen `decls`. */
  function RequiredNamesOf(decls: seq<(string, RuleSpec)>): seq<string>
  {
    if decls == [] then []
    else
      var d := decls[|decls| - 1];
      RequiredNamesOf(decls[..|decls| - 1]) + (if IsRequired(d.1) then [d.0] else [])
  }

  /** The Pattern built from `decls`; `compile` stands for `new RegExp`. */
  function Compile(decls: seq<(string, RuleSpec)>, compile: string -> Regexp): Pattern
  {
    Pattern(decls, RegexRulesOf(decls, compile), RequiredNamesOf(decls))
  }

  /** `new Pattern(rules)`: the constructor's `_.each` loop. */
  method NewPattern(decls: seq<(string, RuleSpec)>, compile: string -> Regexp) returns (p: Pattern)
    ensures p == Compile(decls, compile)
  {
    var requiredRules: seq<string> := [];
    var regexRules: seq<RegexRule> := [];
    var i := 0;
    while i < |decls|
      invariant 0 <= i <= |decls|
      invariant requiredRules == RequiredNamesOf(decls[..i])
      invariant regexRules == RegexRulesOf(decls[..i], compile)
    {
      assert decls[..i + 1][..i] == decls[..i];
      var (name, config) := decls[i];
      if IsRequired(config) {
        requiredRules := requiredRules + [name];
      }
      if IsRegexDecl(name) {
        regexRules := regexRules + [RegexRule(name, compile(RegexBody(name)), config)];
      }
      i := i + 1;
    }
    assert decls[..i] == decls;
    p := Pattern(decls, regexRules, requiredRules);
  }

  /** `idx` lists positions of `decls` in strictly increasing order. */
  ghost predicate Ascending(idx: seq<nat>, n: nat)
  {
    (forall j :: 0 <= j < |idx| ==> idx[j] < n) &&
    (forall j1, j2 :: 0 <= j1 < j2 < |idx| ==> idx[j1] < idx[j2])
  }

  /** Appending position n (or nothing) to positions below n keeps them ascending, now below n + 1. */
  lemma AscendingSnoc(prev: seq<nat>, n: nat, add: bool)
    requires Ascending(prev, n)
    ensures Ascending(if add then prev + [n] else prev, n + 1)
  {
  }

  /**
   * `regexRules` holds one rule per declaration whose name starts with
   * exactly `'@regex '`, and no other, in declaration order: `idx` gives the
   * position of each one's declaration (`RegexRulesComplete` adds that none
   * is missing).
   */
  lemma {:induction false} RegexRulesInDeclarationOrder(decls: seq<(string, RuleSpec)>, compile: string -> Regexp)
    returns (idx: seq<nat>)
    ensures var rr := RegexRulesOf(decls, compile);
      && |idx| == |rr|
      && Ascending(idx, |decls|)
      && (forall j :: 0 <= j < |idx| ==> IsRegexDecl(decls[idx[j]].0) && rr[j] == CompileDecl(decls[idx[j]], compile))
  {
    if decls == [] {
      idx := [];
    } else {
      var n := |decls| - 1;
      var init := decls[..n];
      var prev := RegexRulesInDeclarationOrder(init, compile);
      var rr := RegexRulesOf(init, compile);
      var added := if IsRegexDecl(decls[n].0) then [CompileDecl(decls[n], compile)] else [];
      idx := if IsRegexDecl(decls[n].0) then prev + [n] else prev;
      assert RegexRulesOf(decls, compile) == rr + added;
      AscendingSnoc(prev, n, IsRegexDecl(decls[n].0));
      forall j | 0 <= j < |idx|
        ensures IsRegexDecl(decls[idx[j]].0) && RegexRulesOf(decls, compile)[j] == CompileDecl(decls[idx[j]], compile)
      {
        if j < |prev| {
          assert idx[j] == prev[j] && decls[prev[j]] == init[prev[j]];
        }
      }
    }
  }

  /** Every regex declaration has its rule in `regexRules`. */
  lemma {:induction false} RegexRulesComplete(decls: seq<(string, RuleSpec)>, compile: string -> Regexp)
    ensures forall i :: 0 <= i < |decls| && IsRegexDecl(decls[i].0) ==> CompileDecl(decls[i], compile) in RegexRulesOf(decls, compile)
  {
    if decls != [] {
      var n := |decls| - 1;
      var init := decls[..n];
      RegexRulesComplete(init, compile);
      forall i | 0 <= i < |decls| && IsRegexDecl(decls[i].0) ensures CompileDecl(decls[i], compile) in RegexRulesOf(decls, compile) {
        if i < n {
          assert decls[i] == init[i];
        }
      }
    }
  }

  /**
   * `requiredRules` holds the name of every declaration whose rule object has
   * a truthy `required`, and no other name, in declaration order: `idx` gives
   * the position of each one's declaration (`RequiredNamesComplete` adds that
   * none is missing).
   */
  lemma {:induction false} RequiredNamesInDeclarationOrder(decls: seq<(string, RuleSpec)>)
    returns (idx: seq<nat>)
    ensures var req := RequiredNamesOf(decls);
      && |idx| == |req|
      && Ascending(idx, |decls|)
      && (forall j :: 0 <= j < |idx| ==> IsRequired(decls[idx[j]].1) && req[j] == decls[idx[j]].0)
  {
    if decls == [] {
      idx := [];
    } else {
      var n := |decls| - 1;
      var init := decls[..n];
      var prev := RequiredNamesInDeclarationOrder(init);
      var req := RequiredNamesOf(init);
      var added := if IsRequired(decls[n].1) then [decls[n].0] else [];
      idx := if IsRequired(decls[n].1) then prev + [n] else prev;
      assert RequiredNamesOf(decls) == req + added;
      AscendingSnoc(prev, n, IsRequired(decls[n].1));
      forall j | 0 <= j < |idx|
        ensures IsRequired(decls[idx[j]].1) && RequiredNamesOf(decls)[j] == decls[idx[j]].0
      {
        if j < |prev| {
          assert idx[j] == prev[j] && decls[prev[j]] == init[prev[j]];
        }
      }
    }
  }

  /** Every required declaration has its name in `requiredRules`. */
  lemma {:induction false} RequiredNamesComplete(decls: seq<(string, RuleSpec)>)
    ensures forall i :: 0 <= i < |decls| && IsRequired(decls[i].1) ==> decls[i].0 in RequiredNamesOf(decls)
  {
    if decls != [] {
      var n := |decls| - 1;
      var init := decls[..n];
      RequiredNamesComplete(init);
      forall i | 0 <= i < |decls| && IsRequired(decls[i].1) ensures decls[i].0 in RequiredNamesOf(decls) {
        if i < n {
          assert decls[i] == init[i];
        }
      }
    }
  }

  /** Every required name of a constructed Pattern is the name of one of its declarations. */
  ghost predicate RequiredDeclared(p: Pattern)
  {
    forall n :: n in p.requiredRules ==> exists i :: 0 <= i < |p.rules| && p.rules[i].0 == n
  }

  /** Construction keeps every declaration in `rules` and only ever requires declared names. */
  lemma CompiledIsWellFormed(decls: seq<(string, RuleSpec)>, compile: string -> Regexp)
    ensures Compile(decls, compile).rules == decls
    ensures RequiredDeclared(Compile(decls, compile))
  {
    var idx := RequiredNamesInDeclarationOrder(decls);
    var req := RequiredNamesOf(decls);
    forall n | n in req
      ensures exists i :: 0 <= i < |decls| && decls[i].0 == n
    {
      var j :| 0 <= j < |req| && req[j] == n;
      assert decls[idx[j]].0 == n;
    }
  }
}
