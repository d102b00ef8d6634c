/**
 * The rule language of the validator: what a declaration binds a key to,
 * and the compiled form a Pattern keeps after construction.
 */
module Rules {
  import opened Wrappers

  /**
   * A bound (`minLength`, `maxLength`, `min`, `max`) as the caller writes it:
   * absent, a number, a Date, or a zero-argument function that is called each
   * time the bound is checked. The function sees the ambient state of that
   * moment (`now`), which stands for whatever it reads, the clock for instance.
   */
  datatype Bound =
    | Unset
    | Literal(n: int)
    | DateLiteral(ms: int)
    | Supplier(at: int -> int)

  /** A bound is checked only when it is truthy: a literal 0 is falsy, a Date and a function never are. */
  predicate Truthy(b: Bound)
  {
    match b
    case Unset => false
    case Literal(n) => n != 0
    case DateLiteral(_) => true
    case Supplier(_) => true
  }

  /** Only an absent bound and a literal 0 are falsy. */
  lemma FalsyBounds(b: Bound)
    ensures !Truthy(b) <==> b == Unset || b == Literal(0)
  {
  }

  /** `matcherRuleValue`: a function-valued bound is called, any other is used as it is. */
  function MatcherRuleValue(b: Bound, now: int): int
    requires !b.Unset?
  {
    match b
    case Literal(n) => n
    case DateLiteral(ms) => ms
    case Supplier(at) => at(now)
  }

  /** A raw bound resolves to the same number at every moment; a function-valued one is called at the moment of the check. */
  lemma BoundResolution(b: Bound, now1: int, now2: int)
    requires !b.Unset?
    ensures !b.Supplier? ==> MatcherRuleValue(b, now1) == MatcherRuleValue(b, now2)
    ensures b.Supplier? ==> MatcherRuleValue(b, now1) == b.at(now1)
  {
  }

  /** A regular expression test (an unanchored search), abstracted as a predicate on strings. */
  type Regexp = string -> bool

  /** The `regexp` of a 'regexp' rule: a RegExp, or a function returning one when the rule is checked. */
  datatype RegexSource =
    | RegexLiteral(test: Regexp)
    | RegexSupplier(at: int -> Regexp)

  /** `matcherRuleValue` applied to a regexp source. */
  function ResolveRegexp(src: RegexSource, now: int): Regexp
  {
    match src
    case RegexLiteral(test) => test
    case RegexSupplier(at) => at(now)
  }

  /** A RegExp is used as it is at every moment; a function returning one is called at the moment of the check. */
  lemma RegexpResolution(src: RegexSource, now1: int, now2: int)
    ensures src.RegexLiteral? ==> ResolveRegexp(src, now1) == ResolveRegexp(src, now2)
    ensures src.RegexSupplier? ==> ResolveRegexp(src, now1) == src.at(now1)
  {
  }

  /**
   * One rule object `{type, required, minLength, maxLength, min, max, regexp, pattern}`.
   * `ty` is the `type` property, any string or absent; a nested pattern is
   * held by its compiled value, which is all its `matches` depends on.
   */
  datatype Config = Config(
    ty: Option<string>,
    required: bool,
    minLength: Bound,
    maxLength: Bound,
    min: Bound,
    max: Bound,
    regexp: Option<RegexSource>,
    pattern: Option<Pattern>)

  /** What a declaration binds: one rule object, or an array of them. */
  datatype RuleSpec = Single(config: Config) | Alternatives(configs: seq<Config>)

  /** A declaration `'@regex <body>'` after construction: its text, its compiled key test and its rule. */
  datatype RegexRule = RegexRule(decl: string, keyRegexp: Regexp, spec: RuleSpec)

  /**
   * A constructed Pattern: `rules` is the declaration map (all of it, regex
   * declarations included), `regexRules` the regex declarations in order,
   * `requiredRules` the names of the required declarations in order.
   */
  datatype Pattern = Pattern(
    rules: seq<(string, RuleSpec)>,
    regexRules: seq<RegexRule>,
    requiredRules: seq<string>)

  /** The prefix that makes a declaration name a key regular expression. */
  const RegexSigil: string := "@regex "

  /** `name.indexOf('@regex ') === 0` */
  predicate IsRegexDecl(name: string)
  {
    |RegexSigil| <= |name| && name[..|RegexSigil|] == RegexSigil
  }

  /** `name.replace('@regex ', '')` for a name that starts with the sigil: its first occurrence is the prefix. */
  function RegexBody(name: string): (body: string)
    requires IsRegexDecl(name)
    ensures RegexSigil + body == name
  {
    name[|RegexSigil|..]
  }

  /** `indexOf` is 0 exactly when the first seven characters are those of the sigil. */
  lemma SigilPrefix(name: string)
    ensures IsRegexDecl(name) <==> |name| >= 7 && forall i :: 0 <= i < 7 ==> name[i] == RegexSigil[i]
  {
    if |name| >= 7 && forall i :: 0 <= i < 7 ==> name[i] == RegexSigil[i] {
      assert name[..|RegexSigil|] == RegexSigil;
    }
  }

  /** Prefixing the sigil to any body gives a regex declaration whose body is that text. */
  lemma SigilRoundTrip(body: string)
    ensures IsRegexDecl(RegexSigil + body) && RegexBody(RegexSigil + body) == body
  {
    assert (RegexSigil + body)[..|RegexSigil|] == RegexSigil;
  }

  /** A rule object with only its `type` set. */
  function Typed(ty: string): (c: Config)
    ensures c.ty == Some(ty) && !c.required
  {
    Config(Some(ty), false, Unset, Unset, Unset, Unset, None, None)
  }
}
