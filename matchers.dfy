/**
 * The leaf entries of `Pattern.matchers`: string, number, boolean, date and
 * regexp. Each one checks the runtime type of the value first and reports
 * `invalidType` before looking at any bound or regular expression.
 */
module Matchers {
  import opened Wrappers
  import opened JsValues
  import opened Rules
  import opened Diagnostics

  /** `!b || x >= resolved b`: the lower bound is absent, falsy, or met (inclusively). */
  predicate AtLeast(b: Bound, x: int, now: int)
  {
    !Truthy(b) || x >= MatcherRuleValue(b, now)
  }

  /** `!b || x <= resolved b`: the upper bound is absent, falsy, or met (inclusively). */
  predicate AtMost(b: Bound, x: int, now: int)
  {
    !Truthy(b) || x <= MatcherRuleValue(b, now)
  }

  /**
   * The verdict of a two-sided bound check on `x`: it passes exactly when
   * both bounds are met; a missed lower bound is reported even when the
   * upper one is missed too; a missed upper bound is reported otherwise.
   */
  ghost predicate BoundVerdict(o: Outcome, lo: Bound, hi: Bound, x: int, now: int, tooSmall: Diagnostic, tooLarge: Diagnostic)
  {
    && (o.Pass? <==> AtLeast(lo, x, now) && AtMost(hi, x, now))
    && (!AtLeast(lo, x, now) ==> o == Fail(tooSmall))
    && (AtLeast(lo, x, now) && !AtMost(hi, x, now) ==> o == Fail(tooLarge))
  }

  /** The min check followed by the max check, shared by the string, number and date matchers. */
  function CheckBounds(lo: Bound, hi: Bound, x: int, now: int, tooSmall: Diagnostic, tooLarge: Diagnostic): (o: Outcome)
    ensures BoundVerdict(o, lo, hi, x, now, tooSmall, tooLarge)
  {
    if Truthy(lo) && !(x >= MatcherRuleValue(lo, now)) then Fail(tooSmall)
    else if Truthy(hi) && !(x <= MatcherRuleValue(hi, now)) then Fail(tooLarge)
    else Pass
  }

  /** `Pattern.matchers.string`: a string whose length meets `minLength` and `maxLength`. */
  function StringMatcher(c: Config, v: Value, now: int): (o: Outcome)
    ensures !v.Str? ==> o == Fail(InvalidType("string"))
    ensures v.Str? ==> BoundVerdict(o, c.minLength, c.maxLength, |v.s|, now, InvalidMinLength, InvalidMaxLength)
  {
    if !v.Str? then Fail(InvalidType("string"))
    else CheckBounds(c.minLength, c.maxLength, |v.s|, now, InvalidMinLength, InvalidMaxLength)
  }

  /** `Pattern.matchers.number`: a number within `min` and `max`. */
  function NumberMatcher(c: Config, v: Value, now: int): (o: Outcome)
    ensures !v.Num? ==> o == Fail(InvalidType("number"))
    ensures v.Num? ==> BoundVerdict(o, c.min, c.max, v.n, now, InvalidMinValue, InvalidMaxValue)
  {
    if !v.Num? then Fail(InvalidType("number"))
    else CheckBounds(c.min, c.max, v.n, now, InvalidMinValue, InvalidMaxValue)
  }

  /** `Pattern.matchers.boolean`: any boolean, nothing else. */
  function BooleanMatcher(c: Config, v: Value): (o: Outcome)
    ensures o.Pass? <==> v.Bool?
    ensures o.Fail? ==> o.error == InvalidType("boolean")
  {
    if !v.Bool? then Fail(InvalidType("boolean")) else Pass
  }

  /** `Pattern.matchers.date`: a date whose instant is within `min` and `max`. */
  function DateMatcher(c: Config, v: Value, now: int): (o: Outcome)
    ensures !v.Date? ==> o == Fail(InvalidType("date"))
    ensures v.Date? ==> BoundVerdict(o, c.min, c.max, v.ms, now, InvalidMinValue, InvalidMaxValue)
  {
    if !v.Date? then Fail(InvalidType("date"))
    else CheckBounds(c.min, c.max, v.ms, now, InvalidMinValue, InvalidMaxValue)
  }

  /**
   * `Pattern.matchers.regexp`: a string that the resolved regular expression
   * accepts. The type is checked before `regexp` is read, so a rule without
   * one throws only when it meets a string.
   */
  function RegexpMatcher(c: Config, v: Value, now: int): (r: Completion<Outcome>)
    ensures !v.Str? ==> r == Returned(Fail(InvalidType("string")))
    ensures r.Thrown? <==> v.Str? && c.regexp.None?
    ensures v.Str? && c.regexp.Some? ==>
      (r == Returned(Pass) <==> ResolveRegexp(c.regexp.value, now)(v.s)) &&
      (r == Returned(Fail(InvalidRegexp)) <==> !ResolveRegexp(c.regexp.value, now)(v.s))
  {
    if !v.Str? then Returned(Fail(InvalidType("string")))
    else if c.regexp.None? then Thrown
    else if ResolveRegexp(c.regexp.value, now)(v.s) then Returned(Pass)
    else Returned(Fail(InvalidRegexp))
  }

  // ---------------------------------------------------------------------
  // Bounds

  /** Both bounds are inclusive: a value equal to a truthy bound passes that bound's check. */
  lemma BoundEqualPasses(lo: Bound, hi: Bound, x: int, now: int, tooSmall: Diagnostic, tooLarge: Diagnostic)
    requires Truthy(lo) ==> x == MatcherRuleValue(lo, now)
    requires Truthy(hi) ==> x == MatcherRuleValue(hi, now)
    ensures CheckBounds(lo, hi, x, now, tooSmall, tooLarge) == Pass
  {
  }

  /** A literal bound of 0 is falsy, so it is never checked: the rule behaves as if the bound were absent. */
  lemma ZeroLiteralBoundIsSkipped(c: Config, v: Value, now: int)
    ensures NumberMatcher(c.(min := Literal(0)), v, now) == NumberMatcher(c.(min := Unset), v, now)
    ensures NumberMatcher(c.(max := Literal(0)), v, now) == NumberMatcher(c.(max := Unset), v, now)
    ensures DateMatcher(c.(min := Literal(0)), v, now) == DateMatcher(c.(min := Unset), v, now)
    ensures DateMatcher(c.(max := Literal(0)), v, now) == DateMatcher(c.(max := Unset), v, now)
    ensures StringMatcher(c.(minLength := Literal(0)), v, now) == StringMatcher(c.(minLength := Unset), v, now)
    ensures StringMatcher(c.(maxLength := Literal(0)), v, now) == StringMatcher(c.(maxLength := Unset), v, now)
  {
  }

  /**
   * A function-valued bound is resolved when the value is checked: the same
   * number may pass at one moment and fail `invalidMinValue` at another.
   */
  lemma SupplierResolvedAtMatchTime(c: Config, x: int, earlier: int, later: int)
    requires c.min.Supplier? && !Truthy(c.max)
    requires c.min.at(earlier) <= x < c.min.at(later)
    ensures NumberMatcher(c, Num(x), earlier) == Pass
    ensures NumberMatcher(c, Num(x), later) == Fail(InvalidMinValue)
  {
  }

  /** The type comes first: a value of the wrong type is refused with `invalidType`, whatever the bounds say. */
  lemma TypeCheckedBeforeBounds(c: Config, v: Value, now: int)
    ensures !v.Str? ==> StringMatcher(c, v, now) == Fail(InvalidType("string")) &&
                        RegexpMatcher(c, v, now) == Returned(Fail(InvalidType("string")))
    ensures !v.Num? ==> NumberMatcher(c, v, now) == Fail(InvalidType("number"))
    ensures !v.Date? ==> DateMatcher(c, v, now) == Fail(InvalidType("date"))
    ensures !v.Bool? ==> BooleanMatcher(c, v) == Fail(InvalidType("boolean"))
  {
  }
}
