/**
 * `Pattern.errors`: the kinds of failure a test reports. A matcher that does
 * not accept a value returns one of these, or the plain value `false`.
 */
module Diagnostics {

  datatype Diagnostic =
    | FalseResult                 // the value `false`, stored as it is
    | InvalidType(expected: string)
    | InvalidMinLength
    | InvalidMaxLength
    | InvalidMinValue
    | InvalidMaxValue
    | InvalidRegexp
    | InvalidKey(key: string)
    | RequiredNotMatched(key: string)

  /** A diagnostic a matcher can produce about a value (not one about keys). */
  predicate IsValueDiagnostic(d: Diagnostic)
  {
    !d.InvalidKey? && !d.RequiredNotMatched?
  }

  /** What a matcher returns: `true`, or anything else, which the test stores. */
  datatype Outcome = Pass | Fail(error: Diagnostic)

  const InvalidKeyPrefix: string := "Invalid key: no rule found for the key ("
  const RequiredPrefix: string := "Required pattern not matched for the key ("

  /** The message string of a diagnostic about a key. */
  function KeyMessage(d: Diagnostic): string
    requires d.InvalidKey? || d.RequiredNotMatched?
  {
    if d.InvalidKey? then InvalidKeyPrefix + d.key + ")" else RequiredPrefix + d.key + ")"
  }

  /** The message of a key diagnostic names its key: the key is the text between the fixed prefix and the closing parenthesis. */
  lemma KeyMessageNamesKey(d: Diagnostic)
    requires d.InvalidKey? || d.RequiredNotMatched?
    ensures var m, pre := KeyMessage(d), if d.InvalidKey? then InvalidKeyPrefix else RequiredPrefix;
      |pre| < |m| && m[..|pre|] == pre && m[|pre|..|m| - 1] == d.key && m[|m| - 1] == ')'
  {
  }
}
