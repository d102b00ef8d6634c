/**
 * The JavaScript values a record may hold, as far as the validator can tell
 * them apart. Numbers and dates are integers (a date is its instant in
 * milliseconds); objects are their own-key entries in iteration order.
 */
module JsValues {

  datatype Value =
    | Str(s: string)
    | Num(n: int)
    | Bool(b: bool)
    | Date(ms: int)
    | Obj(fields: seq<(string, Value)>)
    | Arr(items: seq<Value>)
    | Null

  /** A record is the sequence of its (key, value) entries, in `Object.keys` order. */
  type Record = seq<(string, Value)>

  /** No key occurs twice, as in every JavaScript object. */
  ghost predicate DistinctKeys(rec: Record)
  {
    forall i, j :: 0 <= i < j < |rec| ==> rec[i].0 != rec[j].0
  }

  /** Underscore's `_.isObject`: objects, arrays and dates are objects; primitives and null are not. */
  predicate IsObjectLike(v: Value)
  {
    v.Obj? || v.Arr? || v.Date?
  }

  /** Exactly the primitives (strings, numbers, booleans) and null are not objects. */
  lemma ObjectLikeIffNotPrimitive(v: Value)
    ensures IsObjectLike(v) <==> !(v.Str? || v.Num? || v.Bool? || v.Null?)
  {
  }

  /** The decimal text of an array index, as `Object.keys` produces it. */
  function Decimal(n: nat): (r: string)
    ensures |r| > 0
    ensures forall i :: 0 <= i < |r| ==> '0' <= r[i] <= '9'
  {
    if n < 10 then [Digit(n)] else Decimal(n / 10) + [Digit(n % 10)]
  }

  function Digit(d: nat): (c: char)
    requires d < 10
    ensures '0' <= c <= '9'
  {
    ['0', '1', '2', '3', '4', '5', '6', '7', '8', '9'][d]
  }

  /** Reads a string of decimal digits back as a number. */
  function ParseDecimal(s: string): nat
    requires forall i :: 0 <= i < |s| ==> '0' <= s[i] <= '9'
  {
    if s == [] then 0 else ParseDecimal(s[..|s| - 1]) * 10 + ((s[|s| - 1] as int) - ('0' as int))
  }

  /** Array-index keys are unambiguous: the decimal text of an index reads back as that index. */
  lemma {:induction false} DecimalRoundTrip(n: nat)
    ensures ParseDecimal(Decimal(n)) == n
  {
    if n >= 10 {
      var s := Decimal(n);
      assert s[..|s| - 1] == Decimal(n / 10);
      DecimalRoundTrip(n / 10);
    }
  }

  /** Distinct indices have distinct decimal texts, so an array's keys never clash. */
  lemma IndexKeysDistinct(n: nat)
    ensures forall i, j :: 0 <= i < j < n ==> Decimal(i) != Decimal(j)
  {
    forall i, j | 0 <= i < j < n ensures Decimal(i) != Decimal(j) {
      DecimalRoundTrip(i);
      DecimalRoundTrip(j);
    }
  }

  /**
   * `Object.keys(v)` paired with the values: the fields of an object, the
   * indices of an array, and nothing for a date. An array's entries have
   * distinct keys, each the decimal text of its index, so a nested pattern
   * sees each item under its own key.
   */
  function Entries(v: Value): (r: Record)
    requires IsObjectLike(v)
    ensures v.Obj? ==> r == v.fields
    ensures v.Arr? ==> |r| == |v.items| && DistinctKeys(r)
    ensures v.Arr? ==> forall i :: 0 <= i < |r| ==> r[i] == (Decimal(i), v.items[i])
    ensures v.Date? ==> r == []
  {
    match v
    case Obj(fields) => fields
    case Arr(items) =>
      IndexKeysDistinct(|items|);
      seq(|items|, i requires 0 <= i < |items| => (Decimal(i), items[i]))
    case Date(_) => []
  }
}
