/** The values that appear in the parsed data files and in `any`-typed
    product fields, with the JavaScript conversions the models use:
    truthiness, `String(v)`, `Number(v)` and `===`.
    Numbers are integers; JSON.stringify comparisons of two values are
    structural equality of these values (objects keep their key order). */
module Json {
  import opened Wrappers
  import opened Records
  import Text

  datatype Json =
    | JNull
    | JBool(b: bool)
    | JNum(n: int)
    | JStr(s: string)
    | JArr(items: seq<Json>)
    | JObj(fields: Record<Json>)

  /** A plain object with `any`-typed fields. */
  type Obj = Record<Json>

  predicate IsPrimitive(v: Json) {
    !v.JArr? && !v.JObj?
  }

  /** JavaScript truthiness (`if (v)`, `v || w`, `!v`). */
  predicate Truthy(v: Json) {
    match v
    case JNull => false
    case JBool(b) => b
    case JNum(n) => n != 0
    case JStr(s) => s != ""
    case JArr(_) => true
    case JObj(_) => true
  }

  /** `a === b` (and SameValueZero, as `includes` uses, for these values).
      Arrays and objects are equal only to themselves; no two of the
      values compared in the models are the same array or object. */
  predicate StrictEquals(a: Json, b: Json) {
    IsPrimitive(a) && a == b
  }

  /** `arr.includes(v)`. */
  predicate Includes(arr: seq<Json>, v: Json) {
    exists i :: 0 <= i < |arr| && StrictEquals(arr[i], v)
  }

  lemma IncludesString(arr: seq<Json>, s: string)
    ensures Includes(arr, JStr(s)) <==> JStr(s) in arr
  {
    if JStr(s) in arr {
      var i :| 0 <= i < |arr| && arr[i] == JStr(s);
      assert StrictEquals(arr[i], JStr(s));
    }
  }

  /** `String(v)`. Arrays print their elements joined by commas, with
      `null` elements printed as nothing. */
  function ToStr(v: Json): string
    decreases v
  {
    match v
    case JNull => "null"
    case JBool(b) => if b then "true" else "false"
    case JNum(n) => Text.IntToDecimal(n)
    case JStr(s) => s
    case JArr(items) =>
      Text.Join(seq(|items|, i requires 0 <= i < |items| => if items[i] == JNull then "" else ToStr(items[i])), ",")
    case JObj(_) => "[object Object]"
  }

  lemma ToStrOfString(s: string)
    ensures ToStr(JStr(s)) == s
  {
  }

  /** `Number(s)` for a string: surrounding whitespace is ignored, the empty
      string is 0, an optionally signed run of decimal digits is its value,
      and anything else is `None` (NaN, or a number that is not an integer). */
  function StringToNumber(s: string): (r: Option<int>)
    ensures Text.Trim(s) == "" ==> r == Some(0)
  {
    var t := Text.Trim(s);
    if t == "" then Some(0)
    else if t[0] == '-' && |t| > 1 && Text.AllDigits(t[1..]) then Some(0 - Text.DecimalValue(t[1..]) as int)
    else if t[0] == '+' && |t| > 1 && Text.AllDigits(t[1..]) then Some(Text.DecimalValue(t[1..]))
    else if Text.AllDigits(t) then Some(Text.DecimalValue(t))
    else None
  }

  /** `Number(v)`; `None` stands for NaN. */
  function ToNumber(v: Json): Option<int> {
    match v
    case JNull => Some(0)
    case JBool(b) => Some(if b then 1 else 0)
    case JNum(n) => Some(n)
    case JStr(s) => StringToNumber(s)
    case JArr(_) => StringToNumber(ToStr(v))
    case JObj(_) => None
  }

  /** What `<` first turns an array or an object into. */
  function ToPrimitive(v: Json): Json {
    if v.JArr? || v.JObj? then JStr(ToStr(v)) else v
  }

  /** `a < b`: two strings compare by code units; anything else compares
      as numbers, and NaN is never less or greater. */
  predicate LessThan(a: Json, b: Json) {
    var pa := ToPrimitive(a);
    var pb := ToPrimitive(b);
    if pa.JStr? && pb.JStr? then Text.StrLess(pa.s, pb.s)
    else
      var na := ToNumber(pa);
      var nb := ToNumber(pb);
      na.Some? && nb.Some? && na.value < nb.value
  }

  /** No value is less than itself. */
  lemma LessThanIrreflexive(v: Json)
    ensures !LessThan(v, v)
  {
    var p := ToPrimitive(v);
    if p.JStr? {
      Text.StrLessIrreflexive(p.s);
    }
  }

  /** Two strings compare by code units, two numbers by value. */
  lemma LessThanSameType(a: Json, b: Json)
    ensures a.JStr? && b.JStr? ==> (LessThan(a, b) <==> Text.StrLess(a.s, b.s))
    ensures a.JNum? && b.JNum? ==> (LessThan(a, b) <==> a.n < b.n)
  {
  }

  /** A non-empty run of digits converts to its decimal value. */
  lemma NumberOfDigits(s: string)
    requires s != [] && Text.AllDigits(s)
    ensures StringToNumber(s) == Some(Text.DecimalValue(s))
  {
    Text.TrimOfDigits(s);
    assert Text.IsDigit(s[0]);
  }

  /** The decimal text of a natural number converts back to it. */
  lemma NumberOfDecimal(n: nat)
    ensures StringToNumber(Text.NatToDecimal(n)) == Some(n)
  {
    var s := Text.NatToDecimal(n);
    NumberOfDigits(s);
    Text.DecimalRoundTrip(n);
  }
}
