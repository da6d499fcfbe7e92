/** The JavaScript values a request body carries and the coercions the
    controller relies on: truthiness, template-literal text, `Number(...)` of a
    string, and the loose `<` between a value and a string. */
module JsValues {
  import opened Text

  /** A value of a JSON request body. Numbers are integers in this model. */
  datatype Value = Undefined | Null | Bool(b: bool) | Number(n: int) | Str(s: string)

  /** `undefined`, `null`, `false`, `0` and `""` are falsy; everything else is truthy. */
  predicate Truthy(v: Value)
  {
    match v
    case Undefined => false
    case Null => false
    case Bool(b) => b
    case Number(n) => n != 0
    case Str(s) => s != ""
  }

  /** `String(n)` of an integer. */
  function IntToString(n: int): string
  {
    if n < 0 then "-" + NatToString(-n) else NatToString(n)
  }

  /** `${v}`: the text a template literal inserts for v. */
  function ToText(v: Value): string
  {
    match v
    case Undefined => "undefined"
    case Null => "null"
    case Bool(b) => if b then "true" else "false"
    case Number(n) => IntToString(n)
    case Str(s) => s
  }

  /** A JavaScript number that is an integer, or NaN. */
  datatype JsNumber = Num(n: int) | NaN

  /** `Number(s)` for a string: a digit string (the empty string gives 0), or a
      sign followed by at least one digit; any other text is NaN. */
  function ToNumber(s: string): JsNumber
  {
    if IsDigits(s) then Num(DigitsValue(s))
    else if |s| >= 2 && s[0] == '-' && IsDigits(s[1..]) then Num(0 - DigitsValue(s[1..]) as int)
    else if |s| >= 2 && s[0] == '+' && IsDigits(s[1..]) then Num(DigitsValue(s[1..]))
    else NaN
  }

  /** Reading back the text of an integer gives the integer. */
  lemma ToNumberOfIntToString(n: int)
    ensures ToNumber(IntToString(n)) == Num(n)
  {
    if n < 0 {
      var s := IntToString(n);
      assert s[1..] == NatToString(-n);
      assert !IsDigits(s) by { assert !IsDigit(s[0]); }
    }
  }

  /** `Number(v)` for a non-string value. */
  function NumberOf(v: Value): JsNumber
  {
    match v
    case Undefined => NaN
    case Null => Num(0)
    case Bool(b) => Num(if b then 1 else 0)
    case Number(n) => Num(n)
    case Str(s) => ToNumber(s)
  }

  /** `x < k` against a number: false whenever x is NaN. */
  predicate Below(x: JsNumber, k: int) { x.Num? && x.n < k }

  /** `x > k` against a number: false whenever x is NaN. */
  predicate Above(x: JsNumber, k: int) { x.Num? && x.n > k }

  /** `v < t` for a string t: text order when v is a string too, otherwise a
      numeric comparison that is false when either side is NaN. */
  predicate LooseLess(v: Value, t: string)
  {
    if v.Str? then LexLess(v.s, t)
    else
      var x, y := NumberOf(v), ToNumber(t);
      x.Num? && y.Num? && x.n < y.n
  }

  /** A non-string value is never below a text that is not a numeral, such as
      an `HH:MM` time. */
  lemma LooseLessNonString(v: Value, t: string)
    requires !v.Str? && ToNumber(t).NaN?
    ensures !LooseLess(v, t)
  {
  }

  /** `req.body.data`: a plain object of named values. */
  type Body = map<string, Value>

  /** `obj[key]`: an absent key reads as `undefined`. */
  function Get(b: Body, key: string): Value
  {
    if key in b then b[key] else Undefined
  }

  /** How an expression ends: with a value, or by throwing a TypeError (reading a
      property of `undefined`, calling `split` on a non-string, indexing `null`). */
  datatype Completion<T> = Normal(value: T) | TypeError
}
