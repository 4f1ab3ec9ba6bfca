/**
 * The JavaScript values the router sees in a parsed JSON request body, and
 * the three JavaScript operations it applies to them: truthiness (`!v`),
 * `Number.isInteger(v)` and `Number(v)`.
 *
 * A number is an exact `real`. JSON text cannot produce NaN; a literal too
 * large for a float, which JavaScript reads as an infinity, is a large real
 * here.
 */
module Json {

  datatype Value =
    | Absent              // the property is not in the body: `undefined`
    | Null
    | Bool(b: bool)
    | Num(x: real)
    | Str(s: string)
    | Compound(text: string)  // an array or an object, with its string conversion
                              // (`String(v)`), taken to be all that `xss`,
                              // `isWebUri` and `Number(v)` read of it

  /** `!!v`: the falsy values are undefined, null, false, 0 (and -0) and the empty string. */
  predicate Truthy(v: Value) {
    match v
    case Absent => false
    case Null => false
    case Bool(b) => b
    case Num(x) => x != 0.0
    case Str(s) => s != []
    case Compound(_) => true
  }

  /** `Number.isInteger(v)`: true only of a number with no fractional part. */
  predicate IsInteger(v: Value) {
    v.Num? && v.x.Floor as real == v.x
  }

  /** A JavaScript number as `Number(...)` may produce it. */
  datatype JsNumber = Finite(x: real) | NaN | Infinity(negative: bool)

  /**
   * `Number(v)`. Undefined, null, booleans and numbers convert by fixed rules;
   * strings, arrays and objects go through JavaScript's text-to-number
   * grammar, which is `parse` here.
   */
  function ToNumber(v: Value, parse: Value -> JsNumber): JsNumber
  {
    match v
    case Absent => NaN
    case Null => Finite(0.0)
    case Bool(b) => Finite(if b then 1.0 else 0.0)
    case Num(x) => Finite(x)
    case Str(_) => parse(v)
    case Compound(_) => parse(v)
  }
}
