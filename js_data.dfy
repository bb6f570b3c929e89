/** The JavaScript values the frontend routines inspect: numbers with their
    special values, and the values of a parsed JSON request body. */
module JsData {

  /** A JavaScript number. Finite values are exact reals; rounding of
      floating point is not modelled. */
  datatype JsNumber = Finite(x: real) | NaN | PosInfinity | NegInfinity

  /** `Math.round` on a finite number: the nearest integer, halves upward. */
  function Round(x: real): (n: int)
    ensures n as real - 0.5 <= x < n as real + 0.5
  {
    (x + 0.5).Floor
  }

  /** A value of a JSON request body. Array elements are strings. */
  datatype JsValue =
    | JsUndefined
    | JsNull
    | JsBool(b: bool)
    | JsNum(n: JsNumber)
    | JsStr(s: string)
    | JsArray(items: seq<string>)
    | JsObject

  /** `!v`: `undefined`, `null`, `false`, `0`, `NaN` and `""` are falsy;
      arrays and objects, even empty ones, are not. */
  predicate Falsy(v: JsValue) {
    match v
    case JsUndefined => true
    case JsNull => true
    case JsBool(b) => !b
    case JsNum(n) => n == NaN || n == Finite(0.0)
    case JsStr(s) => |s| == 0
    case JsArray(_) => false
    case JsObject => false
  }
}
