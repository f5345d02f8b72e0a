/** The JavaScript values the dialog and error services inspect, with `typeof` and truthiness. */
module JsValues {
  /**
   * A JavaScript value. Numbers are integers here (no NaN, no fractions); arrays and other
   * objects are property maps; a function's body does not matter.
   */
  datatype JsValue =
    | Undefined
    | Null
    | Bool(b: bool)
    | Num(n: int)
    | Str(s: string)
    | Obj(props: map<string, JsValue>)
    | Fun

  /** The `typeof` operator; note that `typeof null` is "object". */
  function TypeOf(v: JsValue): string
  {
    match v
    case Undefined => "undefined"
    case Null => "object"
    case Bool(_) => "boolean"
    case Num(_) => "number"
    case Str(_) => "string"
    case Obj(_) => "object"
    case Fun => "function"
  }

  /** What an `if` accepts: everything except `undefined`, `null`, `false`, 0 and "". */
  predicate Truthy(v: JsValue)
  {
    match v
    case Undefined => false
    case Null => false
    case Bool(b) => b
    case Num(n) => n != 0
    case Str(s) => s != ""
    case Obj(_) => true
    case Fun => true
  }

  /** `_.isObjectLike`: `typeof` is "object" and the value is not `null`. */
  predicate IsObjectLike(v: JsValue)
  {
    TypeOf(v) == "object" && v != Null
  }

  /** Reading property `name` of an object: `undefined` when it has none. */
  function Get(v: JsValue, name: string): (r: JsValue)
    requires v.Obj?
    ensures name !in v.props ==> r == Undefined
  {
    if name in v.props then v.props[name] else Undefined
  }
}
