/** The JSON values a request body is decoded into, and the Python
    truthiness the route handlers apply to them. */
module Json {

  /** A decoded JSON value. Python's decoder yields `int` for integral
      numbers and `float` for the rest; finite floats are kept as reals, and
      the non-standard `NaN`, `Infinity` and `-Infinity` the decoder also
      accepts get constructors of their own. */
  datatype Value =
    | Null
    | Bool(b: bool)
    | Int(i: int)
    | Real(r: real)
    | NotANumber
    | Infinity(negative: bool)
    | Str(s: string)
    | Arr(items: seq<Value>)
    | Obj(members: map<string, Value>)

  /** A request body: a JSON object, keyed by field name. */
  type Body = map<string, Value>

  /** Python truthiness of a decoded value: `not v` is its negation.
      `None`, `False`, zero, and empty strings, lists and dicts are false. */
  predicate Truthy(v: Value) {
    match v
    case Null => false
    case Bool(b) => b
    case Int(i) => i != 0
    case Real(r) => r != 0.0
    case NotANumber => true
    case Infinity(_) => true
    case Str(s) => s != ""
    case Arr(items) => items != []
    case Obj(members) => members != map[]
  }

  /** `body.get(key, default)` on a decoded object. */
  function GetOr(body: Body, key: string, default: Value): Value {
    if key in body then body[key] else default
  }
}
