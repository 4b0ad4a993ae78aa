/**
  The values the gateway receives as parsed JSON (request bodies, backend replies)
  and the Python values of a configuration dictionary. Python's `float` is kept
  apart from `int` only where the code can tell the difference: a finite number,
  NaN or an infinity.
 */
module Json {

  datatype Float = Finite(x: real) | NaN | PosInf | NegInf

  datatype Value =
    | Null
    | Bool(b: bool)
    | Num(n: Float)
    | Str(s: string)
    | Arr(items: seq<Value>)
    | Obj(fields: map<string, Value>)

  /** Python truthiness (`bool(v)`). */
  predicate Truthy(v: Value) {
    match v
    case Null => false
    case Bool(b) => b
    case Num(n) => n != Finite(0.0)
    case Str(s) => s != []
    case Arr(items) => items != []
    case Obj(fields) => fields != map[]
  }

  /** `d.get(key, default)` on a dictionary. */
  function GetOr(fields: map<string, Value>, key: string, default: Value): Value {
    if key in fields then fields[key] else default
  }
}
