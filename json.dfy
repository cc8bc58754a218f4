/** The parsed contents of the server's JSON status and metadata files:
    flat objects whose values are scalars. */
module Json {

  /** A JSON scalar. Floating-point numbers are carried as reals, without
      their rounding. */
  datatype Value = Null | Bool(b: bool) | Int(i: int) | Real(r: real) | Str(s: string)

  /** A JSON object, as the dict json.loads returns. */
  type Fields = map<string, Value>

  /** dict.get(key, default) */
  function GetOr(fields: Fields, key: string, default: Value): Value {
    if key in fields then fields[key] else default
  }

  /** dict.get(key): the stored value, or None. */
  function Get(fields: Fields, key: string): Value {
    GetOr(fields, key, Null)
  }

  /** Python truthiness of a JSON value. */
  predicate Truthy(v: Value) {
    match v
    case Null => false
    case Bool(b) => b
    case Int(i) => i != 0
    case Real(r) => r != 0.0
    case Str(s) => s != ""
  }
}
