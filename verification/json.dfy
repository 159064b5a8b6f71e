/** JSON values as the Python side sees them after `request.get_json()`,
    together with Python's truthiness test (`if not data`). */
module Json {

  /** A parsed JSON document: `null`, booleans, numbers, strings, arrays
      and objects (a Python dict, so keys are unique). */
  datatype Value =
    | Null
    | Bool(b: bool)
    | Num(n: real)
    | Str(s: string)
    | Array(elems: seq<Value>)
    | Object(members: map<string, Value>)

  /** Python truthiness: `None`, `False`, zero, the empty string, the empty
      list and the empty dict are false; everything else is true. */
  predicate Truthy(v: Value) {
    match v
    case Null => false
    case Bool(b) => b
    case Num(n) => n != 0.0
    case Str(s) => s != ""
    case Array(a) => |a| > 0
    case Object(m) => |m| > 0
  }

  /** The falsy values are exactly one per kind of value, and no nonempty
      container is falsy, whatever it holds. */
  lemma FalsyValues(v: Value)
    ensures !Truthy(v) <==> v in {Null, Bool(false), Num(0.0), Str(""), Array([]), Object(map[])}
  {
    match v
    case Object(m) =>
      if |m| == 0 { assert m == map[]; }
    case Array(a) =>
      if |a| == 0 { assert a == []; }
    case _ =>
  }
}
