/** Decoded JSON values as the Python clients see them after `response.json()`,
    with `dict.get(key, default)` and Python truthiness. */
module Json {

  /** A JSON value. Integers and floats are kept apart, as Python keeps them
      apart; a float is recorded by its exact real value. */
  datatype Value =
    | Null
    | Bool(b: bool)
    | Int(i: int)
    | Float(f: real)
    | Str(s: string)
    | Arr(items: seq<Value>)
    | Obj(fields: map<string, Value>)

  /** `m.get(k, default)` */
  function Get(m: map<string, Value>, k: string, default: Value): (v: Value)
    ensures k in m ==> v == m[k]
    ensures k !in m ==> v == default
  {
    if k in m then m[k] else default
  }

  /** `bool(v)` in Python: None, False, zero, and empty strings, lists and dicts are false. */
  predicate Truthy(v: Value)
  {
    match v
    case Null => false
    case Bool(b) => b
    case Int(i) => i != 0
    case Float(f) => f != 0.0
    case Str(s) => s != ""
    case Arr(items) => items != []
    case Obj(fields) => fields != map[]
  }

  /** `a or b` in Python: the first operand when it is truthy, else the second. */
  function Or(a: Value, b: Value): (r: Value)
    ensures Truthy(a) ==> r == a
    ensures !Truthy(a) ==> r == b
  {
    if Truthy(a) then a else b
  }

  /** A list of Python strings as a JSON array. */
  function Strs(ss: seq<string>): (v: Value)
    ensures v.Arr? && |v.items| == |ss|
    ensures forall i :: 0 <= i < |ss| ==> v.items[i] == Str(ss[i])
  {
    Arr(seq(|ss|, i requires 0 <= i < |ss| => Str(ss[i])))
  }
}
