/** JSON values as the token payloads and request bodies carry them. */
module Json {

  datatype Value = Str(s: string) | Num(n: int) | Flag(b: bool) | Null

  /** Python's truth value of a decoded JSON value (`if not email:`). */
  predicate Truthy(v: Value) {
    match v
    case Str(s) => s != []
    case Num(n) => n != 0
    case Flag(b) => b
    case Null => false
  }

  /** `obj.get(key)`: a missing key reads as `None`. */
  function Get(obj: map<string, Value>, key: string): (v: Value)
    ensures key in obj ==> v == obj[key]
    ensures key !in obj ==> v == Null
  {
    if key in obj then obj[key] else Null
  }
}
