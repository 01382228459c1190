/** Values shared by the token managers and the configuration helpers: the
    usual Option/Result wrappers and a model of the JSON-like Python values
    (dicts keyed by strings) that token responses and service credentials are
    made of. */
module Values {

  datatype Option<+T> = None | Some(value: T)

  /** A call that either returns a value or raises an exception. */
  datatype Result<+T, +E> = Ok(value: T) | Err(error: E)

  /** A Python value as it appears in a decoded JSON document. Floats are not
      modelled; numbers are integers. */
  datatype Value =
    | Null
    | Bool(b: bool)
    | Int(i: int)
    | Str(s: string)
    | List(items: seq<Value>)
    | Dict(entries: map<string, Value>)

  /** Python truthiness: None, False, 0 and empty containers are false. */
  predicate Truthy(v: Value) {
    match v
    case Null => false
    case Bool(b) => b
    case Int(i) => i != 0
    case Str(s) => s != ""
    case List(items) => items != []
    case Dict(entries) => entries != map[]
  }

  /** `d.get(key)`: the value stored at `key`, or None when the key is absent
      (or when the key itself is None, which no JSON object holds). */
  function Get(d: map<string, Value>, key: Option<string>): (v: Value)
    ensures key.Some? && key.value in d ==> v == d[key.value]
    ensures key.None? || key.value !in d ==> v == Null
  {
    match key
    case None => Null
    case Some(k) => if k in d then d[k] else Null
  }
}
