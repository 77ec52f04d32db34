/** The JavaScript values that travel through the service: JSON request bodies,
    Firestore document fields and the objects the service builds from them. */
module JsValue {

  /** A JSON value. Numbers are modelled as integers. */
  datatype Value =
    | Null
    | Bool(b: bool)
    | Num(n: int)
    | Str(s: string)
    | Arr(items: seq<Value>)
    | Obj(fields: map<string, Value>)

  /** A plain object: field name to value. A field that is not a key is `undefined`. */
  type Record = map<string, Value>

  /** JavaScript truthiness: `null`, `false`, `0` and `""` are falsy; every array
      and every object, even an empty one, is truthy. */
  predicate Truthy(v: Value) {
    match v
    case Null => false
    case Bool(b) => b
    case Num(n) => n != 0
    case Str(s) => s != ""
    case Arr(_) => true
    case Obj(_) => true
  }

  /** The expression `r.key || fallback`. */
  function OrElse(r: Record, key: string, fallback: Value): Value {
    if key in r && Truthy(r[key]) then r[key] else fallback
  }

  /** The object literal `{ ...base, ...over }`: every field of `over`, and the
      fields of `base` that `over` does not mention. */
  function Spread(base: Record, over: Record): Record {
    base + over
  }

  /** The reference object `{ name: '', url: '' }` used as a default for origin and location. */
  const EmptyReference: Value := Obj(map["name" := Str(""), "url" := Str("")])
}
