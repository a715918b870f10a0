/**
 * JSON values as the manifest code handles them: a manifest, its settings
 * and its icon entries are plain objects whose properties are looked up by
 * name. A property that an object does not have reads as `undefined`.
 */
module Json {

  /** A JSON value; numbers are limited to integers. */
  datatype Value =
    | Null
    | Bool(b: bool)
    | Num(n: int)
    | Str(s: string)
    | Arr(items: seq<Value>)
    | Obj(fields: map<string, Value>)

  /** A plain object: its properties by name. Property order is not modelled. */
  type Object = map<string, Value>

  /** JavaScript truthiness of a value: `null`, `false`, `0` and `""` are falsy. */
  predicate Truthy(v: Value)
  {
    match v
    case Null => false
    case Bool(b) => b
    case Num(n) => n != 0
    case Str(s) => |s| > 0
    case Arr(_) => true
    case Obj(_) => true
  }

  /** `o[key]` is truthy; a missing property is `undefined`, which is falsy. */
  predicate PropertyTruthy(o: Object, key: string)
  {
    key in o && Truthy(o[key])
  }
}
