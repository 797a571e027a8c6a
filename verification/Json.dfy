/** JSON values as `serde_json` holds them: object members form a map, and a number is a
    non-negative integer, a negative integer or a float (a real here, so rounding is not
    part of the model). */
module Json {
  import opened Wrappers

  datatype Num = PosInt(u: nat) | NegInt(n: int) | Float(r: real)

  datatype Value =
    | Null
    | Bool(b: bool)
    | Number(num: Num)
    | Str(s: string)
    | Arr(items: seq<Value>)
    | Obj(fields: map<string, Value>)

  /** `value.get(key)` with a string key: only objects have members. */
  function Get(v: Value, key: string): Option<Value> {
    if v.Obj? && key in v.fields then Some(v.fields[key]) else None
  }
}
