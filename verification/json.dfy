/** The part of a `serde_json::Value` the reply decoders look at, with the
    lookup operations the source uses on it. Numbers are kept as integers;
    no decoder reads one. */
module Json {
  import opened Wrappers

  datatype Json =
    | Null
    | Bool(b: bool)
    | Number(n: int)
    | Str(str: string)
    | Arr(items: seq<Json>)
    | Obj(fields: map<string, Json>)

  /** `value[i]`: the element, or `Null` when the value is not an array or
      the index is past its end. */
  function At(j: Json, i: nat): Json {
    if j.Arr? && i < |j.items| then j.items[i] else Null
  }

  /** `value.get(key)`: the member of an object, if present. */
  function Get(j: Json, key: string): Option<Json> {
    if j.Obj? && key in j.fields then Some(j.fields[key]) else None
  }

  /** `value.as_str()`. */
  function AsStr(j: Json): Option<string> {
    if j.Str? then Some(j.str) else None
  }

  /** `value.get(key)` followed by `as_str()`. */
  function GetStr(j: Json, key: string): Option<string> {
    match Get(j, key)
    case Some(v) => AsStr(v)
    case None => None
  }
}
