/** A JSON value as `serde_json` hands it over, already parsed. */
module Json {
  datatype Value =
    | Null
    | Bool(b: bool)
    | Number(n: int)
    | String(s: string)
    | Array(items: seq<Value>)
    | Object(fields: map<string, Value>)

  /** `value[key]`: the member of an object, and `Null` for a missing member
      or a value that is not an object. */
  function Index(v: Value, key: string): (r: Value)
    ensures v.Object? && key in v.fields ==> r == v.fields[key]
    ensures !(v.Object? && key in v.fields) ==> r == Null
  {
    if v.Object? && key in v.fields then v.fields[key] else Null
  }

  /** Whether `map[key]` on an object's member map is defined: indexing a
      `serde_json::Map` by a key it lacks panics, unlike indexing a `Value`. */
  predicate HasMember(v: Value, key: string) {
    v.Object? && key in v.fields
  }
}
