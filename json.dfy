/**
  An abstract `serde_json::Value`. Numbers are kept as integers (only their identity matters
  here); an object is a map from member names to values, as serde_json's default map is.
*/
module Json {
  import opened Wrappers

  datatype Json =
    | Null
    | Bool(b: bool)
    | Number(n: int)
    | Str(s: string)
    | Array(items: seq<Json>)
    | Object(members: map<string, Json>)

  /** `Value::get(key)` with a string key: the member of an object, nothing for any other value. */
  function Get(v: Json, key: string): (r: Option<Json>)
    ensures r.Some? <==> v.Object? && key in v.members
    ensures r.Some? ==> r.value == v.members[key]
  {
    if v.Object? && key in v.members then Some(v.members[key]) else None
  }

  /** `Value::as_str()`: the text of a string value. */
  function AsStr(v: Json): (r: Option<string>)
    ensures r.Some? <==> v.Str?
    ensures r.Some? ==> r.value == v.s
  {
    if v.Str? then Some(v.s) else None
  }
}
