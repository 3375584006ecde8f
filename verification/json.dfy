/** JSON values as `json.load` produces them, with the two Python built-ins
    the replay tool applies to them: truthiness and `len()`. */
module Json {
  import opened Wrappers

  /** A decoded JSON document. Objects are Python dicts; their key order
      plays no part in anything the model inspects, so they are maps.
      Integers and floats are both `Num`. */
  datatype Json =
    | Null
    | Bool(b: bool)
    | Num(x: real)
    | Str(s: string)
    | Arr(items: seq<Json>)
    | Obj(fields: map<string, Json>)

  /** Python truthiness: `None`, `False`, zero and empty containers are false. */
  predicate Truthy(j: Json) {
    match j
    case Null => false
    case Bool(b) => b
    case Num(x) => x != 0.0
    case Str(s) => |s| > 0
    case Arr(items) => |items| > 0
    case Obj(fields) => |fields| > 0
  }

  /** Python `len()`: defined on strings, lists and dicts; `None` stands for
      the `TypeError` it raises on numbers, booleans and `None`. */
  function Len(j: Json): (r: Option<nat>)
    ensures r.Some? <==> (j.Str? || j.Arr? || j.Obj?)
    ensures j.Arr? ==> r == Some(|j.items|)
    ensures r.Some? ==> (r.value > 0 <==> Truthy(j))
  {
    match j
    case Str(s) => Some(|s|)
    case Arr(items) => Some(|items|)
    case Obj(fields) => Some(|fields|)
    case _ => None
  }

  /** `key in j` for a dict `j`; false for every other kind of value. */
  predicate HasKey(j: Json, key: string) {
    j.Obj? && key in j.fields
  }
}
