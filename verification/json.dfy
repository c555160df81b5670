/** Parsed JSON values as the client sees them after `JSON.parse`, and
    JavaScript truthiness on them. */
module Json {

  /** A JSON value. Numbers are kept as integers; arrays and objects are
      kept whole but only their truthiness matters to the client. */
  datatype Json =
    | JNull
    | JBool(b: bool)
    | JNumber(n: int)
    | JString(s: string)
    | JArray(items: seq<Json>)
    | JObject(fields: map<string, Json>)

  /** A parsed profile: a JSON object, keyed by field name. */
  type JsonObject = map<string, Json>

  /** `!!v`: `null`, `false`, `0` and `""` are falsy, all else is truthy. */
  predicate Truthy(v: Json) {
    match v
    case JNull => false
    case JBool(b) => b
    case JNumber(n) => n != 0
    case JString(s) => s != ""
    case JArray(_) => true
    case JObject(_) => true
  }

  /** `o[k]`: a missing field reads as `undefined`, which behaves as `null` here. */
  function Get(o: JsonObject, k: string): (v: Json)
    ensures k !in o ==> v == JNull
    ensures k in o ==> v == o[k]
  {
    if k in o then o[k] else JNull
  }

  /** `v || ''`. */
  function OrEmpty(v: Json): (r: Json)
    ensures Truthy(v) ==> r == v
    ensures !Truthy(v) ==> r == JString("")
  {
    if Truthy(v) then v else JString("")
  }
}
