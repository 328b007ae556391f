/** JSON values as `json.load` returns them, and the Python operations the code applies to them. */
module JsonValues {

  /** A decoded JSON document. Numbers are integers here; no key of the modelled records holds
      a fractional number that the code inspects. */
  datatype Json =
    | JNull
    | JBool(b: bool)
    | JNum(n: int)
    | JStr(s: string)
    | JArr(items: seq<Json>)
    | JObj(fields: map<string, Json>)

  /** A Python dict with string keys. */
  type Object = map<string, Json>

  /** A year file: the list of holiday records, in file order. */
  type Dataset = seq<Json>

  /** Python truthiness of a decoded value. */
  predicate Truthy(j: Json) {
    match j
    case JNull => false
    case JBool(b) => b
    case JNum(n) => n != 0
    case JStr(s) => s != []
    case JArr(items) => items != []
    case JObj(fields) => fields != map[]
  }

  /** `o.get(k)`: the value under `k`, None (null) when absent. */
  function Get(o: Object, k: string): Json {
    if k in o then o[k] else JNull
  }

  /** The fields of an object, nothing for any other value. */
  function Fields(j: Json): Object {
    match j
    case JObj(o) => o
    case _ => map[]
  }
}
