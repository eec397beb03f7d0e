/** Parsed JSON values and the JavaScript truthiness the source tests them
    with (`if (pkg && ...)`, `a || b`). */
module Json {
  import opened Wrappers

  datatype Json =
    | JNull
    | JBool(b: bool)
    | JNum(n: real)
    | JStr(s: string)
    | JArr(items: seq<Json>)
    | JObj(props: map<string, Json>)

  /** JavaScript truthiness of a JSON value. */
  predicate Truthy(j: Json) {
    match j
    case JNull => false
    case JBool(b) => b
    case JNum(n) => n != 0.0
    case JStr(s) => s != ""
    case JArr(_) => true
    case JObj(_) => true
  }

  /** Truthiness of a value that may be `undefined` (`None`). */
  predicate TruthyOpt(v: Option<Json>) {
    v.Some? && Truthy(v.value)
  }

  /** `j[key]` on a value that is neither `null` nor `undefined`; only objects
      have own keys here, so anything else yields `undefined`. */
  function Get(j: Json, key: string): Option<Json> {
    if j.JObj? && key in j.props then Some(j.props[key]) else None
  }

  /** JavaScript `a || b`. */
  function Or(a: Option<Json>, b: Option<Json>): Option<Json> {
    if TruthyOpt(a) then a else b
  }
}
