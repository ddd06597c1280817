/**
 * The Python values that `json.loads` produces, as far as the quiz service
 * inspects them: `isinstance(v, dict)`, `"mcqs" in v`, `len(v)` and `bool(v)`.
 */
module Json {
  import opened Wrappers

  /**
   * A decoded JSON value. JSON objects become Python dicts, so an object is a
   * map from keys to values (a repeated key keeps its last value).
   */
  datatype JsonValue =
    | JNull
    | JBool(b: bool)
    | JNumber(n: real)
    | JString(s: string)
    | JArray(items: seq<JsonValue>)
    | JObject(fields: map<string, JsonValue>)

  /** The Python empty list `[]`. */
  const EmptyList: JsonValue := JArray([])

  /**
   * Python's `len(v)`: defined for strings, lists and dicts; `None` stands for
   * the `TypeError` that `len` raises on numbers, booleans and `None`.
   */
  function Len(v: JsonValue): (r: Option<nat>)
    ensures r.Some? <==> (v.JString? || v.JArray? || v.JObject?)
    ensures v.JArray? ==> r == Some(|v.items|)
  {
    match v
    case JString(s) => Some(|s|)
    case JArray(items) => Some(|items|)
    case JObject(fields) => Some(|fields|)
    case _ => None
  }

  /** Python's `bool(v)`. */
  predicate Truthy(v: JsonValue) {
    match v
    case JNull => false
    case JBool(b) => b
    case JNumber(n) => n != 0.0
    case JString(s) => s != ""
    case JArray(items) => items != []
    case JObject(fields) => fields != map[]
  }

  /** A value `len` accepts and finds non-empty. */
  predicate SizedNonEmpty(v: JsonValue) {
    Len(v).Some? && Len(v).value > 0
  }

  /** A value that is sized and non-empty is truthy, and `[]` is not. */
  lemma SizedNonEmptyIsTruthy(v: JsonValue)
    ensures SizedNonEmpty(v) ==> Truthy(v)
    ensures !Truthy(EmptyList)
  {
  }
}
