/** Values exchanged between the loader, the vectorizer and the HTTP layer:
    optional values, decoded JSON, metadata dictionaries and opaque scores. */
module Values {

  datatype Option<+T> = None | Some(value: T)

  /** The outcome of an operation that may raise: a value, or the exception's message. */
  datatype Result<+T> = Ok(value: T) | Err(error: string)

  /** A JSON value as Python's `json` module decodes it: objects become dicts,
      integral numbers `int`, other numbers `float`. */
  datatype Json =
    | JNull
    | JBool(b: bool)
    | JInt(i: int)
    | JFloat(f: real)
    | JStr(s: string)
    | JArray(items: seq<Json>)
    | JObject(fields: map<string, Json>)

  /** A metadata dictionary (`Dict[str, Any]`) attached to a document or a retrieved node. */
  type Metadata = map<string, Json>

  /** A similarity score produced by the vector store. It is never inspected
      by the modelled code, only copied. */
  datatype Score = Score(raw: real)

  /** Python truthiness of a decoded JSON value (`bool(x)`). */
  predicate Truthy(j: Json)
  {
    match j
    case JNull => false
    case JBool(b) => b
    case JInt(i) => i != 0
    case JFloat(f) => f != 0.0
    case JStr(s) => s != ""
    case JArray(items) => items != []
    case JObject(fields) => fields != map[]
  }

  /** `d.get(key, default)` on a dictionary. */
  function Get(d: Metadata, key: string, default: Json): (r: Json)
    ensures key in d ==> r == d[key]
    ensures key !in d ==> r == default
  {
    if key in d then d[key] else default
  }
}
