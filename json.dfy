/**
 * The values that Python's json.loads produces, and the parser itself as an
 * opaque oracle. The model never looks inside a number, so a number is kept
 * as its literal text.
 */
module Json {
  import opened Wrappers

  datatype JsonValue =
    | JNull
    | JBool(b: bool)
    | JNumber(literal: string)
    | JString(str: string)
    | JArray(items: seq<JsonValue>)
    | JObject(fields: map<string, JsonValue>)

  /** A decoded JSON object: a Python dict keyed by strings. */
  type JsonObject = map<string, JsonValue>

  /**
   * json.loads applied to a brace-delimited span. None stands for
   * json.JSONDecodeError. A text that starts with '{' and ends with '}' can
   * only decode to an object, so a successful result is a JsonObject.
   */
  type Parser = string -> Option<JsonObject>
}
