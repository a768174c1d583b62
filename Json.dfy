/** The values `json.loads` produces: `None`, booleans, numbers, strings,
    lists and dictionaries with string keys. */
module Json {

  datatype JsonValue =
    | JNull
    | JBool(b: bool)
    | JNumber(n: real)
    | JString(s: string)
    | JArray(elems: seq<JsonValue>)
    | JObject(fields: map<string, JsonValue>)
}
