/** The JSON values the two pipelines receive from `json.loads`. */
module JsonValues {
  /** A JSON value. Numbers are kept as integers; floating point is not part
      of this model. Objects are maps, so their key order is not kept. */
  datatype Json =
    | JNull
    | JBool(b: bool)
    | JNumber(n: int)
    | JString(s: string)
    | JArray(items: seq<Json>)
    | JObject(fields: map<string, Json>)
}
