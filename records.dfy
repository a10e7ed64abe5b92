/** JSON values as `json.load` returns them, and the records of the establishment store. */
module Records {
  datatype Json =
    | JNull
    | JBool(b: bool)
    | JNumber(n: real)
    | JString(str: string)
    | JArray(items: seq<Json>)
    | JObject(members: map<string, Json>)

  /** One JSON object of `stores.json`: an establishment record, keyed by field name. */
  type Record = map<string, Json>
}
