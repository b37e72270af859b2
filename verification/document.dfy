/** The JSON-like documents the remapper transforms. */
module Document {

  /** A JSON value. Numbers are integers here; objects are maps from key to
      value (key order is not modelled); arrays are sequences. */
  datatype Json =
    | JNull
    | JBool(b: bool)
    | JNum(n: int)
    | JStr(s: string)
    | JArr(items: seq<Json>)
    | JObj(fields: map<string, Json>)

  /** An array or an object with no entries: what the empty-parent walk removes
      (index.ts:77 and 80-83). `null` and scalars are not containers. */
  predicate IsEmptyContainer(j: Json) {
    (j.JArr? && |j.items| == 0) || (j.JObj? && |j.fields| == 0)
  }
}
