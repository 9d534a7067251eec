/** Parsed JSON values, as `JSON.parse` or `chrome.storage` hand a configuration to the
    validators, and the JavaScript notions the validators apply to them. Numbers are modelled
    as integers. */
module Json {
  import opened Wrappers

  datatype Json =
    | JNull
    | JBool(b: bool)
    | JNum(n: int)
    | JStr(s: string)
    | JArr(items: seq<Json>)
    | JObj(fields: map<string, Json>)

  /** The values `!value` is true of: `null`, `false`, `0` and the empty string. */
  predicate Falsy(j: Json) {
    j == JNull || j == JBool(false) || j == JNum(0) || j == JStr([])
  }

  /** `value[key]` on a value other than `null`: an object's own field, and `undefined` (None)
      for every other value and every missing field. None of the keys read here is a
      property of arrays or strings. */
  function Get(j: Json, key: string): (r: Option<Json>)
    ensures r.Some? <==> j.JObj? && key in j.fields
  {
    if j.JObj? && key in j.fields then Some(j.fields[key]) else None
  }

  /** `typeof value === 'string'` for a property read. */
  predicate IsStr(v: Option<Json>) {
    v.Some? && v.value.JStr?
  }

  /** The message of the TypeError thrown when a property of `null` is read. */
  const NullProperty: string := "Cannot read properties of null"
}
