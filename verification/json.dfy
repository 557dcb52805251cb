/**
 The values Python's `json.loads` produces: null, booleans, integers,
 finite floats (as reals), the non-finite floats it also accepts (`NaN`,
 `Infinity`, `-Infinity`, and literals such as `1e999` that overflow),
 strings, lists and dicts. Only the shape of these
 values matters to the model; the parser itself is a parameter of the
 pipeline (see module ReplyPipeline).
 */
module JsonValue {

  /** A present or absent value, as `Some`/`None`. */
  datatype Option<+T> = None | Some(value: T)

  datatype Json =
    | JNull
    | JBool(b: bool)
    | JInt(i: int)
    | JFloat(x: real)
    | JNonFinite
    | JString(s: string)
    | JArray(items: seq<Json>)
    | JObject(fields: map<string, Json>)

  /** `d.get(key, default)` on a dict. */
  function Get(fields: map<string, Json>, key: string, default: Json): (v: Json)
    ensures key in fields ==> v == fields[key]
    ensures key !in fields ==> v == default
  {
    if key in fields then fields[key] else default
  }
}
