/**
 * Decoded JSON values, as `JSON.parse` produces them, and the external
 * `JSON.parse`/`JSON.stringify` pair as a parameter of the model.
 */
module Json {
  import opened Wrappers

  /** A decoded JSON value. Numbers are kept as integers: no validator accepts one. */
  datatype JsonValue =
    | JNull
    | JBool(b: bool)
    | JNumber(n: int)
    | JString(s: string)
    | JArray(items: seq<JsonValue>)
    | JObject(members: map<string, JsonValue>)

  /**
   * `value.key` on a decoded value; `None` stands for `undefined`.
   * Arrays carry none of the property names the validators read.
   */
  function Prop(v: JsonValue, key: string): (r: Option<JsonValue>)
    ensures r.Some? ==> v.JObject? && key in v.members && r.value == v.members[key]
    ensures v.JObject? && key in v.members ==> r.Some?
  {
    match v
    case JObject(m) => if key in m then Some(m[key]) else None
    case _ => None
  }

  /** `!!value && typeof value === 'object'`: arrays and objects, never `null`. */
  predicate IsTruthyObject(v: JsonValue) {
    v.JArray? || v.JObject?
  }

  /** `v` is an object holding every member of the object `w`, with the same value. */
  predicate Extends(v: JsonValue, w: JsonValue) {
    && v.JObject? && w.JObject?
    && forall k :: k in w.members ==> k in v.members && v.members[k] == w.members[k]
  }

  /** `typeof value.key === 'string'`. */
  predicate HasString(v: JsonValue, key: string) {
    Prop(v, key).Some? && Prop(v, key).value.JString?
  }

  /** `typeof value.key === 'boolean'`. */
  predicate HasBool(v: JsonValue, key: string) {
    Prop(v, key).Some? && Prop(v, key).value.JBool?
  }

  /**
   * The browser's `JSON.parse` and `JSON.stringify`. `parse` answers `None`
   * where `JSON.parse` throws.
   */
  datatype Codec = Codec(parse: string -> Option<JsonValue>, stringify: JsonValue -> string)

  /**
   * What the model assumes of the browser's codec: encoding never yields the
   * empty string and decoding an encoding gives the value back.
   */
  ghost predicate Faithful(c: Codec) {
    forall v :: c.stringify(v) != "" && c.parse(c.stringify(v)) == Some(v)
  }
}
