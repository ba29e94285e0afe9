/** The JSON document tree the structured log spec is validated against:
    `serde_json::Value` and the accessors the validator uses. Turning text
    into a `Value` is serde_json's business and is not part of this model. */
module JsonValue {
  import opened Wrappers

  const U64_MAX: nat := 0xFFFF_FFFF_FFFF_FFFF

  /** `serde_json::Number`: an integer (serde keeps integers that fit `u64`
      or `i64` exactly) or a floating-point number. */
  datatype Number = Int(i: int) | Float(f: real)

  /** `serde_json::Value`. Objects are keyed maps: the validator only ever
      looks keys up, so member order plays no part. */
  datatype Value =
    | Null
    | Bool(b: bool)
    | Num(n: Number)
    | Str(s: string)
    | Array(items: seq<Value>)
    | Object(fields: map<string, Value>)

  /** `Value::as_object`. */
  function AsObject(v: Value): (r: Option<map<string, Value>>)
    ensures r.Some? <==> v.Object?
    ensures r.Some? ==> r.value == v.fields
  {
    if v.Object? then Some(v.fields) else None
  }

  /** `Value::as_array`. */
  function AsArray(v: Value): (r: Option<seq<Value>>)
    ensures r.Some? <==> v.Array?
    ensures r.Some? ==> r.value == v.items
  {
    if v.Array? then Some(v.items) else None
  }

  /** `Value::as_str`. */
  function AsStr(v: Value): (r: Option<string>)
    ensures r.Some? <==> v.Str?
    ensures r.Some? ==> r.value == v.s
  {
    if v.Str? then Some(v.s) else None
  }

  /** `Value::as_u64`: a non-negative integer that fits 64 bits; floats,
      negative numbers and non-numbers give nothing. */
  function AsU64(v: Value): (r: Option<nat>)
    ensures r.Some? <==> v.Num? && v.n.Int? && 0 <= v.n.i <= U64_MAX
    ensures r.Some? ==> r.value == v.n.i
  {
    if v.Num? && v.n.Int? && 0 <= v.n.i <= U64_MAX then Some(v.n.i) else None
  }

  /** `Map::get`. */
  function Get(fields: map<string, Value>, key: string): (r: Option<Value>)
    ensures r.Some? <==> key in fields
    ensures r.Some? ==> r.value == fields[key]
  {
    if key in fields then Some(fields[key]) else None
  }
}
