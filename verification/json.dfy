/** `serde_json::Value`, the untyped JSON tree the verification service
    stores and scans. Objects are `map`s, as serde_json's default
    (BTreeMap-backed) `Map` is: one value per key. */
module Json {
  import opened Text

  datatype Value =
    | Null
    | Bool(b: bool)
    | Number(n: int)
    | Str(s: string)
    | Array(items: seq<Value>)
    | Object(fields: map<string, Value>)
  {
    /** `Value::get` with a string key: the member of an object, None for a
        missing key and for every value that is not an object. */
    function Get(key: string): (r: Option<Value>)
      ensures r.Some? <==> Object? && key in fields
      ensures r.Some? ==> r.value == fields[key]
    {
      if Object? && key in fields then Some(fields[key]) else None
    }

    /** `Value::as_str`. */
    function AsStr(): (r: Option<string>)
      ensures r.Some? <==> Str?
      ensures r.Some? ==> r.value == s
    {
      if Str? then Some(s) else None
    }
  }

  /** `v.get(key).and_then(|x| x.as_str())`: a string-valued member. */
  function StrField(v: Value, key: string): (r: Option<string>)
    ensures r.Some? <==> v.Object? && key in v.fields && v.fields[key].Str?
    ensures r.Some? ==> r.value == v.fields[key].s
  {
    match v.Get(key)
    case None => None
    case Some(x) => x.AsStr()
  }

  /** `Option<String>` serialised: `null` or a string. */
  function OptStr(o: Option<string>): Value {
    match o
    case None => Null
    case Some(s) => Str(s)
  }
}
