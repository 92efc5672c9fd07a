/** A JSON document as Gson hands it to Kotlin after parsing: objects become
    maps, arrays lists, strings `String`, numbers `Double`. The helpers are the
    safe casts (`as? List<*>`, `as? Map<*, *>`, `as? String`) and the
    null-safe lookups (`m?.get(key)`) of the response extraction. */
module Json {
  import opened Wrappers

  datatype Value =
    | JNull
    | JBool(b: bool)
    | JNum(n: real)
    | JStr(s: string)
    | JArr(items: seq<Value>)
    | JObj(fields: map<string, Value>)

  /** `m[key]` on a parsed object: a missing key reads as null. */
  function Lookup(fields: map<string, Value>, key: string): Option<Value> {
    if key in fields then Some(fields[key]) else None
  }

  /** `m?.get(key)` on a map that may itself be null. */
  function Member(obj: Option<map<string, Value>>, key: string): Option<Value> {
    match obj
    case None => None
    case Some(fields) => Lookup(fields, key)
  }

  /** `v as? List<*>` */
  function AsArray(v: Option<Value>): Option<seq<Value>> {
    if v.Some? && v.value.JArr? then Some(v.value.items) else None
  }

  /** `v as? Map<*, *>` */
  function AsObject(v: Option<Value>): Option<map<string, Value>> {
    if v.Some? && v.value.JObj? then Some(v.value.fields) else None
  }

  /** `v as? String` */
  function AsString(v: Option<Value>): Option<string> {
    if v.Some? && v.value.JStr? then Some(v.value.s) else None
  }
}
