/** JSON documents, as `boost::json::value` holds them. */
module Json {

  datatype Option<+T> = None | Some(value: T)

  /** Signed and unsigned 64-bit integers are one kind here: Boost compares them numerically.
      Members of an object have no order: Boost equality ignores it. */
  datatype Value =
    | Null
    | Bool(b: bool)
    | Integer(i: int)
    | Double(d: real)
    | String(s: string)
    | Array(items: seq<Value>)
    | Object(members: map<string, Value>)

  /** A key that needs no escaping in a JSON Pointer (section 3 of RFC 6901). */
  predicate CleanKey(key: string) {
    '/' !in key && '~' !in key
  }

  /** Every member name, at every depth, can stand in a JSON Pointer as it is. */
  predicate Clean(v: Value) {
    match v
    case Array(items) => forall i :: 0 <= i < |items| ==> Clean(items[i])
    case Object(members) => forall k :: k in members ==> CleanKey(k) && Clean(members[k])
    case _ => true
  }

  function Min(a: nat, b: nat): nat {
    if a < b then a else b
  }
}
