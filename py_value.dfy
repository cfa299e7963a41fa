/**
  The dynamically typed values that travel through the pipeline's dictionaries:
  dataset examples, vector-index payloads and JSON request bodies.
 */
module PyValue {
  import opened Strings

  datatype Value =
    | Null
    | Bool(b: bool)
    | Int(i: int)
    | Real(x: real)
    | Str(s: Text)
    | Lst(items: seq<Value>)
    | Dict(entries: map<Text, Value>)

  /** Python's truth test: `None`, `False`, zero and empty containers are falsy. */
  predicate Truthy(v: Value) {
    match v
    case Null => false
    case Bool(b) => b
    case Int(i) => i != 0
    case Real(x) => x != 0.0
    case Str(s) => s != []
    case Lst(items) => items != []
    case Dict(entries) => entries != map[]
  }

  /** `d.get(key, default)` */
  function Get(d: map<Text, Value>, key: Text, default: Value): (r: Value)
    ensures key in d ==> r == d[key]
    ensures key !in d ==> r == default
  {
    if key in d then d[key] else default
  }

  /** A Python list of strings. */
  function StrList(texts: seq<Text>): (r: Value)
    ensures r.Lst? && |r.items| == |texts|
    ensures forall k :: 0 <= k < |texts| ==> r.items[k] == Str(texts[k])
  {
    Lst(seq(|texts|, k requires 0 <= k < |texts| => Str(texts[k])))
  }

  /** `a or b` */
  function Or(a: Value, b: Value): (r: Value)
    ensures Truthy(a) ==> r == a
    ensures !Truthy(a) ==> r == b
  {
    if Truthy(a) then a else b
  }
}
