/**
 * The untyped document node: what a YAML configuration decodes into and what
 * every `interface{}` argument of validators.go holds. Type expressions are
 * documents too (a union string, a one-string list, or a map).
 */
module Values {
  import opened Wrappers

  /** Go's int64. */
  type Int64 = x: int | -0x8000_0000_0000_0000 <= x < 0x8000_0000_0000_0000

  datatype Value =
    | Null
    | Int(i: Int64)
    /** A float64, kept as its IEEE-754 bit pattern: the engine never computes with floats. */
    | Float(bits: bv64)
    | Str(s: string)
    | Bool(b: bool)
    | List(items: seq<Value>)
    /** Keys compare by kind and value, as keys of Go's `map[interface{}]interface{}`. */
    | Map(entries: map<Value, Value>)

  /**
   * The view `cast.InterfaceToStrSlice` gives of a document: a nil interface is a nil
   * (empty) slice, a list whose items are all strings is those strings, anything
   * else is not a string slice.
   */
  function AsStrSlice(v: Value): (r: Option<seq<string>>)
    ensures r.Some? <==> v.Null? || (v.List? && forall i :: 0 <= i < |v.items| ==> v.items[i].Str?)
    ensures v.Null? ==> r == Some([])
    ensures r.Some? && v.List? ==>
      |r.value| == |v.items| && forall i :: 0 <= i < |v.items| ==> v.items[i] == Str(r.value[i])
  {
    match v
    case Null => Some([])
    case List(items) =>
      if forall i :: 0 <= i < |items| ==> items[i].Str? then
        Some(seq(|items|, i requires 0 <= i < |items| => items[i].s))
      else
        None
    case _ => None
  }

}
