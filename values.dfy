/** Python values as the engine stores them in an instance's __dict__, and the
    value an argument yields once read (steel/common/args.py:54-67). */
module Values {
  import opened Results
  import opened Streams

  datatype Value =
    | VNone
    | VBool(b: bool)
    | VInt(i: int)
    | VText(t: string)
    | VBytes(bytes: Bytes)
    | VList(items: seq<Value>)

  /** What reading a size-like argument gives: None, an integer, or an object the
      codecs cannot use as a count (a field or a callable read while no instance
      is bound). */
  datatype Resolved = RNone | RInt(n: int) | RObject

  /** Python treats bool as a subclass of int. */
  function AsInt(v: Value): (r: Result<int>)
    ensures v.VInt? ==> r == Ok(v.i)
    ensures r.Ok? <==> v.VInt? || v.VBool?
  {
    match v
    case VInt(i) => Ok(i)
    case VBool(b) => Ok(if b then 1 else 0)
    case _ => Err(TypeError)
  }

  /** len(value): defined on text, bytes and lists. */
  function Len(v: Value): (r: Result<nat>)
    ensures r.Ok? <==> v.VText? || v.VBytes? || v.VList?
  {
    match v
    case VText(t) => Ok(|t|)
    case VBytes(b) => Ok(|b|)
    case VList(items) => Ok(|items|)
    case _ => Err(TypeError)
  }

  /** Python ==: numbers compare by value (True == 1), everything else structurally. */
  predicate PyEq(a: Value, b: Value) {
    if (a.VInt? || a.VBool?) && (b.VInt? || b.VBool?) then AsInt(a) == AsInt(b) else a == b
  }
}
