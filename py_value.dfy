/** The dynamically typed scalars that a device-status response carries, and
    Python's truth test `bool(x)` on them. */
module PyValue {

  /** A JSON scalar as the status API returns it: `null`, a boolean, a number
      (only integers are modelled) or a string. */
  datatype Value = Null | Bool(b: bool) | Int(i: int) | Str(s: string)

  /** Python's `bool(v)`: `None`, `False`, `0` and `""` are false, every other
      value is true. */
  predicate Truthy(v: Value)
    ensures !Truthy(v) <==> v in [Null, Bool(false), Int(0), Str("")]
  {
    match v
    case Null => false
    case Bool(b) => b
    case Int(i) => i != 0
    case Str(s) => |s| > 0
  }
}
