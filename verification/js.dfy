/**
 * The few JavaScript value semantics the handlers depend on: the shape of a
 * JSON request-body field, truthiness (`!x`), the `undefined` to NULL
 * conversion of the Postgres driver, and `String.prototype.substring`.
 */
module Js {

  /** A value that may be absent, as JavaScript's `null` stands in for one. */
  datatype Option<+T> = None | Some(value: T)

  /** A request-body field after `express.json()`: a missing key reads as `Undefined`. */
  datatype Value =
    | Undefined
    | Null
    | Bool(b: bool)
    | Num(n: int)
    | Str(s: string)
    | Composite  // an object or an array

  /** JavaScript ToBoolean: `undefined`, `null`, `false`, `0` and `""` are falsy. */
  predicate Truthy(v: Value) {
    match v
    case Undefined => false
    case Null => false
    case Bool(b) => b
    case Num(n) => n != 0
    case Str(s) => s != ""
    case Composite => true
  }

  /** The value a query parameter stores: the driver sends `undefined` as NULL. */
  function ToParam(v: Value): (p: Value)
    ensures p != Undefined
    ensures v == Undefined ==> p == Null
    ensures v != Undefined ==> p == v
  {
    if v == Undefined then Null else v
  }

  /** `v === true || v === 'true'`: the coercion applied to `is_public`. */
  predicate PublicFlag(v: Value) {
    v == Bool(true) || v == Str("true")
  }

  function Clamp(x: int, len: nat): (c: nat)
    ensures c <= len
    ensures 0 <= x <= len ==> c == x
  {
    if x < 0 then 0 else if x > len then len else x
  }

  /**
   * `s.substring(start, end)`: both indices are clamped into [0, |s|] and
   * swapped when the first exceeds the second.
   */
  function Substring(s: string, start: int, end: int): (r: string)
    ensures 0 <= start <= end <= |s| ==> r == s[start..end]
    ensures 0 <= end <= start <= |s| ==> r == s[end..start]
    ensures |r| <= |s|
  {
    var a := Clamp(start, |s|);
    var b := Clamp(end, |s|);
    if a <= b then s[a..b] else s[b..a]
  }
}
