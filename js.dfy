/** JavaScript values as the two client reducers see them: JSON-like data,
    with `undefined`, and objects as maps from property name to value. */
module Js {

  import opened Wrappers

  datatype Value =
    | Undefined
    | Null
    | Bool(b: bool)
    | Num(n: int)
    | Str(s: string)
    | Arr(items: seq<Value>)
    | Obj(fields: map<string, Value>)

  /** A plain object: its own enumerable properties. */
  type Object = map<string, Value>

  /** The only exception the reducers can raise. */
  datatype JsError = TypeError

  /** `o.k` on a plain object: a missing property reads as `undefined`. */
  function Get(o: Object, k: string): Value
  {
    if k in o then o[k] else Undefined
  }

  /** Property `k` of object `o` is present and holds `v`. */
  predicate Has(o: Object, k: string, v: Value)
  {
    k in o && o[k] == v
  }

  /** Property `k` is the same in both objects: absent from both, or present
      in both with one value. */
  predicate SameAt(a: Object, b: Object, k: string)
  {
    (k in a <==> k in b) && (k in a ==> a[k] == b[k])
  }

  /** `a` and `b` agree on every property outside `keys`. */
  ghost predicate AgreeExcept(a: Object, b: Object, keys: set<string>)
  {
    forall k :: k !in keys ==> SameAt(a, b, k)
  }

  /** `null` and `undefined`: reading a property of either throws. */
  predicate Nullish(v: Value)
  {
    v.Undefined? || v.Null?
  }

  /** `v.k` for a value that is not nullish: an object's property, and
      `undefined` for the primitives and arrays (which have no such data
      property). */
  function Prop(v: Value, k: string): Value
    requires !Nullish(v)
  {
    if v.Obj? then Get(v.fields, k) else Undefined
  }

  /** The properties `{...v}` copies into an object literal. */
  function SpreadFields(v: Value): Object
  {
    if v.Obj? then v.fields else map[]
  }
}
