/**
 * The JavaScript values a route handler sees after `request.json()`:
 * whatever `JSON.parse` can produce, plus `undefined` for a property that
 * is absent. JSON numbers are modelled as finite reals. `JSON.parse` never
 * yields `NaN`, but it does yield an infinity for a literal out of the
 * double range (such as `1e400`); the model has no such value.
 */
module Js {

  datatype JsValue =
    | Undefined
    | Null
    | Bool(b: bool)
    | Num(n: real)
    | Str(s: string)
    | Arr(items: seq<JsValue>)
    | Obj(fields: map<string, JsValue>)

  /** JavaScript truthiness: `undefined`, `null`, `false`, `0` and `""` are falsy. */
  predicate Truthy(v: JsValue) {
    match v
    case Undefined => false
    case Null => false
    case Bool(b) => b
    case Num(n) => n != 0.0
    case Str(s) => s != ""
    case Arr(_) => true
    case Obj(_) => true
  }

  /** `null` and `undefined`: the values whose property reads throw. */
  predicate Nullish(v: JsValue) {
    v.Undefined? || v.Null?
  }

  /** The outcome of reading `v.key` (or destructuring `key` out of `v`). */
  datatype Access = Value(v: JsValue) | TypeError

  /**
   * Reads a property by a fixed name. Only the request fields are ever read,
   * and none of those names is a built-in property of strings, numbers or
   * arrays, so on a non-object value the read yields `undefined`.
   */
  function Property(v: JsValue, key: string): (r: Access)
    ensures r.TypeError? <==> Nullish(v)
    ensures r.Value? && v.Obj? && key in v.fields ==> r.v == v.fields[key]
    ensures r.Value? && !(v.Obj? && key in v.fields) ==> r.v == Undefined
  {
    match v
    case Undefined => TypeError
    case Null => TypeError
    case Obj(fields) => if key in fields then Value(fields[key]) else Value(Undefined)
    case _ => Value(Undefined)
  }

  /** The value of `v.key` once the read is known not to throw. */
  function Field(v: JsValue, key: string): JsValue
    requires !Nullish(v)
  {
    Property(v, key).v
  }
}
