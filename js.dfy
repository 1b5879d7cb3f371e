/** The few JavaScript value semantics the collection utilities depend on:
    `undefined` as an absent value, truthiness, and the value-returning
    logical operators `&&` and `||`. */
module Js {

  /** An optional value; `None` stands for the `undefined` that an accessor
      returns when there is nothing to return (an empty array, a missing
      property, an empty unseeded reduce). An element that is itself
      `undefined` is `Some(Undefined)` when the elements are `JsValue`s, so
      the two encodings of `undefined` are kept apart: `First([Undefined])`
      is `Some(Undefined)`, where JavaScript returns the same `undefined` as
      for `[]`. */
  datatype Option<T> = None | Some(value: T)

  /** A JavaScript value, as far as this library inspects one. Numbers are
      integers here: floating point, and with it NaN, is not modelled.
      Objects, arrays and functions are compared by identity, so they are
      represented by a reference. */
  datatype JsValue =
    | Undefined
    | Null
    | Bool(b: bool)
    | Num(n: int)
    | Str(s: string)
    | Ref(id: nat)

  /** JavaScript truthiness: what `if (v)` and `!!v` test. */
  function Truthy(v: JsValue): (r: bool)
    ensures r <==> !(v == Undefined || v == Null || v == Bool(false) || v == Num(0) || v == Str(""))
  {
    match v
    case Undefined => false
    case Null => false
    case Bool(b) => b
    case Num(n) => n != 0
    case Str(s) => s != ""
    case Ref(_) => true
  }

  /** `a && b`: one of its operands, truthy exactly when both are. */
  function And(a: JsValue, b: JsValue): (r: JsValue)
    ensures r == a || r == b
    ensures Truthy(r) <==> Truthy(a) && Truthy(b)
  {
    if Truthy(a) then b else a
  }

  /** `a || b`: one of its operands, truthy exactly when either is. */
  function Or(a: JsValue, b: JsValue): (r: JsValue)
    ensures r == a || r == b
    ensures Truthy(r) <==> Truthy(a) || Truthy(b)
  {
    if Truthy(a) then a else b
  }
}
