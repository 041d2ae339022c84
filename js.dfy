/**
 * The few JavaScript notions the popup's matcher depends on: an optional
 * value (`null`/`undefined` against a present one) and the outcome of an
 * evaluation that may throw.
 */
module Js {

  /** A present value, or JavaScript's `null`/`undefined`. */
  datatype Option<T> = None | Some(value: T)

  /** The two exceptions the matcher can raise. */
  datatype JsError =
    | TypeError   // a property read or method call on `null`/`undefined`
    | RangeError  // `toISOString()` on an Invalid Date

  /** The completion of an evaluation: a normal value or a thrown exception. */
  datatype Outcome<T> = Ok(value: T) | Thrown(error: JsError)
}
