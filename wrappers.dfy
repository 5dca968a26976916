/** Option and Result, the two failure-carrying datatypes the model uses. */
module Wrappers {

  /** A value that may be absent (JavaScript's `undefined`). */
  datatype Option<+T> = None | Some(value: T)

  /** A computation that either produced a value or was interrupted by a thrown error. */
  datatype Result<+T, +E> = Ok(value: T) | Err(error: E)

  /** An 8-bit unsigned value, the element of a Node.js `Buffer`. */
  type Byte = b: int | 0 <= b < 256
}
