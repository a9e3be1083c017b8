/** Option and Result: JavaScript's `undefined`/`null` and thrown errors. */
module Wrappers {

  /** A value that may be absent (JavaScript `null` or `undefined`). */
  datatype Option<+T> = None | Some(value: T)

  /** The outcome of an operation that either completes or throws. */
  datatype Result<+T, +E> = Ok(value: T) | Err(error: E)
}
