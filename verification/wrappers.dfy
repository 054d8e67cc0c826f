/** Option and Result values shared by the index builder and capture models. */
module Wrappers {

  /** A value that may be absent (a JavaScript `undefined`/`null`, a missing file). */
  datatype Option<+T> = None | Some(value: T)

  /** The outcome of an operation that throws an error in the original program. */
  datatype Result<+T, +E> = Ok(value: T) | Err(error: E)
}
