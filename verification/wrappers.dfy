/** Failure-carrying result types shared by every stage of the interpreter. */
module Wrappers {

  /** A value that may be absent; used where the source returns `Result<_, ()>`. */
  datatype Option<+T> = None | Some(value: T)

  /** A value or an error; used where the source panics. */
  datatype Result<+T, +E> = Ok(value: T) | Err(error: E)
}
