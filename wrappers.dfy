/** Failure-carrying result types shared by the other modules. */
module Wrappers {

  datatype Option<+T> = None | Some(value: T)

  /** The value a Python function returns (`Ok`) or the exception it raises (`Err`). */
  datatype Result<+T, +E> = Ok(value: T) | Err(error: E)
}
