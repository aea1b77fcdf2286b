/** Option and Result, shared by every module of the model. */
module Wrappers {

  /** An optional value: `Option<T>` in the source. */
  datatype Option<+T> = None | Some(value: T)

  /** A value or an error: `Result<T, E>` in the source. */
  datatype Result<+T, +E> = Ok(value: T) | Err(error: E)
}
