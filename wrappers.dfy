/** Optional values and results of operations that may fail. */
module Wrappers {

  datatype Option<+T> = None | Some(value: T)

  /** The outcome of an operation: a value, or the error the source raises. */
  datatype Result<+T, +E> = Ok(value: T) | Err(error: E)
}
