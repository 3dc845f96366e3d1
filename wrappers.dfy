/** Option and Result, the two failure-carrying shapes used throughout the model. */
module Wrappers {

  /** A value that may be missing: SQL NULL, a row that was not found, JavaScript undefined. */
  datatype Option<+T> = None | Some(value: T)

  /** The outcome of a store operation that can violate a table constraint. */
  datatype Result<+T, +E> = Success(value: T) | Failure(error: E)
}
