/** The Option and Result values the model passes around. */
module Wrappers {

  datatype Option<+T> = None | Some(value: T)

  /** A Go `(T, error)` pair: either a value or an error, never both. */
  datatype Result<+T, +E> = Success(value: T) | Failure(error: E)
}
