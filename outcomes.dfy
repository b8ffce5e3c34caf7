/** Option and Result values used across the model. */
module Outcomes {

  /** A value that may be absent; stands for the "no minimum yet" state as well. */
  datatype Option<T> = None | Some(value: T)

  /** The outcome of an operation that can fail with an error value. */
  datatype Result<T, E> = Success(value: T) | Failure(error: E)
}
