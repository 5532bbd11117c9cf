/** An optional value and the outcome of an operation that may raise. */
module Wrappers {

  /** A value that may be absent: a regular-expression match that did not
      happen, a search that found nothing. */
  datatype Option<+T> = None | Some(value: T)

  /** The outcome of an operation that may raise: the value it returns, or
      the error that aborts it. */
  datatype Result<+T, +E> = Success(value: T) | Failure(error: E)
}
