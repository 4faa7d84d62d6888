/** Failure-carrying result types shared by the cache model. */
module Wrappers {

  /** An optional value: a lookup that may miss. */
  datatype Option<+T> = None | Some(value: T)

  /** The outcome of an operation that can reject its input. */
  datatype Result<+R, +E> = Success(value: R) | Failure(error: E)
}
