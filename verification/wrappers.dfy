/** Optional values and success/failure results, the two shapes every
    operation of the model returns in place of JavaScript's `undefined`
    and thrown errors. */
module Wrappers {

  /** A value that may be absent (`undefined` / `null` in the source). */
  datatype Option<+T> = None | Some(value: T)

  /** The outcome of an operation that may fail: a settled or rejected promise. */
  datatype Result<+R, +E> = Success(value: R) | Failure(error: E)
}
