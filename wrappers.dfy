/** Optional values and success-or-error results used throughout the model. */
module Wrappers {

  /** `Some(x)` for a value, `None` for JavaScript's `null`/`undefined`. */
  datatype Option<+T> = None | Some(value: T)

  /** The outcome of an operation that may throw. */
  datatype Result<+R, +E> = Success(value: R) | Failure(error: E)

  /** The outcome of an operation whose only interesting result is whether it threw. */
  datatype Outcome<+E> = Pass | Fail(error: E)
}
