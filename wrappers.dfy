/** Optional values and results that carry an error instead of throwing. */
module Wrappers {

  /** A value that may be absent: a C# `null` reference. */
  datatype Option<+T> = None | Some(value: T)

  /** The outcome of an operation that either returns a value or throws. */
  datatype Result<+R, +E> = Success(value: R) | Failure(error: E)
}
