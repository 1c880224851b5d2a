/** Optional values and results: the model's stand-in for C# `null` and for exceptions. */
module Wrappers {

  /** A value that may be absent (a nullable reference or a `T?` in the C# source). */
  datatype Option<+T> = None | Some(value: T)

  /** The result of an operation that throws in the C# source instead of returning. */
  datatype Result<+R, +E> = Success(value: R) | Failure(error: E)
}
