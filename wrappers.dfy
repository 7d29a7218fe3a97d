/** Failure-compatible wrappers used throughout the model. */
module Wrappers {

  /** A value that may be absent (a Java null, or a call that threw). */
  datatype Option<+T> = None | Some(value: T)

  /** The outcome of an operation that either yields a value or fails with an error. */
  datatype Result<+T, +E> = Success(value: T) | Failure(error: E)
}
