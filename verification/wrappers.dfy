/** Failure-carrying wrappers shared by the modules of this project. */
module Wrappers {

  /** A value that may be absent: a null storage, a missing map entry, a `false` return. */
  datatype Option<+T> = None | Some(value: T)

  /** The outcome of an operation that reports failure through an `Error &` out-parameter. */
  datatype Result<+R, +E> = Success(value: R) | Failure(error: E)
}
