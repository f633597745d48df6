/** Failure-carrying datatypes shared by the other modules. */
module Wrappers {

  /** A value that may be absent; `None` stands for a Java `null`. */
  datatype Option<+T> = None | Some(value: T)

  /** A step that either completes or fails with an error value. */
  datatype Outcome<+E> = Pass | Fail(error: E)

  /** A step that either yields a value or fails with an error value. */
  datatype Result<+R, +E> = Success(value: R) | Failure(error: E)
}
