/** Absent-or-present values and success-or-error results, used where the
    Java code returns null or throws. */
module Wrappers {

  /** A lookup result: `None` stands for Java's `null` return. */
  datatype Option<T> = None | Some(value: T)

  /** An operation that either yields a value or fails with an error. */
  datatype Result<T, E> = Success(value: T) | Failure(error: E)
}
