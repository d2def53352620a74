/** Optional values and error results, standing for Java's null and for checked exceptions. */
module Wrappers {

  /** A value that may be missing: `None` plays the part of Java's `null`. */
  datatype Option<+T> = None | Some(value: T)

  /** The outcome of an operation that can throw: `Failure` carries the exception's message. */
  datatype Result<+T, +E> = Success(value: T) | Failure(error: E)
}
