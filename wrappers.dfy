/** Failure-carrying values shared by the other modules: `Option` for a lookup
    that may find nothing (Java's `null`), `Outcome` for an operation that either
    completes or throws, and `Result` for one that returns a value or throws. */
module Wrappers {

  datatype Option<+T> = None | Some(value: T)

  datatype Outcome<+E> = Pass | Fail(error: E)

  datatype Result<+R, +E> = Success(value: R) | Failure(error: E)
}
