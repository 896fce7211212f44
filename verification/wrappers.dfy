/** Failure-carrying values used in place of the exceptions thrown by the
    download client: `Option` for a value that may be absent, `Result` for an
    operation that returns a value or an error, and `Outcome` for an operation
    that returns nothing on success. */
module Wrappers {

  datatype Option<+T> = None | Some(value: T)

  datatype Result<+R, +E> = Success(value: R) | Failure(error: E)

  datatype Outcome<+E> = Pass | Fail(error: E)
}
