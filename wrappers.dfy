/** Failure-carrying results for the codec's error paths (Python exceptions and `sys.exit`). */
module Wrappers {

  datatype Option<+T> = None | Some(value: T)

  datatype Result<+T, +E> = Ok(value: T) | Err(error: E)

  /** The outcome of an operation that either succeeds with no value or fails with an error. */
  datatype Outcome<+E> = Pass | Fail(error: E)
}
