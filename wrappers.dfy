/** The `Option`, `Result` and `Outcome` datatypes shared by the modules of the input stage. */
module Wrappers {

  /** A value that may be missing: the outcome of reading and parsing one file. */
  datatype Option<+T> = None | Some(value: T)

  /** The value of an operation that either succeeds or aborts with an error. */
  datatype Result<+R, +E> = Success(value: R) | Failure(error: E)

  /** The outcome of a check that produces no value. */
  datatype Outcome<+E> = Pass | Fail(error: E)
}
