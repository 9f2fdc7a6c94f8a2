/** Failure-carrying datatypes shared by every module of the ingestion model. */
module Wrappers {

  /** A value that may be missing: a partial decoder's result, a failed service call. */
  datatype Option<+T> = None | Some(value: T)

  /** A computation that either produced a value or raised an error. */
  datatype Result<+T, +E> = Success(value: T) | Failure(error: E)
}
