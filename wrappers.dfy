/** Failure-carrying results: the library signals errors by throwing
    (`ORF_ASSERT`, `throw Exception`); the model returns them instead. */
module Wrappers {

  /** A value, or the error that the source would have thrown. */
  datatype Result<+T, +E> = Success(value: T) | Failure(error: E)

  /** A value that may be absent: a smart pointer that may be null. */
  datatype Option<+T> = None | Some(value: T)

  /** Success without a value, or the error that the source would have thrown. */
  datatype Outcome<+E> = Pass | Fail(error: E)
}
