/** Failure-compatible wrappers shared by the other modules. */
module Options {

  /** A value that may be absent (PHP's `null`). */
  datatype Option<+T> = None | Some(value: T)

  /** Either a value or the error the source raises instead. */
  datatype Result<+R, +E> = Success(value: R) | Failure(error: E)
}
