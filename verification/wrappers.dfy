/** Failure-carrying return values: an absent result and a raised error. */
module Wrappers {

  /** The source's `None` return for "no such item". */
  datatype Option<+T> = None | Some(value: T)

  /** A normal return value, or an error the caller must handle. */
  datatype Result<+T, +E> = Success(value: T) | Failure(error: E)
}
