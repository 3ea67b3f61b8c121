/** Failure-carrying result types shared by the report pipeline. */
module Wrappers {

  /** A value that may be missing (the source's `null` / `FirstOrDefault` default). */
  datatype Option<+T> = None | Some(value: T)

  /** Either a computed value or the error that aborted the computation
      (the source's thrown exceptions). */
  datatype Result<+R, +E> = Success(value: R) | Failure(error: E)
}
