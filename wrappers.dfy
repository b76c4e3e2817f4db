/** Option and Result, the two shapes in which Python's `None` and raised exceptions are modelled. */
module Wrappers {

  /** A nullable value: SQL NULL or Python None. */
  datatype Option<+T> = None | Some(value: T)

  /** The normal return of a Python call, or the exception it raised. */
  datatype Result<+T, +E> = Success(value: T) | Failure(error: E)
}
