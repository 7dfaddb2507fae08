/** Failure-carrying result types shared by the other modules. */
module Outcomes {

  /** A value that may be absent. */
  datatype Option<+T> = None | Some(value: T)

  /** A value, or the reason it could not be produced. */
  datatype Result<+T, +E> = Ok(value: T) | Err(error: E)

  /** The typed outcome of a recursive computation that is run under a
      call-depth ceiling: either its value, or the report that it needed
      more nested calls than the ceiling allows (Python's RecursionError). */
  datatype Outcome<+T> = Success(value: T) | DepthExceeded
}
