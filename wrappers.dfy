/** Option, Result and Outcome: the values and failures the highlighting entry points produce. */
module Wrappers {

  datatype Option<+T> = None | Some(value: T)

  /** A computation that yields a value or fails with an error (a thrown `Error`). */
  datatype Result<+T, +E> = Success(value: T) | Failure(error: E)

  /** A computation run for its effects that completes or throws. */
  datatype Outcome<+E> = Pass | Fail(error: E)
}
