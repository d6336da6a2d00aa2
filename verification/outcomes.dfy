/** The two shapes of outcome the program's calls have: `Option` for a
    result that may be Python's `None`, and `Result` for a call that returns
    a value or raises. */
module Outcomes {

  /** A value, or Python's `None`. */
  datatype Option<+T> = None | Some(value: T)

  /** A returned value, or the exception `E` that was raised instead. */
  datatype Result<+R, +E> = Success(value: R) | Failure(error: E)
}
