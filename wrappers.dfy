/** Wrappers used across the model: an optional value
    (JavaScript's `undefined` / `null`), a value-or-error result, and the
    outcome of an operation that may throw. */
module Wrappers {

  datatype Option<+T> = None | Some(value: T)

  datatype Result<+T, +E> = Success(value: T) | Failure(error: E)

  /** Whether an operation ran to completion or threw an `Error(message)`. */
  datatype Outcome = Pass | Fail(message: string)
}
