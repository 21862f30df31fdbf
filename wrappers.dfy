/** The optional value and the outcome-or-error used throughout the model. */
module Wrappers {

  /** JavaScript's `null` versus a value. */
  datatype Option<+T> = None | Some(value: T)

  /** A value, or the exception the source would throw instead. */
  datatype Result<+T> = Success(value: T) | Failure(error: string)
}
