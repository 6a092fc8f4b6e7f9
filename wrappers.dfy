/** The success-or-error value used for the places where the decoder throws. */
module Wrappers {

  datatype Result<+T, +E> = Success(value: T) | Failure(error: E)
}
