/** Option and Result values for the model's absent attributes and thrown exceptions. */
module Wrappers {

  datatype Option<+T> = None | Some(value: T)

  /** Success, or the exception the source throws (its message as a string). */
  datatype Result<+R, +E> = Success(value: R) | Failure(error: E)
}
