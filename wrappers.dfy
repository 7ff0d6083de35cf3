/** Small failure-carrying datatypes used across the model. */
module Wrappers {

  datatype Option<+T> = None | Some(value: T)

  datatype Result<+R, +E> = Success(value: R) | Failure(error: E)

  /** A Go-style return: a value together with an error that is `None` on success. */
  datatype ValueAndError<+T, +E> = ValueAndError(value: T, err: Option<E>)
}
