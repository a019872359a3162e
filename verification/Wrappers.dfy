/** Result and Option types shared by every component. */
module Wrappers {

  datatype Option<+T> = None | Some(value: T)

  /** A Go call that returns (value, error): exactly one of the two is meaningful. */
  datatype Result<+T, +E> = Success(value: T) | Failure(error: E)
}
