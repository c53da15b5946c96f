/** Result type standing in for the Java exceptions of the modelled code. */
module Outcomes {
  datatype Result<+T, +E> = Success(value: T) | Failure(error: E)

  datatype Option<+T> = None | Some(value: T)
}
