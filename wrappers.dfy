/** Failure-carrying results shared by the canvas and the command encoders. */
module Wrappers {

  datatype Option<+T> = None | Some(value: T)

  /** Success carries the value; Failure carries what would have been thrown. */
  datatype Result<+T, +E> = Success(value: T) | Failure(error: E)
}
