/** Result and option types shared by the decoder and the flattening step. */
module Wrappers {

  /** Either a value or the error that the original code raises instead. */
  datatype Result<+T, +E> = Success(value: T) | Failure(error: E)

  datatype Option<+T> = None | Some(value: T)
}
