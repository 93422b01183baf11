/** Bytes, optional values and fallible results shared by every model. */
module Wrappers {

  type Byte = b: nat | b < 256

  datatype Option<+T> = None | Some(value: T)

  datatype Result<+T, +E> = Success(value: T) | Failure(error: E)
}
