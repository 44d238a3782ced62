// Failure-carrying result types and the byte, shared by every module.
module Wrappers {

  datatype Option<+T> = None | Some(value: T)

  datatype Result<+T, +E> = Ok(value: T) | Err(error: E)

  newtype UInt8 = x: int | 0 <= x < 0x100
}
