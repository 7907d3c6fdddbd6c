/** Vocabulary shared by every component: bytes, and the two ways an operation can fail to give a value. */
module Bytes {

  type byte = x: int | 0 <= x < 256

  datatype Option<+T> = None | Some(value: T)

  datatype Result<+T> = Ok(value: T) | Corrupt
}
