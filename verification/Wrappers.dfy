/** The shapes several modules share: absent values, errors, and the bytes of a stream. */
module Wrappers {
  datatype Option<+T> = None | Some(value: T)

  datatype Result<+T, +E> = Ok(value: T) | Err(error: E)

  newtype Byte = n: int | 0 <= n < 256
}
