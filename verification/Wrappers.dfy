/** Types shared by the modules of the project. */
module Wrappers {

  datatype Option<+T> = None | Some(value: T)

  type Byte = x: int | 0 <= x < 256

  datatype Result<+T, +E> = Ok(value: T) | Err(error: E)
}
