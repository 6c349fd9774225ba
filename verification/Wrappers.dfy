/** Result types shared by the modules of this project. */
module Wrappers {

  datatype Option<+T> = None | Some(value: T)

  /** The outcome of an operation that the source lets return a value or throw. */
  datatype Result<+T, +E> = Ok(value: T) | Err(error: E)
}
