/** Option and Result types shared by the modules of the model. */
module Wrappers {

  datatype Option<T> = None | Some(value: T)

  /** The outcome of an operation that either yields a value or fails with an error. */
  datatype Result<T, E> = Ok(value: T) | Err(error: E)
}
