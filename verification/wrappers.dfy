/** Plain option and result types shared by the modules of the model. */
module Wrappers {

  datatype Option<T> = None | Some(value: T)

  /** Either a value or the exception the Python code would raise instead. */
  datatype Result<T, E> = Ok(value: T) | Err(error: E)
}
