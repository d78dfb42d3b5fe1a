/** Option and Result values shared by the two models. */
module Wrappers {

  /** A value that may be absent (Python's None). */
  datatype Option<T> = None | Some(value: T)

  /** Either a value or the error a Python function would raise instead of returning. */
  datatype Result<T, E> = Ok(value: T) | Err(error: E)
}
