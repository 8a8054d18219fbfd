/** Failure-carrying results for the Python code modelled here. */
module Wrappers {

  datatype Option<T> = None | Some(value: T)

  /** The Python exceptions the modelled functions can raise. */
  datatype Error = ValueError | KeyError | IndexError | TypeError

  /** A value, or the exception the Python code would have raised instead. */
  datatype Result<T> = Ok(value: T) | Err(error: Error)

  function Min(a: int, b: int): int
  {
    if a <= b then a else b
  }
}
