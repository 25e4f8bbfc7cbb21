/** Option and Result values standing for Python's `None` and for raised exceptions. */
module Wrappers {

  /** `None` is Python's `None`; `Some(v)` is a present value. */
  datatype Option<+T> = None | Some(value: T)

  /** `Ok(v)` is a normal return; `Err(e)` is an exception raised with `e`. */
  datatype Result<+T, +E> = Ok(value: T) | Err(error: E)
}
