/** Option and Result values used for Python's `None` and for the exceptions
    the item catalogue raises. */
module Wrappers {

  datatype Option<+T> = None | Some(value: T)

  datatype Result<+T, +E> = Ok(value: T) | Err(error: E)
}
