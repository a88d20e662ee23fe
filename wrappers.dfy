/** Option and Result values for operations that the Python code lets fail
    (an exception, an empty list). */
module Wrappers {

  datatype Option<+T> = None | Some(value: T)

  datatype Result<+R, +E> = Ok(value: R) | Err(error: E)
}
