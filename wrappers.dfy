/** Option and Result values: the model's stand-ins for Python's `None`
    and for the exceptions and `exit(1)` paths of the command-line tool. */
module Wrappers {

  datatype Option<+T> = None | Some(value: T)

  datatype Result<+T, +E> = Ok(value: T) | Err(error: E)
}
