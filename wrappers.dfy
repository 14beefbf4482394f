/** Option and Result, used for the source's `None` returns and for the
    exceptions its operations raise. */
module Wrappers {

  datatype Option<+T> = None | Some(value: T)

  datatype Result<+T, +E> = Ok(value: T) | Err(error: E)
}
