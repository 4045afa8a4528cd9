/** Option and Result, used for the optional request-body fields and for the
    success or error envelope a handler answers with. */
module Wrappers {

  datatype Option<+T> = None | Some(value: T)

  datatype Result<+T, +E> = Ok(value: T) | Err(error: E)
}
