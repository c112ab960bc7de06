/** Option and Result values, used for lookups that may find nothing and for
    handlers that answer either a body or an error kind. */
module Wrappers {

  datatype Option<+T> = None | Some(value: T)

  datatype Result<+R, +E> = Ok(value: R) | Err(error: E)
}
