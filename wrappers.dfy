/** Option and Result, the failure-carrying values used for the services' nullable
    fields, empty lookups and thrown exceptions. */
module Wrappers {

  datatype Option<+T> = None | Some(value: T)

  datatype Result<+T, +E> = Ok(value: T) | Err(error: E)
}
