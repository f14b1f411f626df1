/** Option and Result, the two failure-carrying datatypes the model uses for
    Python's "attribute never assigned" and raised exceptions. */
module Wrappers {

  datatype Option<+T> = None | Some(value: T)

  datatype Result<+R, +E> = Ok(value: R) | Err(error: E)
}
