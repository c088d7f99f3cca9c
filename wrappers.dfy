/** Failure-carrying return values shared by the service models: an operation
    that throws in the source returns `Err` here. */
module Wrappers {

  datatype Option<+T> = None | Some(value: T)

  datatype Result<+T, +E> = Ok(value: T) | Err(error: E)
}
