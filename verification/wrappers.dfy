/** The result type used for every fallible conversion of the model. */
module Wrappers {

  datatype Result<+T, +E> = Ok(value: T) | Err(error: E)
}
