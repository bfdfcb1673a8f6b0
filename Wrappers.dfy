/** Failure-carrying values: a missing value and a result that is either a
    value or an error (the model's stand-in for a thrown exception). */
module Wrappers {

  datatype Option<+T> = None | Some(value: T)

  datatype Result<+T, +E> = Ok(value: T) | Err(error: E)
}
