/** Option and Result: the "not found" and "failed to parse" outcomes of the store and the codec. */
module Wrappers {

  datatype Option<+T> = None | Some(value: T)

  datatype Result<+T, +E> = Success(value: T) | Failure(error: E)
}
