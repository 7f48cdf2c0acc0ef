/** Option and Result, used for Hash lookups and for operations that raise in Ruby. */
module Wrappers {

  datatype Option<+T> = None | Some(value: T)

  datatype Result<+R, +E> = Success(value: R) | Failure(error: E)
}
