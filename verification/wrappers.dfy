/** Optional values and error-carrying results, standing in for Go's nil pointers
    and `(value, error)` return pairs. */
module Wrappers {

  datatype Option<+T> = None | Some(value: T)

  datatype Result<+T, +E> = Ok(value: T) | Err(error: E)
}
