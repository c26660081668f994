/** Optional values and error-carrying results, the model's stand-in for Go's
    `(value, error)` return pairs and nil pointers. */
module Wrappers {

  datatype Option<+T> = None | Some(value: T)

  datatype Result<+T, +E> = Ok(value: T) | Err(error: E)
}
