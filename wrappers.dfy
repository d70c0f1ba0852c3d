/** Optional values and success-or-error results, the model's stand-in for Go's
    nil pointers, comma-ok lookups and `(value, error)` return pairs. */
module Wrappers {

  datatype Option<+T> = None | Some(value: T)

  datatype Result<+T, +E> = Ok(value: T) | Err(error: E)
}
