/** Optional values and results with an error, for the patterns that find
    nothing and the operations that throw. */
module Wrappers {
  datatype Option<+T> = None | Some(value: T)

  datatype Result<+T, +E> = Ok(value: T) | Err(error: E)
}
