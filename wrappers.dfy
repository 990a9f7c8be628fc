/** Optional values and results with an error, used for every read that can
    fall outside a frame. */
module Wrappers {

  datatype Option<+T> = None | Some(value: T)

  datatype Result<+R, +E> = Ok(value: R) | Err(error: E)
}
