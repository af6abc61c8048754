/** Optional values and validation outcomes shared by the other modules. */
module Wrappers {

  datatype Option<+T> = None | Some(value: T)

  /** Either an accepted value or the reason a request was rejected. */
  datatype Result<+T, +E> = Ok(value: T) | Err(error: E)
}
