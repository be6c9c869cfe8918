/** Optional values and results with an error, shared by the other modules. */
module Wrappers {

  datatype Option<T> = None | Some(value: T)

  /** A value, or the reason a run stopped before producing one. */
  datatype Result<T, E> = Ok(value: T) | Err(error: E)
}
