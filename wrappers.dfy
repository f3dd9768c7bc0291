/** Optional values and fallible results, the shapes of Rust's `Option` and `Result`. */
module Wrappers {
  datatype Option<T> = None | Some(value: T)
  {
    /** `unwrap_or`: the wrapped value, or `default` when there is none. */
    function GetOr(default: T): T
    {
      match this
      case None => default
      case Some(v) => v
    }
  }

  datatype Result<T, E> = Ok(value: T) | Err(error: E)
}
