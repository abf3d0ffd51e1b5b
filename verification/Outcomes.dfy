/** Optional values and fallible results. */
module Outcomes {
  datatype Option<+T> = None | Some(value: T)

  datatype Result<+T, +R> = Ok(value: T) | Err(error: R)
}
