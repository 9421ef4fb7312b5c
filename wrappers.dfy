/** Optional values and the outcome of a call that may raise. */
module Wrappers {

  /** Python's `None` or a value. */
  datatype Option<+T> = None | Some(value: T)

  /** What a call that may raise an exception produced: its value, or the
      text of the exception (`str(e)`). */
  datatype Outcome<+T> = Ok(value: T) | Raised(msg: string)
}
