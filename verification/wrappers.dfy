/** Optional values, standing for Python's `None` and JavaScript's `null`. */
module Wrappers {

  datatype Option<+T> = None | Some(value: T)

  /** The outcome of a call into the browser that may raise an exception. */
  datatype Fetch<+T> = Got(value: T) | Raised(message: string)
}
