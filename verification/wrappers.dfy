/** Optional values and computations that may raise. */
module Wrappers {

  /** The result of a dictionary `.get`: a value or Python's `None`. */
  datatype Option<+T> = None | Some(value: T)

  /** A computation that either returns a value or raises. The model does not
      distinguish the kinds of exception (KeyError, TypeError): any raise is
      the single outcome `Raised`. */
  datatype Result<+T> = Ok(value: T) | Raised
}
