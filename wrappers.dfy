/** Optional values and results with an error, used for the absent keys of the
    chat platform's message records and for operations that can raise. */
module Wrappers {

  /** A value that may be absent, as a dictionary lookup with `get` may be. */
  datatype Option<+T> = None | Some(value: T)

  /** Either a value or the error text of the exception that stopped the computation. */
  datatype Result<+R, +E> = Success(value: R) | Failure(error: E)
}
