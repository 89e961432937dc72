/** Optional values and results with an error case, used for missing cells and failed calls. */
module Wrappers {

  /** A value that may be absent; None stands for a missing (NaN) cell of a data frame. */
  datatype Option<+T> = None | Some(value: T)

  /** The outcome of an operation that can raise instead of returning. */
  datatype Result<+R, +E> = Success(value: R) | Failure(error: E)
}
