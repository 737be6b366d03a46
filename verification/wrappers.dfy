/** Option and Result, used across the model. */
module Wrappers {

  /** An optional value: a map lookup that may miss. */
  datatype Option<+T> = None | Some(value: T)

  /** Either the computed value or the error the computation failed with. */
  datatype Result<+R, +E> = Success(value: R) | Failure(error: E)
}
