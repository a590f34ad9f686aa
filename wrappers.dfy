/** Option and Result, the two outcome types the model uses in place of
    Python's `None`/exceptions and JavaScript's `throw`. */
module Wrappers {

  datatype Option<+T> = None | Some(value: T)

  datatype Result<+R, +E> = Success(value: R) | Failure(error: E)
}
