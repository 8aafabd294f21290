/** Option and Result, the two failure-carrying shapes the model uses for Go's
    `(value, error)` returns and JavaScript's thrown exceptions. */
module Wrappers {

  datatype Option<+T> = None | Some(value: T)

  datatype Result<+T, +E> = Success(value: T) | Failure(error: E)
}
