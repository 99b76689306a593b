/** Optional values and success/failure results, the shapes the services'
    `null` returns and thrown exceptions take in this model. */
module Wrappers {

  datatype Option<+T> = None | Some(value: T)

  datatype Result<+R, +E> = Success(value: R) | Failure(error: E)
}
