/** Optional values and results with an error, used for Java's null and for
    the exceptions and error returns of both clients. */
module Wrappers {

  datatype Option<+T> = None | Some(value: T)

  datatype Result<+R, +E> = Success(value: R) | Failure(error: E)
}
