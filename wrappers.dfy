/** Optional values and results carrying an error message, standing in for Python's
    `None` and for exceptions raised with a message. */
module Wrappers {

  datatype Option<+T> = None | Some(value: T)

  datatype Result<+R, +E> = Success(value: R) | Failure(error: E)
}
