/** Result and Option values, standing in for Python's exceptions and its
    "value or nothing" returns. */
module Wrappers {

  datatype Option<+T> = None | Some(value: T)

  datatype Result<+R, +E> = Success(value: R) | Failure(error: E)
}
