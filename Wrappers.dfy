/** Option and Result values, used wherever the extension returns "nothing"
    (null / undefined) or an error message instead of a value. */
module Wrappers {

  datatype Option<+T> = None | Some(value: T)

  datatype Result<+R, +E> = Success(value: R) | Failure(error: E)
}
