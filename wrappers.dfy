/** Optional values and results with an error, used for the regex matches that may fail
    and for the one error the argument handling can raise. */
module Wrappers {

  datatype Option<+T> = None | Some(value: T)

  datatype Result<+R, +E> = Success(value: R) | Failure(error: E)
}
