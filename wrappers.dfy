/** The result type used for the one error the selector can raise. */
module Wrappers {

  datatype Result<+R, +E> = Success(value: R) | Failure(error: E)
}
