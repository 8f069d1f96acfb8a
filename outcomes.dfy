/** Error reporting of the container: the only error the model raises is the
    std::out_of_range thrown by at, insert and erase. */
module Outcomes {

  datatype Error = OutOfRange

  /** A value, or the error the operation threw instead. */
  datatype Result<T> = Success(value: T) | Failure(error: Error)
}
