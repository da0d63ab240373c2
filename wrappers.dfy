/** Option and Result: the "absent" value that stands for Java's null, and the
    outcome of an operation that may end in an exception. */
module Wrappers {

  datatype Option<+T> = None | Some(value: T)

  datatype Result<+R, +E> = Success(value: R) | Failure(error: E)
}
