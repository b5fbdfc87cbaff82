/** Failure-carrying datatypes: Java's Optional, a value-or-exception result,
    and the outcome of a void method that may throw. */
module Wrappers {

  datatype Option<+T> = None | Some(value: T)

  datatype Result<+R, +E> = Success(value: R) | Failure(error: E)

  datatype Outcome<+E> = Pass | Fail(error: E)
}
