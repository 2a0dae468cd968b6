/** Failure-carrying datatypes shared by the whole model: a nullable
    reference, a value-or-exception result, and the two families of Java
    exception the controller tells apart. */
module Outcomes {

  /** A Java reference that may be null. */
  datatype Option<+T> = None | Some(value: T)

  /** The outcome of a call that either returns a value or throws. */
  datatype Result<+T, +E> = Success(value: T) | Failure(error: E)

  /** A thrown exception, reduced to what the callers inspect: whether it is
      a FactoryException (a client-side problem) or anything else, and its
      message. */
  datatype Exception =
    | FactoryException(message: string)
    | OtherException(message: string)
}
