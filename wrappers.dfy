/** Option and Result: Java's nullable references and thrown exceptions, as values. */
module Wrappers {

  /** A nullable reference: `None` stands for Java's `null`. */
  datatype Option<+T> = None | Some(value: T)

  /** The outcome of a Java call that may throw: `Failure` carries the exception's message. */
  datatype Result<+R, +E> = Success(value: R) | Failure(error: E) {

    predicate IsFailure() {
      Failure?
    }

    function PropagateFailure<U>(): Result<U, E>
      requires Failure?
    {
      Failure(error)
    }

    function Extract(): R
      requires Success?
    {
      value
    }
  }
}
