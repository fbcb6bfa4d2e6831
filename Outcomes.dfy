/**
 * How the core reports failure. Java signals errors with exceptions; here an
 * operation that can throw returns an Outcome or a Result naming the exception.
 */
module Outcomes {

  /** The exceptions the core raises. */
  datatype Error =
    | AssertionFailed                  // a rep-invariant `assert` fails (assertions are enabled)
    | InvalidParameter(message: string) // java.security.InvalidParameterException
    | NullReference                      // a method is called on a null reference

  /** A void method: returns normally or throws. */
  datatype Outcome = Pass | Fail(error: Error)

  /** A value-returning method: returns a value or throws. */
  datatype Result<T> = Success(value: T) | Failure(error: Error)

  /** A reference that may be null. */
  datatype Option<T> = None | Some(value: T)
}
