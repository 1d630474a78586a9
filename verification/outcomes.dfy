/** Failure-compatible wrappers and the error taxonomy of the backend.

    The PHP code signals failure in three ways, and they reach the HTTP
    boundary differently:
    - `InvalidArgument`: an `InvalidArgumentException` thrown by validation,
      the uniqueness checks or the status guard;
    - `RuntimeFailure`: any other `\Exception` (a database error, say);
    - `Fault`: a PHP `\Error` such as the `TypeError` raised under
      `strict_types` or the `DivisionByZeroError` of an integer division by
      zero. These escape the controllers' `catch (\Exception)` blocks and are
      answered by the framework's error middleware.
 */
module Outcomes {

  datatype Option<+T> = None | Some(value: T) {
    predicate IsFailure() { None? }

    function PropagateFailure<U>(): Option<U>
      requires None?
    {
      None
    }

    function Extract(): T
      requires Some?
    {
      value
    }
  }

  datatype Error =
    | InvalidArgument(message: string)
    | RuntimeFailure(message: string)
    | Fault(message: string)

  datatype Result<+R> = Success(value: R) | Failure(error: Error) {
    predicate IsFailure() { Failure? }

    function PropagateFailure<U>(): Result<U>
      requires Failure?
    {
      Failure(error)
    }

    function Extract(): R
      requires Success?
    {
      value
    }
  }

  /** A check that either passes or fails with an error and no value. */
  datatype Check = Pass | Fail(error: Error) {
    predicate IsFailure() { Fail? }

    function PropagateFailure<U>(): Result<U>
      requires Fail?
    {
      Failure(error)
    }
  }

  /** The TypeError a strictly typed PHP call raises on an argument of the wrong type. */
  const TypeError: Error := Fault("TypeError")
}
