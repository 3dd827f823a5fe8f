/** Failure-compatible datatypes used throughout the model: `Option` stands for
    a JavaScript value that may be `undefined`/`null`, `Result` for an
    operation that may throw. */
module Wrappers {

  datatype Option<+T> = None | Some(value: T) {

    predicate IsFailure() {
      None?
    }

    function PropagateFailure<U>(): Option<U>
      requires None?
    {
      None
    }

    function Extract(): T
      requires Some?
    {
      value
    }

    /** The value, or `default` when absent. */
    function GetOr(default: T): T {
      match this
      case Some(v) => v
      case None => default
    }
  }

  /** The errors the modelled operations throw (the source's `throw new Error(...)`). */
  datatype Error =
    | NotFound        // "Review session not found", "Card not found", "Shared deck not found or access denied"
    | AlreadyExists   // "Card already exists in deck"
    | InvalidTime     // the RangeError of `toISOString` on an Invalid Date

  datatype Result<+R> = Success(value: R) | Failure(error: Error) {

    predicate IsFailure() {
      Failure?
    }

    function PropagateFailure<U>(): Result<U>
      requires Failure?
    {
      Failure(error)
    }

    function Extract(): R
      requires Success?
    {
      value
    }
  }
}
