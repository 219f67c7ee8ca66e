/** The optional values and error outcomes that the lexer, parser,
    interpreter and driver pass between each other. */
module Wrappers {

  /** A value that may be absent, as when a regular expression finds no match. */
  datatype Option<+T> = None | Some(value: T) {

    /** The value found, or `default` for a lookup that found nothing. */
    function GetOr(default: T): T {
      match this
      case Some(v) => v
      case None => default
    }
  }

  /** A value, or the message of the `ValueError` raised instead of it.
      Usable with `:-`, so a raised error passes straight up to the caller. */
  datatype Result<+T> = Success(value: T) | Failure(error: string) {

    predicate IsFailure() {
      Failure?
    }

    function PropagateFailure<U>(): Result<U>
      requires Failure?
    {
      Failure(error)
    }

    function Extract(): T
      requires Success?
    {
      value
    }
  }
}
