/** Failure-carrying datatypes shared by the whole model.
    `Option` stands for a JavaScript value that may be `undefined`; `Result`
    for an operation that either returns or throws / aborts. */
module Wrappers {

  datatype Option<+T> = None | Some(value: T) {

    /** The value, or `default` when there is none (JavaScript's `x || default`
        on a value that is never falsy). */
    function GetOr(default: T): T {
      match this
      case Some(v) => v
      case None => default
    }
  }

  datatype Result<+T, +E> = Success(value: T) | Failure(error: E)

  /** A check that either passes or aborts with a message. */
  datatype Outcome<+E> = Pass | Fail(error: E)
}
