/** The exceptions the core raises, and the result wrappers that carry them. */
module Failures {

  /** One constructor per exception class the core raises or lets escape.
      PathNotDir and PathExists are kinds of PathInvalid (see IsPathInvalid). */
  datatype Error =
    | PathInvalid(msg: string)
    | PathNotDir(msg: string)
    | PathExists(msg: string)
    | PathNotFound(msg: string)
    | RevisionNotFound(msg: string)
    | KeyError(msg: string)
    | TypeError(msg: string)
    | ValueError(msg: string)
    | IndexError(msg: string)
    | Abort(msg: string)
    | NameError(msg: string)
    | RecursionDepth

  /** `except PathInvalid` also catches its two subclasses. */
  predicate IsPathInvalid(e: Error) {
    e.PathInvalid? || e.PathNotDir? || e.PathExists?
  }

  datatype Option<+T> = None | Some(value: T) {
    function GetOr(default: T): T {
      if Some? then value else default
    }
  }

  datatype Result<+T> = Ok(value: T) | Err(error: Error) {
    predicate IsFailure() {
      Err?
    }

    function PropagateFailure<U>(): Result<U>
      requires Err?
    {
      Err(error)
    }

    function Extract(): T
      requires Ok?
    {
      value
    }
  }
}
