/** Option, Outcome and Result, shared by the whole model. */
module Wrappers {

  /** A value that may be absent (JavaScript's `undefined`). */
  datatype Option<+T> = None | Some(value: T)
  {
    function GetOr(default: T): T
    {
      match this
      case Some(v) => v
      case None => default
    }
  }

  /** The settlement of a promise that carries no value: it resolves, or it rejects with an error. */
  datatype Outcome<+E> = Resolved | Rejected(error: E)

  /** A value, or the error that took its place. */
  datatype Result<+T, +E> = Ok(value: T) | Err(error: E)
}
