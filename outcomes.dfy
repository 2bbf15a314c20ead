/** Failure-carrying values used throughout the model: a lookup that may find
    nothing, a call that returns a row or the error message it threw, and a
    call that returns nothing or the error message it threw. */
module Outcomes {

  datatype Option<+T> = None | Some(value: T) {
    function GetOr(default: T): T {
      match this
      case Some(v) => v
      case None => default
    }
  }

  datatype Result<+T> = Ok(value: T) | Err(error: string)

  datatype Outcome = Pass | Fail(error: string)
}
