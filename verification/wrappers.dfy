/** Option and Result, the two failure-carrying shapes used throughout the model.
    A Python exception that the program lets escape, or catches and reports, is a
    `Result.Err`; a Python `None` is an `Option.None`. */
module Wrappers {

  datatype Option<+T> = None | Some(value: T) {

    function GetOr(default: T): T {
      match this
      case Some(v) => v
      case None => default
    }
  }

  datatype Result<+T, +E> = Ok(value: T) | Err(error: E)
}
