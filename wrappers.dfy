/** Option and Result, the shapes the Python code expresses with `None` and exceptions. */
module Wrappers {

  datatype Option<+T> = None | Some(value: T) {
    /** `x or default` for a value whose only falsy form is None. */
    function GetOr(default: T): T {
      match this
      case Some(v) => v
      case None => default
    }
  }

  datatype Result<+T, +E> = Ok(value: T) | Err(error: E)
}
