/** Values that may be missing (JavaScript `null`/`undefined`) and outcomes that may fail
    (a thrown error or an `{ error }` result of a table call). */
module Wrappers {

  datatype Option<+T> = None | Some(value: T) {
    function GetOr(default: T): T {
      match this
      case Some(v) => v
      case None => default
    }
  }

  datatype Result<+R, +E> = Ok(value: R) | Err(error: E)
}
