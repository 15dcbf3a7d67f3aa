/** The wrapper types shared by every module of the model:
    `Option` stands for a value that may be `undefined`, `Result` for the
    `ok(...)` / `err(...)` values the services return. */
module Wrappers {

  datatype Option<+T> = None | Some(value: T) {
    function GetOr(default: T): T {
      match this
      case Some(v) => v
      case None => default
    }
  }

  datatype Result<+R, +E> = Success(value: R) | Failure(error: E)
}
