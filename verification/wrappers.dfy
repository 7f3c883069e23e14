/** Failure-compatible value types shared by every module of the model.
    `Option` stands for a Java reference that may be null; `Result` for a
    call that either returns or throws. */
module Wrappers {

  datatype Option<+T> = None | Some(value: T) {

    /** The value, or `default` when this is None (Java's "x == null ? d : x"). */
    function GetOr(default: T): T {
      match this
      case Some(v) => v
      case None => default
    }
  }

  datatype Result<+T, +E> = Ok(value: T) | Err(error: E)
}
