/** Small result types shared by the model. */
module Wrappers {

  /** A value that may be absent (JavaScript `undefined` / `null`). */
  datatype Option<+T> = None | Some(value: T) {
    function GetOr(default: T): T {
      match this
      case Some(v) => v
      case None => default
    }
  }

  /** The outcome of a remote call: a payload, or the message of the error it threw. */
  datatype Reply<+T> = Ok(value: T) | Err(message: seq<char>)
}
