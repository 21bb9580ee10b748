/** Optional values: a request field that may be absent, a row that may be missing. */
module Wrappers {

  datatype Option<+T> = None | Some(value: T) {

    /** The value, or `default` when absent (PHP's `??`). */
    function GetOr(default: T): T {
      match this
      case Some(v) => v
      case None => default
    }
  }

  /** A validated command or the message that rejects it. */
  datatype Result<+T> = Ok(value: T) | Err(message: string)
}
