/** Optional values and error-carrying results, standing in for JavaScript's
    `null`/`undefined` and thrown errors. */
module Outcomes {

  datatype Option<+T> = None | Some(value: T) {
    /** The JavaScript `x || fallback` idiom for a possibly-undefined value. */
    function GetOr(fallback: T): T {
      match this
      case Some(v) => v
      case None => fallback
    }
  }

  /** A computation that either yields a value or raises an error with a message. */
  datatype Result<+T> = Ok(value: T) | Err(message: string)
}
