/** Optional values and results, the stand-ins for `null`/`undefined` and thrown errors. */
module Wrappers {

  /** `None` models JavaScript's `null` or `undefined` where the source allows them. */
  datatype Option<+T> = None | Some(value: T)
  {
    /** The `??` operator: the wrapped value, or `default` when absent. */
    function GetOr(default: T): T {
      match this
      case Some(v) => v
      case None => default
    }
  }

  /** The outcome of an operation that can throw: a value or an error message. */
  datatype Result<+T> = Ok(value: T) | Err(message: string)
}
