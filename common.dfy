/**
 * Shared value types: optional values, the failures the services raise,
 * and the result of a service call.
 */
module Common {

  /** A value that may be absent (JavaScript `undefined` or `null`). */
  datatype Option<+T> = None | Some(value: T) {
    function GetOr(default: T): T {
      match this
      case Some(v) => v
      case None => default
    }
  }

  /**
   * The HTTP exceptions the services throw, each with the message text
   * the service passes to the exception's constructor.
   */
  datatype Failure =
    | NotFound(message: string)
    | Conflict(message: string)
    | Forbidden(message: string)

  /** What a service call yields: a value, or the exception it throws. */
  datatype Result<+T> = Ok(value: T) | Err(failure: Failure)

  /** JavaScript truthiness of an optional string: `undefined`, `null` and `""` are falsy. */
  predicate Truthy(s: Option<string>) {
    s.Some? && s.value != ""
  }
}
