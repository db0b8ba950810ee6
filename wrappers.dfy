/** Nullable values, service outcomes and HTTP responses shared by every layer. */
module Wrappers {

  /** A value that may be null: `T?` in the source. */
  datatype Option<+T> = None | Some(value: T) {

    /** The null-coalescing `x ?? fallback`. */
    function GetOr(fallback: T): T {
      match this
      case Some(v) => v
      case None => fallback
    }
  }

  /** The exception types the services throw and the controllers tell apart. */
  datatype Fault =
    | KeyNotFound        // KeyNotFoundException
    | InvalidOperation   // InvalidOperationException
    | Failed             // a plain Exception

  /** The outcome of a service call that may throw. */
  datatype Result<+T> = Success(value: T) | Failure(fault: Fault)

  /** The non-2xx status codes the controllers return. */
  datatype Status = BadRequest | Unauthorized | Forbidden | NotFound | Conflict | InternalServerError {
    function Code(): int {
      match this
      case BadRequest => 400
      case Unauthorized => 401
      case Forbidden => 403
      case NotFound => 404
      case Conflict => 409
      case InternalServerError => 500
    }
  }

  /** A controller's answer: a 2xx with a body, or an error status. */
  datatype Response<+T> = Ok(body: T) | Error(status: Status)
}
