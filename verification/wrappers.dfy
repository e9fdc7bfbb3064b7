/** Optional values, the error values the services exchange, and the two
    failure-carrying result shapes used throughout the model. */
module Wrappers {

  /** A value that may be absent; stands for Go's nil pointers (`*time.Time`,
      `*string`) and for "no such row". */
  datatype Option<+T> = None | Some(value: T) {
    function GetOr(default: T): T {
      match this
      case Some(v) => v
      case None => default
    }
  }

  /** The errors the modelled code creates or tests for.
      - `RecordNotFound` is the ORM's not-found sentinel.
      - `UserNotFound`, `NoActivePackage` and `UserBanned` are the service
        layer's package-level sentinels; Go compares them by pointer identity,
        so only these exact values match them.
      - `NotFound(m)` is a fresh not-found error carrying message `m`: it has the
        sentinel's text but is not the sentinel.
      - `Internal(m)` wraps another error's message as an internal error.
      - `Fault(m)` is any other failure of the database or of the VPN server. */
  datatype Error =
    | RecordNotFound
    | UserNotFound
    | NoActivePackage
    | UserBanned
    | NotFound(message: string)
    | Internal(message: string)
    | Fault(message: string)

  /** The text `err.Error()` returns. */
  function Message(e: Error): string {
    match e
    case RecordNotFound => "record not found"
    case UserNotFound => "user does not exist"
    case NoActivePackage => "you don't have any active package"
    case UserBanned => "user banned"
    case NotFound(m) => m
    case Internal(m) => m
    case Fault(m) => m
  }

  /** NewInternalError: the error is logged and its message rewrapped as an
      internal error. */
  function InternalError(e: Error): (r: Error)
    ensures r.Internal? && Message(r) == Message(e)
  {
    Internal(Message(e))
  }

  /** A value or the error that prevented it. */
  datatype Result<+T> = Ok(value: T) | Err(error: Error)

  /** The bare `error` return of a Go call: nil or an error. */
  datatype Outcome = Pass | Fail(error: Error)
}
