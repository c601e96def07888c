/** The error type of the SDK, as far as control flow depends on it. */
module Errors {

  datatype HlError =
    | Signing
    | Serialization
    | Http
    | Timeout
    | WebSocket(message: string)
    | Api(status: nat)
    | Rejected(reason: string)
    | InvalidAddress
    | RateLimited(retryAfterMs: nat)
    | Parse(message: string)
    | Validation(message: string)
    | Config
    | WsCancelled
    | WsReconnectExhausted(attempts: nat)

  datatype Result<+T> = Ok(value: T) | Err(error: HlError)

  predicate IsRetryable(e: HlError) {
    match e
    case Http | Timeout | WebSocket(_) | RateLimited(_) => true
    case Api(status) => status >= 500
    case _ => false
  }
}
