/** Failure-compatible result type used for the client's error returns. */
module Wrappers {

  /** Either a value or the error the Go code would return alongside a nil value. */
  datatype Result<+R, +E> = Success(value: R) | Failure(error: E) {

    predicate IsFailure() {
      Failure?
    }

    function PropagateFailure<U>(): Result<U, E>
      requires Failure?
    {
      Failure(error)
    }

    function Extract(): R
      requires Success?
    {
      value
    }
  }
}

/** The errors `Translate` can return. */
module Errors {

  datatype TranslateError =
    | NoTranslateTextFound   // empty input text, rejected before any request is built
    | InvalidTargetLang      // the service answered with JSON-RPC error code -32600
    | TooManyRequests        // the service answered with HTTP status 429
    | Transport(cause: string) // building, sending or reading the HTTP exchange failed

  /** The text of the Go `error` value for each case. */
  function Message(e: TranslateError): string {
    match e
    case NoTranslateTextFound => "No Translate Text Found"
    case InvalidTargetLang => "Invalid targetLang"
    case TooManyRequests => "Too Many Requests"
    case Transport(cause) => cause
  }
}
