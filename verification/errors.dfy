/** The exceptions the client raises. `StakeAPIError` and its subclasses
    `AuthenticationError` and `RateLimitError` come from
    `stakeapi/exceptions.py`; the other subclasses declared there are never
    raised by the modelled code. */
module Errors {
  import opened Wrappers
  import opened Json

  /** `ApiStatusError` is the plain `StakeAPIError` raised for a failing
      status other than 401 and 429; Python renders its status and decoded
      body into the message `API error: <status> - <body>`, and the model
      keeps the two values instead. `PythonFault` is a built-in exception
      that escapes from a response of an unexpected shape. */
  datatype ClientError =
    | StakeApiError(message: string)
    | AuthenticationError(message: string)
    | RateLimitError(message: string)
    | ApiStatusError(status: int, body: Json)
    | PythonFault(fault: Fault)

  /** Caught by `except StakeAPIError`. */
  predicate IsStakeApiError(e: ClientError) {
    !e.PythonFault?
  }

  /** A built-in exception propagating out of the client unchanged. */
  function Lift<T>(r: Result<T, Fault>): (r': Result<T, ClientError>)
    ensures r.Success? ==> r' == Success(r.value)
    ensures r.Failure? ==> r' == Failure(PythonFault(r.error))
  {
    match r
    case Success(v) => Success(v)
    case Failure(f) => Failure(PythonFault(f))
  }
}
