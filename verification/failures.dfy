/** Optional values, results, and the two kinds of exception the handlers raise:
    FastAPI's HTTPException (a status code with a detail string) and Python's
    ValueError (which also covers the base64 and text-decoding errors). */
module Failures {

  /** Python's `None` or a present value. */
  datatype Option<+T> = None | Some(value: T)

  /** An exception a handler raises to its caller. */
  datatype Exception =
    | HttpException(statusCode: int, detail: string)
    | ValueError(message: string)

  /** A returned value or a raised exception; usable with `:-`. */
  datatype Result<+T> = Success(value: T) | Failure(error: Exception) {

    predicate IsFailure() {
      Failure?
    }

    function PropagateFailure<U>(): Result<U>
      requires Failure?
    {
      Failure(error)
    }

    function Extract(): T
      requires Success?
    {
      value
    }
  }

  const BadRequest: int := 400
  const Unauthorized: int := 401
}
