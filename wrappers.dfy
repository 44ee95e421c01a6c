/** Option and result types shared by every controller of the memo service. */
module Wrappers {

  datatype Option<+T> = None | Some(value: T) {
    function GetOr(default: T): T {
      match this
      case Some(v) => v
      case None => default
    }
  }

  /** An error a controller raises: the HTTP status it sets with `res.status` and the error message. */
  datatype Failure = Failure(code: nat, message: string)

  /** The outcome of a controller: the data it sends back, or the error it throws. */
  datatype Result<+T> = Ok(value: T) | Err(failure: Failure)

  /** The outcome of a middleware: `next()` or the error it throws. */
  datatype Outcome = Pass | Fail(failure: Failure)

  const BadRequest: nat := 400
  const Unauthorized: nat := 401
  const Forbidden: nat := 403
  const NotFound: nat := 404
  const ServerError: nat := 500

  /** JavaScript truthiness of an optional string: absent, null and "" are falsy. */
  predicate Truthy(s: Option<string>) {
    s.Some? && s.value != ""
  }

  /** `s || fallback` on an optional string. */
  function OrElse(s: Option<string>, fallback: string): (r: string)
    ensures Truthy(s) ==> r == s.value
    ensures !Truthy(s) ==> r == fallback
  {
    if Truthy(s) then s.value else fallback
  }
}
