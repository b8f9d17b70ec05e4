/** Results of a route handler: a value, or the HTTP error the handler sends. */
module Outcomes {

  datatype Option<+T> = None | Some(value: T)

  /** The error responses the routes send. Messages are the handlers' own. */
  datatype Error =
    | Invalid                        // 400 with express-validator's list of field errors
    | BadRequest(message: string)    // 400
    | Unauthorized(message: string)  // 401
    | Forbidden(message: string)     // 403
    | NotFound(message: string)      // 404
    | Internal                       // 500: the store rejected the query

  function StatusCode(e: Error): (code: int)
    ensures 400 <= code < 600
  {
    match e
    case Invalid => 400
    case BadRequest(_) => 400
    case Unauthorized(_) => 401
    case Forbidden(_) => 403
    case NotFound(_) => 404
    case Internal => 500
  }

  datatype Result<+T> = Ok(value: T) | Err(error: Error)

  /** A request-body field as express-validator sees it: absent, present with
      a value of the checked kind, or present but failing the check. */
  datatype Field<+T> = Missing | Given(value: T) | Malformed

  /** JavaScript truthiness of an optional string: absent and "" are falsy. */
  predicate Present(s: Option<string>) {
    s.Some? && s.value != ""
  }
}
