/** What a route handler answers: a value, or the HTTP error it raises. */
module Http {

  /** The errors the lifecycle handlers raise, as statuses 400, 403, 404
      and 500. `ServerError` stands for an uncaught exception inside a
      handler (subscripting a lookup that returned None), which the web
      framework answers with status 500. */
  datatype Error = BadRequest | Forbidden | NotFound | ServerError

  datatype Result<+T> = Ok(value: T) | Err(error: Error)
}
