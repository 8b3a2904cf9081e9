/** The outcome of one call of the HTTP API (src/api/tasks.ts). Each wrapper
    throws, which is `Failure` here, in three cases: `fetch` itself rejects
    (no connection), the response is not `ok`, or `response.json()` rejects
    because the body is not JSON (for a DELETE this includes an `ok` response
    with an empty body). Otherwise it yields the decoded body, which is
    `Success`. Which of these happens is a free parameter of the model. */
module TaskApi {

  datatype ApiResult<+T> = Success(value: T) | Failure

  /** The body of a successful `DELETE`, whose content the client ignores. */
  datatype Deleted = Deleted
}
