/**
 * What a route handler receives and returns. The request body is the
 * outcome of `request.json()`: `None` when it is not valid JSON. The
 * environment carries everything the handlers read from outside: the
 * `NODE_ENV` setting, the admin SDK, the clock, and whether the database
 * accepts the write.
 */
module Http {
  import opened Wrappers
  import opened Js
  import opened Store
  import opened AdminAuth

  datatype Method = Get | Post | Put | Delete

  datatype Request = Request(authorization: Option<string>, body: Option<JsValue>)

  datatype Env = Env(nodeEnv: Option<string>, admin: Admin, now: nat, commits: bool)

  datatype Body =
    | Failure(error: string)
    | Submitted(attemptId: nat, answersCreated: nat)
    | UserSaved(user: User)

  datatype Response = Response(status: int, body: Body)

  /** A handler's result: the response and the database after the request. */
  datatype Outcome = Outcome(response: Response, db: Db)

  const InvalidJsonMessage := "Invalid JSON in request body"
  const MethodNotAllowedMessage := "Method not allowed"

  function Fail(status: int, message: string, db: Db): Outcome {
    Outcome(Response(status, Failure(message)), db)
  }

  /** The handlers exported for the methods a route does not serve. */
  function MethodNotAllowed(db: Db): (o: Outcome)
    ensures o.response.status == 405 && o.db == db
  {
    Fail(405, MethodNotAllowedMessage, db)
  }
}
