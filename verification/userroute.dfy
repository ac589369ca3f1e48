/**
 * `POST /api/user`: authenticate (with no development fallback), parse the
 * body, check the email and the name, then create or overwrite the user
 * filed under the token's uid with the sanitized fields.
 */
module UserRoute {
  import opened Wrappers
  import opened Js
  import opened Text
  import opened Store
  import opened AdminAuth
  import opened Http
  import opened Validation

  const UnauthorizedMessage := "Unauthorized"
  const EmailRequiredMessage := "Email is required"
  const InvalidEmailMessage := "Invalid email format"
  const InvalidNameMessage := "Invalid name format"
  const SaveFailedMessage := "Failed to create/update user"
  const NotImplementedMessage := "Not implemented yet"

  /**
   * The row the upsert leaves under `uid` for a body that passed the checks:
   * the email exactly as sent, the trimmed name (none for a falsy name), and
   * the creation time of the existing row or, for a new row, the clock.
   */
  function StoredUser(db: Db, uid: string, email: JsValue, name: JsValue, now: nat): (u: User)
    requires IsValidEmail(email) && IsValidName(name)
    ensures u.id == uid
    ensures u.email == email.s
    ensures Truthy(name) ==> u.name == Some(Trim(name.s))
    ensures !Truthy(name) ==> u.name.None?
    ensures uid in db.users ==> u.createdAt == db.users[uid].createdAt
    ensures uid !in db.users ==> u.createdAt == now
  {
    var input := SanitizeUserInput(email, name);
    UpsertedUser(db, uid, input.email, input.name, now)
  }

  /** The write after the checks: a failed write is a 500 that changes nothing. */
  function SaveChecked(uid: string, email: JsValue, name: JsValue, env: Env, db: Db): (o: Outcome)
    requires IsValidEmail(email) && IsValidName(name)
    ensures o.response.status == 200 <==> env.commits
    ensures !env.commits ==> o == Fail(500, SaveFailedMessage, db)
    ensures env.commits ==>
      && o.response.body == UserSaved(StoredUser(db, uid, email, name, env.now))
      && o.db == SaveUser(db, StoredUser(db, uid, email, name, env.now))
  {
    if !env.commits then Fail(500, SaveFailedMessage, db)
    else
      var user := StoredUser(db, uid, email, name, env.now);
      Outcome(Response(200, UserSaved(user)), SaveUser(db, user))
  }

  /**
   * The `POST` handler once the header has been checked: `auth` is what
   * `verifyAuthHeader` returned (a uid, or the error it threw).
   */
  function Respond(auth: Result<string>, body: Option<JsValue>, env: Env, db: Db): (o: Outcome)
    ensures o.response.status in {200, 400, 401, 500}
    ensures o.response.status != 200 ==> o.db == db && o.response.body.Failure?
    ensures o.response.status == 401 <==> auth.Err?
    ensures auth.Ok? && body.None? ==> o == Fail(400, InvalidJsonMessage, db)
    ensures auth.Ok? && body.Some? && Nullish(body.value) ==> o == Fail(500, SaveFailedMessage, db)
  {
    match auth
    case Err(_) => Fail(401, UnauthorizedMessage, db)
    case Ok(uid) =>
      match body
      case None => Fail(400, InvalidJsonMessage, db)
      case Some(value) =>
        if Nullish(value) then Fail(500, SaveFailedMessage, db)
        else
          var email := Field(value, "email");
          var name := Field(value, "name");
          if !Truthy(email) then Fail(400, EmailRequiredMessage, db)
          else if !IsValidEmail(email) then Fail(400, InvalidEmailMessage, db)
          else if !IsValidName(name) then Fail(400, InvalidNameMessage, db)
          else SaveChecked(uid, email, name, env, db)
  }

  /** The `POST` handler: check the `Authorization` header, then respond. */
  function HandlePost(req: Request, env: Env, db: Db): (o: Outcome)
    ensures o.response.status in {200, 400, 401, 500}
    ensures o.response.status != 200 ==> o.db == db && o.response.body.Failure?
    ensures o.response.status == 401 <==> VerifyAuthHeader(req.authorization, env.admin).Err?
  {
    Respond(VerifyAuthHeader(req.authorization, env.admin), req.body, env, db)
  }

  /** Unparseable JSON is a 400 once the header verifies; a `null` body throws on destructuring and is a 500. */
  lemma ParseFailures(req: Request, env: Env, db: Db)
    requires VerifyAuthHeader(req.authorization, env.admin).Ok?
    ensures req.body.None? ==> HandlePost(req, env, db) == Fail(400, InvalidJsonMessage, db)
    ensures req.body.Some? && Nullish(req.body.value) ==> HandlePost(req, env, db) == Fail(500, SaveFailedMessage, db)
  {
  }

  /** The route's exported handlers: `GET` is a stub, `PUT` and `DELETE` are refused. */
  function Handle(verb: Method, req: Request, env: Env, db: Db): (o: Outcome)
    ensures verb == Method.Get ==> o.response.status == 501 && o.db == db
    ensures verb == Method.Put || verb == Method.Delete ==> o.response.status == 405 && o.db == db
    ensures verb == Method.Post ==> o == HandlePost(req, env, db)
  {
    match verb
    case Post => HandlePost(req, env, db)
    case Get => Fail(501, NotImplementedMessage, db)
    case _ => MethodNotAllowed(db)
  }

  /** The body checks the route accepts, in one place. */
  predicate AcceptableBody(value: JsValue) {
    && !Nullish(value)
    && Truthy(Field(value, "email"))
    && IsValidEmail(Field(value, "email"))
    && IsValidName(Field(value, "name"))
  }

  /** A request saves the user exactly when it authenticates, parses, passes the three checks and the write commits. */
  lemma PostSucceedsExactly(auth: Result<string>, body: Option<JsValue>, env: Env, db: Db)
    ensures Respond(auth, body, env, db).response.status == 200 <==>
      auth.Ok? && body.Some? && AcceptableBody(body.value) && env.commits
  {
  }

  /** Once authenticated and parsed, the first failing check names the 400. */
  lemma ChecksInOrder(uid: string, value: JsValue, env: Env, db: Db)
    requires !Nullish(value)
    ensures var o := Respond(Ok(uid), Some(value), env, db);
      var email := Field(value, "email");
      var name := Field(value, "name");
      && (!Truthy(email) ==> o == Fail(400, EmailRequiredMessage, db))
      && (Truthy(email) && !IsValidEmail(email) ==> o == Fail(400, InvalidEmailMessage, db))
      && (Truthy(email) && IsValidEmail(email) && !IsValidName(name) ==> o == Fail(400, InvalidNameMessage, db))
  {
  }

  /** The outcome of a successful request: the checked body's user, written under the token's uid. */
  lemma SuccessOutcome(auth: Result<string>, body: Option<JsValue>, env: Env, db: Db)
    requires Respond(auth, body, env, db).response.status == 200
    ensures auth.Ok? && body.Some? && !Nullish(body.value) && env.commits
    ensures IsValidEmail(Field(body.value, "email")) && IsValidName(Field(body.value, "name"))
    ensures var user := StoredUser(db, auth.value, Field(body.value, "email"), Field(body.value, "name"), env.now);
      Respond(auth, body, env, db) == Outcome(Response(200, UserSaved(user)), SaveUser(db, user))
  {
  }

  /** The upsert files the user under its id and leaves every other row alone. */
  lemma SavedUserIsStored(db: Db, user: User)
    ensures user.id in SaveUser(db, user).users && SaveUser(db, user).users[user.id] == user
    ensures forall other | other in db.users && other != user.id ::
      other in SaveUser(db, user).users && SaveUser(db, user).users[other] == db.users[other]
    ensures SaveUser(db, user).attempts == db.attempts && SaveUser(db, user).answers == db.answers
  {
  }

  /**
   * A successful request stores under the token's uid the user it returns,
   * and changes no other user, attempt or answer.
   */
  lemma SuccessStoresReturnedUser(auth: Result<string>, body: Option<JsValue>, env: Env, db: Db)
    requires Respond(auth, body, env, db).response.status == 200
    ensures var o := Respond(auth, body, env, db);
      && auth.Ok? && o.response.body.UserSaved?
      && auth.value in o.db.users
      && o.db.users[auth.value] == o.response.body.user
      && (forall other | other in db.users && other != auth.value ::
            other in o.db.users && o.db.users[other] == db.users[other])
      && o.db.attempts == db.attempts && o.db.answers == db.answers
  {
    SuccessOutcome(auth, body, env, db);
    var user := StoredUser(db, auth.value, Field(body.value, "email"), Field(body.value, "name"), env.now);
    SavedUserIsStored(db, user);
  }

  /**
   * The returned (and stored) user carries the uid and the submitted email
   * unchanged, and keeps the creation time of an existing row: the update
   * overwrites the email.
   */
  lemma SuccessUserEmail(auth: Result<string>, body: Option<JsValue>, env: Env, db: Db)
    requires Respond(auth, body, env, db).response.status == 200
    ensures auth.Ok? && body.Some? && !Nullish(body.value)
    ensures IsValidEmail(Field(body.value, "email"))
    ensures Respond(auth, body, env, db).response.body.UserSaved?
    ensures var u := Respond(auth, body, env, db).response.body.user;
      && u.id == auth.value
      && u.email == Field(body.value, "email").s
      && (auth.value in db.users ==> u.createdAt == db.users[auth.value].createdAt)
      && (auth.value !in db.users ==> u.createdAt == env.now)
  {
    SuccessOutcome(auth, body, env, db);
  }

  /** The returned (and stored) user carries the trimmed name, or none for a falsy name: the update overwrites the name. */
  lemma SuccessUserName(auth: Result<string>, body: Option<JsValue>, env: Env, db: Db)
    requires Respond(auth, body, env, db).response.status == 200
    ensures auth.Ok? && body.Some? && !Nullish(body.value)
    ensures IsValidName(Field(body.value, "name"))
    ensures Respond(auth, body, env, db).response.body.UserSaved?
    ensures var u := Respond(auth, body, env, db).response.body.user;
      var name := Field(body.value, "name");
      && (Truthy(name) ==> u.name == Some(Trim(name.s)))
      && (!Truthy(name) ==> u.name.None?)
  {
    SuccessOutcome(auth, body, env, db);
  }

  /** The route keeps the store well-formed. */
  lemma PostKeepsWellFormed(auth: Result<string>, body: Option<JsValue>, env: Env, db: Db)
    requires WellFormed(db)
    ensures WellFormed(Respond(auth, body, env, db).db)
  {
    if Respond(auth, body, env, db).response.status == 200 {
      SuccessOutcome(auth, body, env, db);
      var user := StoredUser(db, auth.value, Field(body.value, "email"), Field(body.value, "name"), env.now);
      SaveUserKeepsWellFormed(db, user);
    }
  }
}
