/**
 * `POST /api/quiz/submit`: authenticate (falling back to a throw-away
 * development user when `NODE_ENV` is "development"), parse the body, run
 * the field checks in order, then save the user, the attempt and its
 * answers in one transaction. The first failing step decides the response,
 * and no failing step changes the database.
 */
module SubmitRoute {
  import opened Wrappers
  import opened Js
  import opened Text
  import opened Store
  import opened AdminAuth
  import opened Http

  const UnauthorizedMessage := "Unauthorized - Firebase Admin not properly configured"
  const MissingFieldsMessage := "Missing required fields"
  const ScoreRangeMessage := "Score must be a number between 0 and 100"
  const AnswersArrayMessage := "Answers must be a non-empty array"
  const AnswerFormatMessage := "Invalid answer format"
  const SaveFailedMessage := "Failed to save quiz results"
  const DevUserName := "Development User"

  /** The uid of the development stand-in user, minted from the clock. */
  function DevUserId(now: nat): (uid: string)
    ensures |uid| > 9 && uid[..9] == "dev-user-" && uid[9..] == NatToString(now)
  {
    var uid := "dev-user-" + NatToString(now);
    assert uid[9..] == NatToString(now);
    uid
  }

  /** Requests at different times get different development uids. */
  lemma DevUserIdInjective(a: nat, b: nat)
    ensures DevUserId(a) == DevUserId(b) ==> a == b
  {
    DecimalRoundTrip(a);
    DecimalRoundTrip(b);
  }

  predicate IsDevelopment(env: Env) {
    env.nodeEnv == Some("development")
  }

  /**
   * The uid the request acts as: the verified token's, or, when verification
   * fails in development, a fresh development uid.
   */
  function Authenticate(req: Request, env: Env): (r: Result<string>)
    ensures r.Err? <==> VerifyAuthHeader(req.authorization, env.admin).Err? && !IsDevelopment(env)
    ensures VerifyAuthHeader(req.authorization, env.admin).Ok? ==> r == VerifyAuthHeader(req.authorization, env.admin)
    ensures VerifyAuthHeader(req.authorization, env.admin).Err? && IsDevelopment(env) ==> r == Ok(DevUserId(env.now))
  {
    match VerifyAuthHeader(req.authorization, env.admin)
    case Ok(uid) => Ok(uid)
    case Err(_) => if IsDevelopment(env) then Ok(DevUserId(env.now)) else Err(UnauthorizedMessage)
  }

  /** One answer of an accepted submission, as it will be stored. */
  datatype AnswerInput = AnswerInput(questionId: JsValue, selectedAnswer: JsValue, isCorrect: bool)

  /** An accepted submission. */
  datatype Submission = Submission(
    domainType: JsValue,
    score: real,
    totalQuestions: JsValue,
    correctAnswers: JsValue,
    answers: seq<AnswerInput>)

  /** The outcome of the checks: accepted, rejected with a 400, or a thrown `TypeError`. */
  datatype Verdict<+T> = Accept(value: T) | Reject(message: string) | Throw

  /** Property reads on one element of `answers` in the validation loop. */
  function CheckAnswer(a: JsValue): (r: Verdict<AnswerInput>)
    ensures r.Throw? <==> Nullish(a)
    ensures r.Reject? ==> r.message == AnswerFormatMessage
    ensures r.Accept? ==> r.value.questionId == Field(a, "questionId") && r.value.selectedAnswer == Field(a, "selectedAnswer")
    ensures r.Accept? ==> Field(a, "isCorrect") == Bool(r.value.isCorrect)
  {
    if Nullish(a) then Throw
    else
      var questionId := Field(a, "questionId");
      var selected := Field(a, "selectedAnswer");
      var isCorrect := Field(a, "isCorrect");
      if !Truthy(questionId) || !Truthy(selected) || !isCorrect.Bool? then Reject(AnswerFormatMessage)
      else Accept(AnswerInput(questionId, selected, isCorrect.b))
  }

  /** The validation loop: the first answer that throws or is rejected stops it. */
  function CheckAnswers(items: seq<JsValue>): (r: Verdict<seq<AnswerInput>>)
    ensures r.Accept? <==> forall i | 0 <= i < |items| :: CheckAnswer(items[i]).Accept?
    ensures r.Accept? ==>
      && |r.value| == |items|
      && forall i | 0 <= i < |items| :: r.value[i] == CheckAnswer(items[i]).value
    ensures r.Reject? ==> r.message == AnswerFormatMessage
    ensures !r.Accept? ==> exists k | 0 <= k < |items| ::
      && CheckAnswer(items[k]).Throw? == r.Throw?
      && !CheckAnswer(items[k]).Accept?
      && forall j | 0 <= j < k :: CheckAnswer(items[j]).Accept?
    decreases |items|
  {
    if items == [] then Accept([])
    else
      match CheckAnswer(items[0])
      case Throw => Throw
      case Reject(m) => Reject(m)
      case Accept(a) =>
        match CheckAnswers(items[1..])
        case Accept(rest) => Accept([a] + rest)
        case Reject(m) => Reject(m)
        case Throw => Throw
  }

  /** The checks of the route, in source order, from destructuring to the answer loop. */
  function Validate(body: JsValue): (r: Verdict<Submission>)
    ensures Nullish(body) ==> r.Throw?
    ensures r.Reject? ==> r.message in {MissingFieldsMessage, ScoreRangeMessage, AnswersArrayMessage, AnswerFormatMessage}
  {
    if Nullish(body) then Throw
    else
      var domainType := Field(body, "domainType");
      var score := Field(body, "score");
      var totalQuestions := Field(body, "totalQuestions");
      var correctAnswers := Field(body, "correctAnswers");
      var answers := Field(body, "answers");
      if !Truthy(domainType) || score.Undefined? || !Truthy(totalQuestions)
        || correctAnswers.Undefined? || !Truthy(answers)
      then Reject(MissingFieldsMessage)
      else if !score.Num? || score.n < 0.0 || score.n > 100.0 then Reject(ScoreRangeMessage)
      else if !answers.Arr? || |answers.items| == 0 then Reject(AnswersArrayMessage)
      else
        match CheckAnswers(answers.items)
        case Throw => Throw
        case Reject(m) => Reject(m)
        case Accept(inputs) => Accept(Submission(domainType, score.n, totalQuestions, correctAnswers, inputs))
  }

  /** The user the transaction creates when the uid has no row yet. */
  function DevUser(uid: string, now: nat): User {
    User(uid, uid + "@example.com", Some(DevUserName), now)
  }

  function RowsFor(attemptId: nat, answers: seq<AnswerInput>): (rows: seq<AnswerRow>)
    ensures |rows| == |answers|
    ensures forall i | 0 <= i < |rows| ::
      && rows[i].attemptId == attemptId
      && rows[i].questionId == answers[i].questionId
      && rows[i].selectedAnswer == answers[i].selectedAnswer
      && rows[i].isCorrect == answers[i].isCorrect
  {
    seq(|answers|, i requires 0 <= i < |answers| =>
      AnswerRow(0, attemptId, answers[i].questionId, answers[i].selectedAnswer, answers[i].isCorrect))
  }

  /** The transaction: ensure the user, create the attempt, create its answers. */
  function Commit(db: Db, uid: string, sub: Submission, now: nat): (r: Db) {
    var withUser := EnsureUser(db, uid, DevUser(uid, now));
    var attemptId := withUser.nextAttemptId;
    var withAttempt := AddAttempt(withUser, Attempt(0, uid, sub.domainType, sub.score, sub.totalQuestions, sub.correctAnswers, now));
    AddAnswers(withAttempt, RowsFor(attemptId, sub.answers))
  }

  /** The `POST` handler. */
  function HandlePost(req: Request, env: Env, db: Db): (o: Outcome)
    ensures o.response.status in {200, 400, 401, 500}
    ensures o.response.status != 200 ==> o.db == db && o.response.body.Failure?
  {
    match Authenticate(req, env)
    case Err(m) => Fail(401, m, db)
    case Ok(uid) =>
      match req.body
      case None => Fail(400, InvalidJsonMessage, db)
      case Some(body) =>
        match Validate(body)
        case Throw => Fail(500, SaveFailedMessage, db)
        case Reject(m) => Fail(400, m, db)
        case Accept(sub) =>
          if !env.commits then Fail(500, SaveFailedMessage, db)
          else Outcome(Response(200, Submitted(db.nextAttemptId, |sub.answers|)), Commit(db, uid, sub, env.now))
  }

  /** The route's exported handlers. */
  function Handle(verb: Method, req: Request, env: Env, db: Db): (o: Outcome)
    ensures verb != Method.Post ==> o.response.status == 405 && o.db == db
    ensures verb == Method.Post ==> o == HandlePost(req, env, db)
  {
    if verb == Method.Post then HandlePost(req, env, db) else MethodNotAllowed(db)
  }

  // ---------------------------------------------------------------------
  // A declarative statement of which bodies the route accepts.

  /** An element of `answers` the loop accepts. */
  predicate WellFormedAnswer(a: JsValue) {
    && !Nullish(a)
    && Truthy(Field(a, "questionId"))
    && Truthy(Field(a, "selectedAnswer"))
    && Field(a, "isCorrect").Bool?
  }

  /**
   * The request bodies the route saves: an object with a truthy
   * `domainType` and `totalQuestions` (so 0 is refused), a numeric `score`
   * from 0 to 100 inclusive, a `correctAnswers` that is present (so 0 is
   * accepted), and a non-empty array of well-formed answers.
   */
  predicate AcceptableBody(body: JsValue) {
    && !Nullish(body)
    && Truthy(Field(body, "domainType"))
    && Field(body, "score").Num? && 0.0 <= Field(body, "score").n <= 100.0
    && Truthy(Field(body, "totalQuestions"))
    && !Field(body, "correctAnswers").Undefined?
    && Field(body, "answers").Arr? && |Field(body, "answers").items| > 0
    && forall i | 0 <= i < |Field(body, "answers").items| :: WellFormedAnswer(Field(body, "answers").items[i])
  }

  lemma CheckAnswerAccepts(a: JsValue)
    ensures CheckAnswer(a).Accept? <==> WellFormedAnswer(a)
  {
  }

  /** The ordered checks accept exactly the acceptable bodies. */
  lemma ValidateAcceptsExactly(body: JsValue)
    ensures Validate(body).Accept? <==> AcceptableBody(body)
  {
    if !Nullish(body) {
      var answers := Field(body, "answers");
      if answers.Arr? {
        forall i | 0 <= i < |answers.items|
          ensures CheckAnswer(answers.items[i]).Accept? <==> WellFormedAnswer(answers.items[i])
        {
          CheckAnswerAccepts(answers.items[i]);
        }
      }
    }
  }

  /** A request is saved exactly when it authenticates, parses, passes every check and the transaction commits. */
  lemma PostSucceedsExactly(req: Request, env: Env, db: Db)
    ensures HandlePost(req, env, db).response.status == 200 <==>
      && Authenticate(req, env).Ok?
      && req.body.Some?
      && AcceptableBody(req.body.value)
      && env.commits
  {
    if req.body.Some? {
      ValidateAcceptsExactly(req.body.value);
    }
  }

  /** 401 comes only from a failed verification outside development, whatever the body. */
  lemma UnauthorizedExactly(req: Request, env: Env, db: Db)
    ensures HandlePost(req, env, db).response.status == 401 <==>
      VerifyAuthHeader(req.authorization, env.admin).Err? && !IsDevelopment(env)
  {
  }

  /** Authentication is decided before the body is looked at. */
  lemma AuthBeforeBody(authorization: Option<string>, body1: Option<JsValue>, body2: Option<JsValue>, env: Env, db: Db)
    requires Authenticate(Request(authorization, body1), env).Err?
    ensures HandlePost(Request(authorization, body1), env, db) == HandlePost(Request(authorization, body2), env, db)
  {
  }

  /** Unparseable JSON is a 400, once authentication has succeeded or fallen back. */
  lemma InvalidJsonAfterAuth(req: Request, env: Env, db: Db)
    requires Authenticate(req, env).Ok? && req.body.None?
    ensures HandlePost(req, env, db) == Fail(400, InvalidJsonMessage, db)
  {
  }

  /** Once every check passes, a transaction failure is a 500 that adds no row. */
  lemma CommitFailureAddsNothing(req: Request, env: Env, db: Db)
    requires Authenticate(req, env).Ok? && req.body.Some? && AcceptableBody(req.body.value)
    requires !env.commits
    ensures HandlePost(req, env, db) == Fail(500, SaveFailedMessage, db)
  {
    ValidateAcceptsExactly(req.body.value);
  }

  /** Each required field is checked before the score range, the answers array and the answer loop. */
  lemma MissingFieldComesFirst(body: JsValue)
    requires !Nullish(body)
    requires !Truthy(Field(body, "domainType")) || Field(body, "score").Undefined?
      || !Truthy(Field(body, "totalQuestions")) || Field(body, "correctAnswers").Undefined?
      || !Truthy(Field(body, "answers"))
    ensures Validate(body) == Reject(MissingFieldsMessage)
  {
  }

  /** With the required fields present, a score outside 0..100 (101, say) or a non-number is the next refusal. */
  lemma ScoreOutOfRangeRejected(body: JsValue)
    requires !Nullish(body)
    requires Truthy(Field(body, "domainType")) && !Field(body, "score").Undefined?
      && Truthy(Field(body, "totalQuestions")) && !Field(body, "correctAnswers").Undefined?
      && Truthy(Field(body, "answers"))
    requires !Field(body, "score").Num? || Field(body, "score").n < 0.0 || Field(body, "score").n > 100.0
    ensures Validate(body) == Reject(ScoreRangeMessage)
  {
  }

  /** The first two checks pass: every required field is present and the score is a number in 0..100. */
  predicate PassesFieldChecks(body: JsValue) {
    && !Nullish(body)
    && Truthy(Field(body, "domainType")) && !Field(body, "score").Undefined?
    && Truthy(Field(body, "totalQuestions")) && !Field(body, "correctAnswers").Undefined?
    && Truthy(Field(body, "answers"))
    && Field(body, "score").Num? && 0.0 <= Field(body, "score").n <= 100.0
  }

  /** After the field and score checks, an `answers` that is not an array, or is empty, is the next refusal. */
  lemma AnswersArrayRejected(body: JsValue)
    requires PassesFieldChecks(body)
    requires !Field(body, "answers").Arr? || |Field(body, "answers").items| == 0
    ensures Validate(body) == Reject(AnswersArrayMessage)
  {
  }

  /**
   * The answer loop decides by its first element that is not accepted: a
   * `null` or `undefined` element throws on the property read, any other
   * malformed element is refused with the answer-format message.
   */
  lemma AnswerLoopDecides(body: JsValue, k: nat)
    requires PassesFieldChecks(body) && Field(body, "answers").Arr?
    requires k < |Field(body, "answers").items|
    requires forall j | 0 <= j < k :: CheckAnswer(Field(body, "answers").items[j]).Accept?
    requires !WellFormedAnswer(Field(body, "answers").items[k])
    ensures Nullish(Field(body, "answers").items[k]) ==> Validate(body).Throw?
    ensures !Nullish(Field(body, "answers").items[k]) ==> Validate(body) == Reject(AnswerFormatMessage)
  {
    var items := Field(body, "answers").items;
    CheckAnswerAccepts(items[k]);
    var r := CheckAnswers(items);
    if !r.Accept? {
      var k' :| 0 <= k' < |items| && CheckAnswer(items[k']).Throw? == r.Throw?
        && !CheckAnswer(items[k']).Accept? && forall j | 0 <= j < k' :: CheckAnswer(items[j]).Accept?;
      assert k' == k;
    }
  }

  /**
   * Once the request is authenticated and parsed, a refusal of the checks is
   * a 400 carrying its message, and a throw in them reaches the outer catch
   * as a 500.
   */
  lemma VerdictDecidesStatus(req: Request, env: Env, db: Db)
    requires Authenticate(req, env).Ok? && req.body.Some?
    ensures Validate(req.body.value).Reject? ==>
      HandlePost(req, env, db) == Fail(400, Validate(req.body.value).message, db)
    ensures Validate(req.body.value).Throw? ==> HandlePost(req, env, db) == Fail(500, SaveFailedMessage, db)
  {
  }

  /** A `null` element in an otherwise acceptable position is a 500, not a 400. */
  lemma NullAnswerIsServerError(req: Request, env: Env, db: Db)
    requires Authenticate(req, env).Ok? && req.body.Some?
    requires PassesFieldChecks(req.body.value) && Field(req.body.value, "answers") == Arr([Null])
    ensures HandlePost(req, env, db) == Fail(500, SaveFailedMessage, db)
  {
    AnswerLoopDecides(req.body.value, 0);
  }

  /** Replacing the score and the correct count of an acceptable body by 0 keeps it acceptable. */
  lemma ZeroScoreAccepted(body: JsValue)
    requires AcceptableBody(body)
    ensures body.Obj?
    ensures AcceptableBody(Obj(body.fields["score" := Num(0.0)]["correctAnswers" := Num(0.0)]))
  {
    var zeroed := Obj(body.fields["score" := Num(0.0)]["correctAnswers" := Num(0.0)]);
    assert Field(zeroed, "answers") == Field(body, "answers");
    assert Field(zeroed, "domainType") == Field(body, "domainType");
    assert Field(zeroed, "totalQuestions") == Field(body, "totalQuestions");
  }

  /** A `totalQuestions` of 0 is refused, whatever else the body holds. */
  lemma ZeroTotalRejected(body: JsValue)
    requires body.Obj?
    ensures !AcceptableBody(Obj(body.fields["totalQuestions" := Num(0.0)]))
  {
  }

  // ---------------------------------------------------------------------
  // What a successful request writes.

  /**
   * A saved submission adds one attempt, owned by the request's uid, and
   * one answer row per submitted answer, each linked to that attempt; it
   * creates the user only when absent and leaves an existing one untouched.
   */
  lemma SuccessWrites(req: Request, env: Env, db: Db)
    requires HandlePost(req, env, db).response.status == 200
    ensures var o := HandlePost(req, env, db);
      var uid := Authenticate(req, env).value;
      var n := |Field(req.body.value, "answers").items|;
      && o.response.body == Submitted(db.nextAttemptId, n)
      && o.db.attempts[..|db.attempts|] == db.attempts
      && |o.db.attempts| == |db.attempts| + 1
      && o.db.attempts[|db.attempts|].id == db.nextAttemptId
      && o.db.attempts[|db.attempts|].userId == uid
      && o.db.answers[..|db.answers|] == db.answers
      && |o.db.answers| == |db.answers| + n
      && (forall i | |db.answers| <= i < |o.db.answers| :: o.db.answers[i].attemptId == db.nextAttemptId)
      && (uid in db.users ==> o.db.users == db.users)
      && (uid !in db.users ==> o.db.users == db.users[uid := DevUser(uid, env.now)])
  {
    var body := req.body.value;
    var sub := Validate(body).value;
    assert |sub.answers| == |Field(body, "answers").items|;
    var o := HandlePost(req, env, db);
    var rows := RowsFor(db.nextAttemptId, sub.answers);
    var added := Numbered(rows, db.nextAnswerId);
    assert o.db.answers == db.answers + added;
    forall i | |db.answers| <= i < |o.db.answers|
      ensures o.db.answers[i].attemptId == db.nextAttemptId
    {
      assert o.db.answers[i] == added[i - |db.answers|];
    }
  }

  /** An accepted body is carried over field by field, each answer as sent. */
  lemma AcceptedSubmission(body: JsValue)
    requires Validate(body).Accept?
    ensures AcceptableBody(body)
    ensures var sub := Validate(body).value;
      var items := Field(body, "answers").items;
      && sub.domainType == Field(body, "domainType")
      && sub.score == Field(body, "score").n
      && sub.totalQuestions == Field(body, "totalQuestions")
      && sub.correctAnswers == Field(body, "correctAnswers")
      && |sub.answers| == |items|
      && forall i | 0 <= i < |items| ::
        sub.answers[i] == AnswerInput(Field(items[i], "questionId"), Field(items[i], "selectedAnswer"), Field(items[i], "isCorrect").b)
  {
    ValidateAcceptsExactly(body);
    var sub := Validate(body).value;
    var items := Field(body, "answers").items;
    forall i | 0 <= i < |items|
      ensures sub.answers[i] == AnswerInput(Field(items[i], "questionId"), Field(items[i], "selectedAnswer"), Field(items[i], "isCorrect").b)
    {
      assert sub.answers[i] == CheckAnswer(items[i]).value;
    }
  }

  /**
   * What a saved submission writes: the attempt holds the body's domain,
   * score, question count and correct count, the uid and the clock; the
   * i-th new answer row holds the i-th submitted answer's question,
   * selection and correctness, linked to that attempt.
   */
  lemma SuccessWritesContents(req: Request, env: Env, db: Db)
    requires HandlePost(req, env, db).response.status == 200
    ensures req.body.Some? && AcceptableBody(req.body.value) && Authenticate(req, env).Ok?
    ensures var o := HandlePost(req, env, db);
      var items := Field(req.body.value, "answers").items;
      |o.db.attempts| == |db.attempts| + 1 && |o.db.answers| == |db.answers| + |items|
    ensures var o := HandlePost(req, env, db);
      var body := req.body.value;
      o.db.attempts[|db.attempts|] == Attempt(db.nextAttemptId, Authenticate(req, env).value,
        Field(body, "domainType"), Field(body, "score").n, Field(body, "totalQuestions"),
        Field(body, "correctAnswers"), env.now)
    ensures var o := HandlePost(req, env, db);
      var items := Field(req.body.value, "answers").items;
      forall i | 0 <= i < |items| ::
        o.db.answers[|db.answers| + i] == AnswerRow(db.nextAnswerId + i, db.nextAttemptId,
          Field(items[i], "questionId"), Field(items[i], "selectedAnswer"), Field(items[i], "isCorrect").b)
  {
    var body := req.body.value;
    AcceptedSubmission(body);
    SuccessWrites(req, env, db);
    var sub := Validate(body).value;
    var uid := Authenticate(req, env).value;
    var o := HandlePost(req, env, db);
    assert o.db == Commit(db, uid, sub, env.now);
    var rows := RowsFor(db.nextAttemptId, sub.answers);
    var added := Numbered(rows, db.nextAnswerId);
    assert o.db.answers == db.answers + added;
    var items := Field(body, "answers").items;
    forall i | 0 <= i < |items|
      ensures o.db.answers[|db.answers| + i] == AnswerRow(db.nextAnswerId + i, db.nextAttemptId,
        Field(items[i], "questionId"), Field(items[i], "selectedAnswer"), Field(items[i], "isCorrect").b)
    {
      assert o.db.answers[|db.answers| + i] == added[i];
      assert added[i] == rows[i].(id := db.nextAnswerId + i);
    }
  }

  /** The route keeps the store well-formed. */
  lemma PostKeepsWellFormed(req: Request, env: Env, db: Db)
    requires WellFormed(db)
    ensures WellFormed(HandlePost(req, env, db).db)
  {
    if HandlePost(req, env, db).response.status == 200 {
      var uid := Authenticate(req, env).value;
      var sub := Validate(req.body.value).value;
      var withUser := EnsureUser(db, uid, DevUser(uid, env.now));
      EnsureUserKeepsWellFormed(db, uid, DevUser(uid, env.now));
      var attempt := Attempt(0, uid, sub.domainType, sub.score, sub.totalQuestions, sub.correctAnswers, env.now);
      AddAttemptKeepsWellFormed(withUser, attempt);
      var withAttempt := AddAttempt(withUser, attempt);
      AddAnswersKeepsWellFormed(withAttempt, RowsFor(withUser.nextAttemptId, sub.answers));
    }
  }
}
