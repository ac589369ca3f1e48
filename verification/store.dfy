/**
 * The database behind the API routes, as an immutable record: users keyed
 * by their Firebase uid, quiz attempts and their per-question answers, and
 * the next values of the two auto-incremented id columns.
 */
module Store {
  import opened Wrappers
  import opened Js

  datatype User = User(id: string, email: string, name: Option<string>, createdAt: nat)

  /** A stored quiz attempt. The numeric columns hold whatever the request sent. */
  datatype Attempt = Attempt(
    id: nat,
    userId: string,
    domainType: JsValue,
    score: real,
    totalQuestions: JsValue,
    correctAnswers: JsValue,
    completedAt: nat)

  datatype AnswerRow = AnswerRow(id: nat, attemptId: nat, questionId: JsValue, selectedAnswer: JsValue, isCorrect: bool)

  datatype Db = Db(
    users: map<string, User>,
    attempts: seq<Attempt>,
    answers: seq<AnswerRow>,
    nextAttemptId: nat,
    nextAnswerId: nat)

  const EmptyDb := Db(map[], [], [], 1, 1)

  function AttemptIds(db: Db): set<nat> {
    set i | 0 <= i < |db.attempts| :: db.attempts[i].id
  }

  /**
   * The store's integrity: every user is filed under its own id, ids are
   * increasing and below the next id to hand out, every attempt belongs to
   * a stored user and every answer to a stored attempt.
   */
  predicate WellFormed(db: Db) {
    && (forall uid | uid in db.users :: db.users[uid].id == uid)
    && (forall i | 0 <= i < |db.attempts| :: db.attempts[i].id < db.nextAttemptId && db.attempts[i].userId in db.users)
    && (forall i, j | 0 <= i < j < |db.attempts| :: db.attempts[i].id < db.attempts[j].id)
    && (forall i | 0 <= i < |db.answers| :: db.answers[i].id < db.nextAnswerId && db.answers[i].attemptId in AttemptIds(db))
    && (forall i, j | 0 <= i < j < |db.answers| :: db.answers[i].id < db.answers[j].id)
  }

  lemma EmptyDbWellFormed()
    ensures WellFormed(EmptyDb)
  {
  }

  /** What a user upsert writes for `uid`: the given fields, keeping `createdAt` of an existing row. */
  function UpsertedUser(db: Db, uid: string, email: string, name: Option<string>, now: nat): (u: User)
    ensures u.id == uid && u.email == email && u.name == name
    ensures uid in db.users ==> u.createdAt == db.users[uid].createdAt
    ensures uid !in db.users ==> u.createdAt == now
  {
    User(uid, email, name, if uid in db.users then db.users[uid].createdAt else now)
  }

  /** An upsert whose `update` part is empty: create the user when absent, otherwise leave it alone. */
  function EnsureUser(db: Db, uid: string, create: User): (r: Db)
    requires create.id == uid
    ensures uid in r.users
    ensures uid in db.users ==> r == db
    ensures uid !in db.users ==> r == db.(users := db.users[uid := create])
  {
    if uid in db.users then db else db.(users := db.users[uid := create])
  }

  /** An upsert that overwrites the user's fields, or creates the user. */
  function SaveUser(db: Db, user: User): (r: Db)
    ensures r.users == db.users[user.id := user]
    ensures r.attempts == db.attempts && r.answers == db.answers
    ensures r.nextAttemptId == db.nextAttemptId && r.nextAnswerId == db.nextAnswerId
  {
    db.(users := db.users[user.id := user])
  }

  /** Inserts an attempt under the next attempt id. */
  function AddAttempt(db: Db, attempt: Attempt): (r: Db)
    ensures r.attempts == db.attempts + [attempt.(id := db.nextAttemptId)]
    ensures r.nextAttemptId == db.nextAttemptId + 1
    ensures r.users == db.users && r.answers == db.answers && r.nextAnswerId == db.nextAnswerId
  {
    db.(attempts := db.attempts + [attempt.(id := db.nextAttemptId)], nextAttemptId := db.nextAttemptId + 1)
  }

  /** `createMany`: the rows get consecutive ids starting at `firstId`, in order. */
  function Numbered(rows: seq<AnswerRow>, firstId: nat): (r: seq<AnswerRow>)
    ensures |r| == |rows|
    ensures forall i | 0 <= i < |r| :: r[i] == rows[i].(id := firstId + i)
    decreases |rows|
  {
    if rows == [] then [] else [rows[0].(id := firstId)] + Numbered(rows[1..], firstId + 1)
  }

  function AddAnswers(db: Db, rows: seq<AnswerRow>): (r: Db)
    ensures r.answers == db.answers + Numbered(rows, db.nextAnswerId)
    ensures r.nextAnswerId == db.nextAnswerId + |rows|
    ensures r.users == db.users && r.attempts == db.attempts && r.nextAttemptId == db.nextAttemptId
  {
    db.(answers := db.answers + Numbered(rows, db.nextAnswerId), nextAnswerId := db.nextAnswerId + |rows|)
  }

  lemma EnsureUserKeepsWellFormed(db: Db, uid: string, create: User)
    requires WellFormed(db) && create.id == uid
    ensures WellFormed(EnsureUser(db, uid, create))
  {
    var r := EnsureUser(db, uid, create);
    assert AttemptIds(r) == AttemptIds(db);
  }

  lemma SaveUserKeepsWellFormed(db: Db, user: User)
    requires WellFormed(db)
    ensures WellFormed(SaveUser(db, user))
  {
    var r := SaveUser(db, user);
    assert AttemptIds(r) == AttemptIds(db);
  }

  lemma AddAttemptKeepsWellFormed(db: Db, attempt: Attempt)
    requires WellFormed(db) && attempt.userId in db.users
    ensures WellFormed(AddAttempt(db, attempt))
    ensures db.nextAttemptId in AttemptIds(AddAttempt(db, attempt))
  {
    var r := AddAttempt(db, attempt);
    assert r.attempts[|db.attempts|].id == db.nextAttemptId;
    assert AttemptIds(db) <= AttemptIds(r) by {
      forall i | 0 <= i < |db.attempts| ensures db.attempts[i].id in AttemptIds(r) {
        assert r.attempts[i] == db.attempts[i];
      }
    }
  }

  lemma AddAnswersKeepsWellFormed(db: Db, rows: seq<AnswerRow>)
    requires WellFormed(db)
    requires forall i | 0 <= i < |rows| :: rows[i].attemptId in AttemptIds(db)
    ensures WellFormed(AddAnswers(db, rows))
  {
    var r := AddAnswers(db, rows);
    var added := Numbered(rows, db.nextAnswerId);
    assert AttemptIds(r) == AttemptIds(db);
    forall i | 0 <= i < |r.answers|
      ensures r.answers[i].id < r.nextAnswerId && r.answers[i].attemptId in AttemptIds(r)
    {
      if i >= |db.answers| {
        assert r.answers[i] == added[i - |db.answers|];
      }
    }
    forall i, j | 0 <= i < j < |r.answers|
      ensures r.answers[i].id < r.answers[j].id
    {
      if j >= |db.answers| {
        assert r.answers[j] == added[j - |db.answers|];
        if i >= |db.answers| {
          assert r.answers[i] == added[i - |db.answers|];
        }
      }
    }
  }
}
