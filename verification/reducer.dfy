/**
 * The quiz session state machine: a total, deterministic reducer over
 * SELECT, NEXT and RESTART (and any other action object, which it ignores).
 */
module QuizReducer {
  import opened Wrappers

  /**
   * One entry of the answer log. The question id is optional: the type
   * declares it a number, but a caller may leave it `undefined`.
   */
  datatype QuizAnswer = QuizAnswer(questionId: Option<int>, selectedAnswer: string, isCorrect: bool)

  datatype QuizState = QuizState(
    currentIndex: int,
    selectedAnswer: Option<string>,
    showExplanation: bool,
    score: int,
    answers: seq<QuizAnswer>,
    complete: bool)

  datatype QuizAction =
    | Select(answer: string, correctAnswer: string, questionId: Option<int>)
    | Next(total: int)
    | Restart
      /** An action object whose `type` is none of the three: the `default` branch. */
    | Unrecognized

  /** First question, nothing selected, no explanation, empty log, not complete. */
  const InitialState: QuizState := QuizState(0, None, false, 0, [], false)

  /** `answers.filter(a => a.isCorrect)`. */
  function CorrectAnswers(log: seq<QuizAnswer>): (r: seq<QuizAnswer>)
    ensures |r| <= |log|
    ensures forall i | 0 <= i < |r| :: r[i].isCorrect && r[i] in log
    ensures forall i | 0 <= i < |log| && log[i].isCorrect :: log[i] in r
  {
    if |log| == 0 then []
    else (if log[0].isCorrect then [log[0]] else []) + CorrectAnswers(log[1..])
  }

  /** Filtering distributes over concatenation, so it keeps the log's order. */
  lemma {:induction false} CorrectAnswersAppend(a: seq<QuizAnswer>, b: seq<QuizAnswer>)
    ensures CorrectAnswers(a + b) == CorrectAnswers(a) + CorrectAnswers(b)
    decreases |a|
  {
    if |a| == 0 {
      assert a + b == b;
    } else {
      assert (a + b)[0] == a[0];
      assert (a + b)[1..] == a[1..] + b;
      CorrectAnswersAppend(a[1..], b);
    }
  }

  /** A log of correct entries only is its own filter. */
  lemma {:induction false} CorrectAnswersOfAllCorrect(log: seq<QuizAnswer>)
    requires forall i | 0 <= i < |log| :: log[i].isCorrect
    ensures CorrectAnswers(log) == log
    decreases |log|
  {
    if |log| > 0 {
      CorrectAnswersOfAllCorrect(log[1..]);
      assert [log[0]] + log[1..] == log;
    }
  }

  function CountOf(b: bool): nat {
    if b then 1 else 0
  }

  /** Replacing one entry changes the number of correct entries by that entry's difference. */
  lemma CorrectCountAfterReplace(log: seq<QuizAnswer>, k: nat, rec: QuizAnswer)
    requires k < |log|
    ensures |CorrectAnswers(log[k := rec])|
         == |CorrectAnswers(log)| - CountOf(log[k].isCorrect) + CountOf(rec.isCorrect)
  {
    var pre, post := log[..k], log[k + 1..];
    assert log == pre + [log[k]] + post;
    assert log[k := rec] == pre + [rec] + post;
    CorrectAnswersAppend(pre + [log[k]], post);
    CorrectAnswersAppend(pre, [log[k]]);
    CorrectAnswersAppend(pre + [rec], post);
    CorrectAnswersAppend(pre, [rec]);
  }

  /** `answers.findIndex(a => a.questionId === id)`: the first match, or -1. */
  function FindIndex(log: seq<QuizAnswer>, id: Option<int>): (k: int)
    ensures -1 <= k < |log|
    ensures k >= 0 ==> log[k].questionId == id
    ensures forall j | 0 <= j < |log| && (k < 0 || j < k) :: log[j].questionId != id
  {
    if |log| == 0 then -1
    else if log[0].questionId == id then 0
    else
      var k := FindIndex(log[1..], id);
      if k < 0 then -1 else k + 1
  }

  /** The question ids that have an entry in the log. */
  function Ids(log: seq<QuizAnswer>): set<Option<int>> {
    set a | a in log :: a.questionId
  }

  /** The log holds at most one entry per question id. */
  predicate NoDuplicateIds(log: seq<QuizAnswer>) {
    forall i, j | 0 <= i < j < |log| :: log[i].questionId != log[j].questionId
  }

  /** The log read as a table from question id to its entry (later entries win). */
  ghost function AsMap(log: seq<QuizAnswer>): (m: map<Option<int>, QuizAnswer>)
    ensures m.Keys == Ids(log)
    decreases |log|
  {
    if |log| == 0 then map[]
    else
      var last := log[|log| - 1];
      assert log == log[..|log| - 1] + [last];
      AsMap(log[..|log| - 1])[last.questionId := last]
  }

  /** The table of a non-empty log is the table of all but its last entry, updated by that entry. */
  lemma AsMapLast(log: seq<QuizAnswer>)
    requires |log| > 0
    ensures AsMap(log) == AsMap(log[..|log| - 1])[log[|log| - 1].questionId := log[|log| - 1]]
  {
  }

  lemma MapUpdateTwice<K, V>(m: map<K, V>, key: K, v1: V, v2: V)
    ensures m[key := v1][key := v2] == m[key := v2]
  {
  }

  lemma MapUpdateSwap<K, V>(m: map<K, V>, a: K, b: K, va: V, vb: V)
    requires a != b
    ensures m[a := va][b := vb] == m[b := vb][a := va]
  {
  }

  /** Overwriting the entry of a question keeps the table and updates that one row. */
  lemma {:induction false} AsMapReplace(log: seq<QuizAnswer>, k: nat, rec: QuizAnswer)
    requires NoDuplicateIds(log) && k < |log| && log[k].questionId == rec.questionId
    ensures AsMap(log[k := rec]) == AsMap(log)[rec.questionId := rec]
    decreases |log|
  {
    var n := |log| - 1;
    var last := log[n];
    var updated := log[k := rec];
    var q := rec.questionId;
    AsMapLast(log);
    AsMapLast(updated);
    if k == n {
      assert updated[..n] == log[..n];
      MapUpdateTwice(AsMap(log[..n]), q, last, rec);
    } else {
      assert updated[..n] == log[..n][k := rec];
      assert updated[n] == last;
      assert last.questionId != q;
      AsMapReplace(log[..n], k, rec);
      MapUpdateSwap(AsMap(log[..n]), q, last.questionId, rec, last);
    }
  }

  /**
   * The SELECT upsert: overwrite the entry with the record's question id if
   * there is one, otherwise append the record.
   */
  function Upsert(log: seq<QuizAnswer>, rec: QuizAnswer): (r: seq<QuizAnswer>)
    ensures |r| == |log| + (if rec.questionId in Ids(log) then 0 else 1)
    ensures rec in r
    ensures Ids(r) == Ids(log) + {rec.questionId}
    ensures FindIndex(log, rec.questionId) >= 0 ==> r == log[FindIndex(log, rec.questionId) := rec]
    ensures FindIndex(log, rec.questionId) < 0 ==> r == log + [rec]
    ensures forall j | 0 <= j < |log| && log[j].questionId != rec.questionId :: r[j] == log[j]
    ensures NoDuplicateIds(log) ==>
      NoDuplicateIds(r) && AsMap(r) == AsMap(log)[rec.questionId := rec]
  {
    var k := FindIndex(log, rec.questionId);
    if k >= 0 then
      UpsertReplaces(log, k, rec);
      log[k := rec]
    else
      UpsertAppends(log, rec);
      log + [rec]
  }

  /** When every entry has the record's question id, the log collapses to the record alone. */
  lemma UpsertSameId(log: seq<QuizAnswer>, rec: QuizAnswer)
    requires |log| <= 1 && forall i | 0 <= i < |log| :: log[i].questionId == rec.questionId
    ensures Upsert(log, rec) == [rec]
  {
    if |log| == 1 {
      assert FindIndex(log, rec.questionId) == 0;
    }
  }

  /** A record whose question id is new is appended. */
  lemma UpsertNewId(log: seq<QuizAnswer>, rec: QuizAnswer)
    requires forall i | 0 <= i < |log| :: log[i].questionId != rec.questionId
    ensures Upsert(log, rec) == log + [rec]
  {
    assert FindIndex(log, rec.questionId) == -1;
  }

  lemma UpsertReplaces(log: seq<QuizAnswer>, k: nat, rec: QuizAnswer)
    requires k < |log| && log[k].questionId == rec.questionId
    requires forall j | 0 <= j < k :: log[j].questionId != rec.questionId
    ensures rec.questionId in Ids(log) && rec in log[k := rec]
    ensures Ids(log[k := rec]) == Ids(log)
    ensures NoDuplicateIds(log) ==>
      NoDuplicateIds(log[k := rec]) && AsMap(log[k := rec]) == AsMap(log)[rec.questionId := rec]
  {
    assert log[k] in log;
    var r := log[k := rec];
    assert r[k] == rec;
    forall id | id in Ids(r) ensures id in Ids(log) {
      var a :| a in r && a.questionId == id;
      var i :| 0 <= i < |r| && r[i] == a;
      assert log[i].questionId == id;
    }
    forall id | id in Ids(log) ensures id in Ids(r) {
      var a :| a in log && a.questionId == id;
      var i :| 0 <= i < |log| && log[i] == a;
      assert r[i].questionId == id;
    }
    if NoDuplicateIds(log) {
      AsMapReplace(log, k, rec);
    }
  }

  lemma UpsertAppends(log: seq<QuizAnswer>, rec: QuizAnswer)
    requires forall j | 0 <= j < |log| :: log[j].questionId != rec.questionId
    ensures rec.questionId !in Ids(log)
    ensures Ids(log + [rec]) == Ids(log) + {rec.questionId}
    ensures NoDuplicateIds(log) ==>
      NoDuplicateIds(log + [rec]) && AsMap(log + [rec]) == AsMap(log)[rec.questionId := rec]
  {
    var r := log + [rec];
    assert r[..|r| - 1] == log;
    forall id | id in Ids(r) ensures id in Ids(log) + {rec.questionId} {
      var a :| a in r && a.questionId == id;
    }
  }

  /** The transition function of the session. */
  function Reduce(s: QuizState, action: QuizAction): QuizState {
    match action
    case Select(answer, correctAnswer, id) =>
      var log := Upsert(s.answers, QuizAnswer(id, answer, answer == correctAnswer));
      s.(selectedAnswer := Some(answer), showExplanation := true,
         score := |CorrectAnswers(log)|, answers := log)
    case Next(total) =>
      if s.currentIndex >= total - 1 then s.(complete := true)
      else s.(currentIndex := s.currentIndex + 1, selectedAnswer := None, showExplanation := false)
    case Restart => InitialState
    case Unrecognized => s
  }

  /** Dispatches the actions one after another. */
  function Run(s: QuizState, actions: seq<QuizAction>): QuizState
    decreases |actions|
  {
    if |actions| == 0 then s else Run(Reduce(s, actions[0]), actions[1..])
  }

  /** The score is the number of correct entries in the log. */
  predicate ScoreMatchesLog(s: QuizState) {
    s.score == |CorrectAnswers(s.answers)|
  }

  /** The session invariant: a recomputable score and one entry per question. */
  predicate WellFormed(s: QuizState) {
    ScoreMatchesLog(s) && NoDuplicateIds(s.answers)
  }

  /**
   * SELECT records the choice and shows the explanation, upserts the
   * record `(id, answer, answer == correctAnswer)` by question id, and
   * recomputes the score from the log; index and completion stay.
   */
  lemma SelectRecordsAnswer(s: QuizState, answer: string, correctAnswer: string, id: Option<int>)
    ensures var r := Reduce(s, Select(answer, correctAnswer, id));
      var rec := QuizAnswer(id, answer, answer == correctAnswer);
      && r.selectedAnswer == Some(answer) && r.showExplanation
      && r.currentIndex == s.currentIndex && r.complete == s.complete
      && ScoreMatchesLog(r)
      && rec in r.answers
      && |r.answers| == |s.answers| + (if id in Ids(s.answers) then 0 else 1)
      && (NoDuplicateIds(s.answers) ==>
            NoDuplicateIds(r.answers) && AsMap(r.answers) == AsMap(s.answers)[id := rec])
  {
  }

  /** Changing one's mind moves the score by at most one. */
  lemma SelectMovesScoreByAtMostOne(s: QuizState, answer: string, correctAnswer: string, id: Option<int>)
    requires WellFormed(s)
    ensures var r := Reduce(s, Select(answer, correctAnswer, id));
      s.score <= r.score <= s.score + 1 || (id in Ids(s.answers) && r.score == s.score - 1)
  {
    var rec := QuizAnswer(id, answer, answer == correctAnswer);
    var k := FindIndex(s.answers, id);
    if k >= 0 {
      CorrectCountAfterReplace(s.answers, k, rec);
      assert s.answers[k] in s.answers;
    } else {
      CorrectAnswersAppend(s.answers, [rec]);
    }
  }

  /**
   * NEXT at or past the last index only marks the session complete; before
   * it, it moves to the next question and clears the selection. The score
   * and the log never change.
   */
  lemma NextAdvancesOrCompletes(s: QuizState, total: int)
    ensures var r := Reduce(s, Next(total));
      && r.score == s.score && r.answers == s.answers
      && (s.currentIndex >= total - 1 ==>
            r.complete && r.currentIndex == s.currentIndex
            && r.selectedAnswer == s.selectedAnswer && r.showExplanation == s.showExplanation)
      && (s.currentIndex < total - 1 ==>
            r.currentIndex == s.currentIndex + 1 && r.selectedAnswer == None
            && !r.showExplanation && r.complete == s.complete)
  {
  }

  /** RESTART forgets everything, whatever the state. */
  lemma RestartResets(s: QuizState)
    ensures Reduce(s, Restart) == InitialState
    ensures InitialState.answers == [] && InitialState.score == 0 && !InitialState.complete
    ensures WellFormed(Reduce(s, Restart))
  {
  }

  lemma ReducePreservesWellFormed(s: QuizState, action: QuizAction)
    requires WellFormed(s)
    ensures WellFormed(Reduce(s, action))
  {
  }

  /** Over any action sequence, the score stays the count of correct log entries, one per question. */
  lemma {:induction false} RunPreservesWellFormed(s: QuizState, actions: seq<QuizAction>)
    requires WellFormed(s)
    ensures WellFormed(Run(s, actions))
    decreases |actions|
  {
    if |actions| > 0 {
      ReducePreservesWellFormed(s, actions[0]);
      RunPreservesWellFormed(Reduce(s, actions[0]), actions[1..]);
    }
  }

  /** Every NEXT in the sequence names the same question count. */
  predicate NextsCarry(actions: seq<QuizAction>, total: int) {
    forall i | 0 <= i < |actions| :: actions[i].Next? ==> actions[i].total == total
  }

  /** The index stays within `[0, total - 1]` when every NEXT carries `total`. */
  lemma {:induction false} RunKeepsIndexInRange(s: QuizState, total: int, actions: seq<QuizAction>)
    requires total >= 1 && 0 <= s.currentIndex <= total - 1
    requires NextsCarry(actions, total)
    ensures 0 <= Run(s, actions).currentIndex <= total - 1
    decreases |actions|
  {
    if |actions| > 0 {
      assert actions[0].Next? ==> actions[0].total == total;
      assert NextsCarry(actions[1..], total) by {
        forall i | 0 <= i < |actions| - 1 ensures actions[1..][i].Next? ==> actions[1..][i].total == total {
          assert actions[1..][i] == actions[i + 1];
        }
      }
      RunKeepsIndexInRange(Reduce(s, actions[0]), total, actions[1..]);
    }
  }

  /**
   * Completion is reached only by NEXT at the last index, and only RESTART
   * clears it. Nothing else is frozen: a SELECT after completion still
   * updates the log and the score.
   */
  lemma CompletionTransitions(s: QuizState, action: QuizAction)
    ensures var r := Reduce(s, action);
      && (!s.complete && r.complete ==> action.Next? && s.currentIndex >= action.total - 1)
      && (s.complete && !r.complete ==> action.Restart?)
  {
  }
}
