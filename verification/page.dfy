/**
 * The quiz page: the handlers that turn clicks into reducer actions, and
 * the values it derives from the session for display.
 */
module QuizPage {
  import opened Wrappers
  import opened QuizReducer
  import opened QuestionLoader

  /**
   * How the answer handler fills in the SELECT action's question id: as the
   * page does it (no id at all), or with the current question's id, as the
   * action type and the reducer's upsert evidently intend.
   */
  datatype Wiring = AsWritten | WithQuestionId

  /**
   * `handleAnswerSelect`: SELECT with the current question's correct label.
   * `None` when there is no question at the current index, where the
   * handler would throw reading `correctAnswer` of `undefined`.
   */
  function AnswerSelectAction(w: Wiring, questions: seq<Question>, s: QuizState, answer: string): (r: Option<QuizAction>)
    ensures r.Some? <==> 0 <= s.currentIndex < |questions|
    ensures r.Some? ==> (r.value.Select? && r.value.answer == answer
                         && r.value.correctAnswer == questions[s.currentIndex].correctAnswer)
    ensures r.Some? && w.AsWritten? ==> r.value.questionId == None
    ensures r.Some? && w.WithQuestionId? ==> r.value.questionId == Some(questions[s.currentIndex].id)
  {
    if 0 <= s.currentIndex < |questions| then
      var q := questions[s.currentIndex];
      Some(Select(answer, q.correctAnswer, if w.WithQuestionId? then Some(q.id) else None))
    else None
  }

  /** `handleNextQuestion`: NEXT with the number of loaded questions. */
  function NextAction(questions: seq<Question>): (r: QuizAction)
    ensures r.Next? && r.total == |questions|
  {
    Next(|questions|)
  }

  /** `handleRestartQuiz`. */
  function RestartAction(): (r: QuizAction)
    ensures r.Restart?
  {
    Restart
  }

  /**
   * `Math.round(score / total * 100)`, rounding halves upwards, on exact
   * rationals. `None` for an empty quiz, where the division yields `NaN`
   * or an infinity.
   */
  function Percentage(score: nat, total: nat): (r: Option<int>)
    ensures r.Some? <==> total > 0
    ensures r.Some? ==> 2 * total * r.value - total <= 200 * score < 2 * total * r.value + total
    ensures r.Some? && score <= total ==> 0 <= r.value <= 100
  {
    if total == 0 then None
    else
      var p := (200 * score + total) / (2 * total);
      PercentageBounds(score, total, p);
      Some(p)
  }

  lemma PercentageBounds(score: nat, total: nat, p: int)
    requires total > 0 && p == (200 * score + total) / (2 * total)
    ensures 2 * total * p - total <= 200 * score < 2 * total * p + total
    ensures score <= total ==> 0 <= p <= 100
  {
    var q := 2 * total;
    var n := 200 * score + total;
    var m := n % q;
    assert n == q * p + m && 0 <= m < q;
    if score <= total {
      assert n < q * 101;
      if p > 100 {
        MulMonotone(q, 101, p);
      }
    }
  }

  lemma MulMonotone(q: nat, a: int, b: int)
    requires a <= b
    ensures q * a <= q * b
  {
  }

  /** The domain label of the header and of the completion screen. */
  function DomainLabel(domain: Option<string>): (r: string)
    ensures domain == Some("all") ==> r == "Mixed Quiz"
    ensures domain == None ==> r == "Quiz"
    ensures domain.Some? && domain.value != "all" ==> r == domain.value
  {
    if domain == Some("all") then "Mixed Quiz" else domain.GetOr("Quiz")
  }

  /**
   * Two domains share a label exactly when they are equal or are one of the
   * two pairs the label conflates: no domain and a domain named "Quiz", or
   * "all" and a domain named "Mixed Quiz".
   */
  lemma DomainLabelCollisions(a: Option<string>, b: Option<string>)
    ensures DomainLabel(a) == DomainLabel(b) <==>
      || a == b
      || ({a, b} == {None, Some("Quiz")})
      || ({a, b} == {Some("all"), Some("Mixed Quiz")})
  {
    if DomainLabel(a) == DomainLabel(b) && a != b {
      if a.None? || b.None? {
        assert {a, b} == {None, Some("Quiz")};
      } else if a == Some("all") || b == Some("all") {
        assert {a, b} == {Some("all"), Some("Mixed Quiz")};
      }
    }
  }

  /** The label of the button that dispatches NEXT. */
  function NextButtonLabel(s: QuizState, total: int): string {
    if s.currentIndex < total - 1 then "Next Question" else "Finish Quiz"
  }

  /** The button reads "Finish Quiz" exactly when pressing it completes the quiz. */
  lemma FinishLabelIffNextCompletes(questions: seq<Question>, s: QuizState)
    requires !s.complete
    ensures NextButtonLabel(s, |questions|) == "Finish Quiz"
        <==> Reduce(s, NextAction(questions)).complete
    ensures 0 <= s.currentIndex < |questions| ==>
      (NextButtonLabel(s, |questions|) == "Finish Quiz" <==> s.currentIndex == |questions| - 1)
  {
  }

  /**
   * The correctness shown on the card: the selection equals the current
   * question's correct label. `None` when there is no current question.
   */
  function DisplayedCorrect(questions: seq<Question>, s: QuizState): (r: Option<bool>)
    ensures r.Some? <==> 0 <= s.currentIndex < |questions|
    ensures r == Some(true) ==> s.selectedAnswer == Some(questions[s.currentIndex].correctAnswer)
    ensures r == Some(false) ==> s.selectedAnswer != Some(questions[s.currentIndex].correctAnswer)
  {
    if 0 <= s.currentIndex < |questions| then
      Some(s.selectedAnswer == Some(questions[s.currentIndex].correctAnswer))
    else None
  }

  /** The correctness shown after choosing agrees with the record the reducer logged. */
  lemma DisplayedCorrectMatchesRecord(w: Wiring, questions: seq<Question>, s: QuizState, answer: string)
    requires 0 <= s.currentIndex < |questions|
    ensures var action := AnswerSelectAction(w, questions, s, answer).value;
      var r := Reduce(s, action);
      DisplayedCorrect(questions, r) == Some(answer == questions[s.currentIndex].correctAnswer)
      && QuizAnswer(action.questionId, answer, answer == questions[s.currentIndex].correctAnswer) in r.answers
  {
    var action := AnswerSelectAction(w, questions, s, answer).value;
    SelectRecordsAnswer(s, answer, action.correctAnswer, action.questionId);
  }

  /** What the user can do on the page. */
  datatype Event = ChooseOption(answer: string) | PressNext | PressRestart

  /**
   * One user event. Options are clickable only on the question card while
   * nothing truthy is selected; the NEXT button shows only with the
   * explanation; RESTART is on the completion screen. Anything else is not
   * on screen and changes nothing.
   */
  function Step(w: Wiring, questions: seq<Question>, s: QuizState, e: Event): QuizState {
    match e
    case ChooseOption(answer) =>
      if !s.complete && |questions| > 0 && (s.selectedAnswer.None? || s.selectedAnswer == Some(""))
      then match AnswerSelectAction(w, questions, s, answer)
        case Some(action) => Reduce(s, action)
        case None => s
      else s
    case PressNext =>
      if !s.complete && |questions| > 0 && s.showExplanation then Reduce(s, NextAction(questions)) else s
    case PressRestart =>
      if s.complete then Reduce(s, RestartAction()) else s
  }

  function RunPage(w: Wiring, questions: seq<Question>, s: QuizState, events: seq<Event>): QuizState
    decreases |events|
  {
    if |events| == 0 then s else RunPage(w, questions, Step(w, questions, s, events[0]), events[1..])
  }

  lemma {:induction false} RunPageAppend(w: Wiring, questions: seq<Question>, s: QuizState, e1: seq<Event>, e2: seq<Event>)
    ensures RunPage(w, questions, s, e1 + e2) == RunPage(w, questions, RunPage(w, questions, s, e1), e2)
    decreases |e1|
  {
    if |e1| == 0 {
      assert e1 + e2 == e2;
    } else {
      assert (e1 + e2)[0] == e1[0];
      assert (e1 + e2)[1..] == e1[1..] + e2;
      RunPageAppend(w, questions, Step(w, questions, s, e1[0]), e1[1..], e2);
    }
  }

  /** The page keeps the current index on a question, so the answer handler never throws. */
  lemma {:induction false} RunPageKeepsIndexOnAQuestion(w: Wiring, questions: seq<Question>, s: QuizState, events: seq<Event>)
    requires |questions| > 0 && 0 <= s.currentIndex < |questions|
    ensures var r := RunPage(w, questions, s, events);
      0 <= r.currentIndex < |questions| && AnswerSelectAction(w, questions, r, "A").Some?
    decreases |events|
  {
    if |events| > 0 {
      RunPageKeepsIndexOnAQuestion(w, questions, Step(w, questions, s, events[0]), events[1..]);
    }
  }

  /** Every log entry has no question id, and there is at most one. */
  predicate AnonymousLog(s: QuizState) {
    |s.answers| <= 1 && forall i | 0 <= i < |s.answers| :: s.answers[i].questionId == None
  }

  lemma StepKeepsAnonymousLog(questions: seq<Question>, s: QuizState, e: Event)
    requires AnonymousLog(s) && ScoreMatchesLog(s)
    ensures var r := Step(AsWritten, questions, s, e);
      AnonymousLog(r) && ScoreMatchesLog(r)
  {
    match e
    case ChooseOption(answer) =>
      var chosen := AnswerSelectAction(AsWritten, questions, s, answer);
      if chosen.Some? {
        var action := chosen.value;
        var rec := QuizAnswer(None, answer, answer == action.correctAnswer);
        UpsertSameId(s.answers, rec);
        assert Reduce(s, action).answers == [rec];
      }
    case PressNext =>
    case PressRestart =>
  }

  /**
   * As written, the answer handler sends no question id, so every SELECT
   * overwrites the single log entry: over any run the log holds at most one
   * record and the score is at most one.
   */
  lemma {:induction false} AsWrittenLogHoldsAtMostOneRecord(questions: seq<Question>, s: QuizState, events: seq<Event>)
    requires AnonymousLog(s) && ScoreMatchesLog(s)
    ensures var r := RunPage(AsWritten, questions, s, events);
      |r.answers| <= 1 && r.score <= 1 && AnonymousLog(r)
    decreases |events|
  {
    if |events| > 0 {
      StepKeepsAnonymousLog(questions, s, events[0]);
      AsWrittenLogHoldsAtMostOneRecord(questions, Step(AsWritten, questions, s, events[0]), events[1..]);
    } else {
      assert |CorrectAnswers(s.answers)| <= |s.answers|;
    }
  }

  /** Answer every question with its correct label, pressing NEXT after each. */
  function AllCorrectEvents(qs: seq<Question>): (r: seq<Event>)
    ensures |r| == 2 * |qs|
  {
    if |qs| == 0 then []
    else AllCorrectEvents(qs[..|qs| - 1]) + [ChooseOption(qs[|qs| - 1].correctAnswer), PressNext]
  }

  /** The log a run of all-correct rounds over `qs` leaves behind. */
  function AllCorrectLog(w: Wiring, qs: seq<Question>): seq<QuizAnswer> {
    if |qs| == 0 then []
    else if w.AsWritten? then [QuizAnswer(None, qs[|qs| - 1].correctAnswer, true)]
    else AllCorrectLog(w, qs[..|qs| - 1]) + [QuizAnswer(Some(qs[|qs| - 1].id), qs[|qs| - 1].correctAnswer, true)]
  }

  predicate DistinctIds(questions: seq<Question>) {
    forall i, j | 0 <= i < j < |questions| :: questions[i].id != questions[j].id
  }

  lemma AllCorrectLogFacts(w: Wiring, qs: seq<Question>)
    ensures |CorrectAnswers(AllCorrectLog(w, qs))| == |AllCorrectLog(w, qs)|
    ensures w.AsWritten? ==> |AllCorrectLog(w, qs)| == (if |qs| == 0 then 0 else 1)
    ensures w.WithQuestionId? ==> |AllCorrectLog(w, qs)| == |qs|
    ensures w.WithQuestionId? ==> forall i | 0 <= i < |AllCorrectLog(w, qs)| ::
      AllCorrectLog(w, qs)[i].questionId == Some(qs[i].id)
  {
    var log := AllCorrectLog(w, qs);
    if w.WithQuestionId? {
      WithIdLogEntries(qs);
    }
    assert forall i | 0 <= i < |log| :: log[i].isCorrect;
    CorrectAnswersOfAllCorrect(log);
  }

  /** With the question id passed, round `i`'s record sits at index `i` of the log. */
  lemma {:induction false} WithIdLogEntries(qs: seq<Question>)
    ensures var log := AllCorrectLog(WithQuestionId, qs);
      |log| == |qs| && forall i | 0 <= i < |qs| :: log[i] == QuizAnswer(Some(qs[i].id), qs[i].correctAnswer, true)
    decreases |qs|
  {
    if |qs| > 0 {
      var front := qs[..|qs| - 1];
      WithIdLogEntries(front);
      assert forall i | 0 <= i < |front| :: front[i] == qs[i];
    }
  }

  /** The session after the first `k` all-correct rounds of a quiz over `questions`. */
  function AfterRounds(w: Wiring, questions: seq<Question>, k: nat): QuizState
    requires 0 < k <= |questions|
  {
    var log := AllCorrectLog(w, questions[..k]);
    if k < |questions| then QuizState(k, None, false, |log|, log, false)
    else QuizState(k - 1, Some(questions[k - 1].correctAnswer), true, |log|, log, true)
  }

  /** One more round: choose the correct label, then press NEXT. */
  lemma RoundStep(w: Wiring, questions: seq<Question>, k: nat)
    requires k < |questions| && DistinctIds(questions)
    requires var s := if k == 0 then InitialState else AfterRounds(w, questions, k);
      s == QuizState(k, None, false, |AllCorrectLog(w, questions[..k])|, AllCorrectLog(w, questions[..k]), false)
    ensures var s := if k == 0 then InitialState else AfterRounds(w, questions, k);
      var e := [ChooseOption(questions[k].correctAnswer), PressNext];
      RunPage(w, questions, s, e) == AfterRounds(w, questions, k + 1)
  {
    var s := if k == 0 then InitialState else AfterRounds(w, questions, k);
    var q := questions[k];
    var s1 := Step(w, questions, s, ChooseOption(q.correctAnswer));
    SelectRound(w, questions, k, s);
    NextRound(w, questions, k, s1);
    var e := [ChooseOption(q.correctAnswer), PressNext];
    assert e[1..] == [PressNext];
    assert [PressNext][1..] == [];
  }

  /** Choosing the right option in round `k` shows the explanation and extends the all-correct log. */
  lemma SelectRound(w: Wiring, questions: seq<Question>, k: nat, s: QuizState)
    requires k < |questions| && DistinctIds(questions)
    requires s == QuizState(k, None, false, |AllCorrectLog(w, questions[..k])|, AllCorrectLog(w, questions[..k]), false)
    ensures var log := AllCorrectLog(w, questions[..k + 1]);
      Step(w, questions, s, ChooseOption(questions[k].correctAnswer))
      == QuizState(k, Some(questions[k].correctAnswer), true, |log|, log, false)
  {
    var q := questions[k];
    var action := AnswerSelectAction(w, questions, s, q.correctAnswer).value;
    SelectExtendsLog(w, questions, k, s);
    AllCorrectLogFacts(w, questions[..k + 1]);
    assert Step(w, questions, s, ChooseOption(q.correctAnswer)) == Reduce(s, action);
  }

  /** Pressing next after round `k` moves to round `k + 1`, or completes the quiz after the last one. */
  lemma NextRound(w: Wiring, questions: seq<Question>, k: nat, s: QuizState)
    requires k < |questions|
    requires var log := AllCorrectLog(w, questions[..k + 1]);
      s == QuizState(k, Some(questions[k].correctAnswer), true, |log|, log, false)
    ensures Step(w, questions, s, PressNext) == AfterRounds(w, questions, k + 1)
  {
  }

  /** Choosing the right option in round `k` extends the all-correct log by that round's record. */
  lemma SelectExtendsLog(w: Wiring, questions: seq<Question>, k: nat, s: QuizState)
    requires k < |questions| && DistinctIds(questions)
    requires s == QuizState(k, None, false, |AllCorrectLog(w, questions[..k])|, AllCorrectLog(w, questions[..k]), false)
    ensures var action := AnswerSelectAction(w, questions, s, questions[k].correctAnswer).value;
      Reduce(s, action).answers == AllCorrectLog(w, questions[..k + 1])
  {
    var q := questions[k];
    var rec := QuizAnswer(if w.WithQuestionId? then Some(q.id) else None, q.correctAnswer, true);
    AllCorrectLogStep(w, questions, k);
    AllCorrectLogFacts(w, questions[..k]);
    if w.WithQuestionId? {
      NewIdInRound(questions, k);
      UpsertNewId(s.answers, rec);
    } else {
      UpsertSameId(s.answers, rec);
    }
  }

  /** The all-correct log after round `k` is the one before it, extended (or, as written, replaced) by that round's record. */
  lemma AllCorrectLogStep(w: Wiring, questions: seq<Question>, k: nat)
    requires k < |questions|
    ensures var rec := QuizAnswer(if w.WithQuestionId? then Some(questions[k].id) else None, questions[k].correctAnswer, true);
      AllCorrectLog(w, questions[..k + 1]) == if w.WithQuestionId? then AllCorrectLog(w, questions[..k]) + [rec] else [rec]
  {
    var prefix := questions[..k + 1];
    assert prefix[..k] == questions[..k];
    assert prefix[k] == questions[k];
  }

  /** With distinct ids, round `k`'s question has no entry yet in the all-correct log of the earlier rounds. */
  lemma NewIdInRound(questions: seq<Question>, k: nat)
    requires k < |questions| && DistinctIds(questions)
    ensures var log := AllCorrectLog(WithQuestionId, questions[..k]);
      forall j | 0 <= j < |log| :: log[j].questionId != Some(questions[k].id)
  {
    var log := AllCorrectLog(WithQuestionId, questions[..k]);
    AllCorrectLogFacts(WithQuestionId, questions[..k]);
    forall j | 0 <= j < |log| ensures log[j].questionId != Some(questions[k].id) {
      assert questions[..k][j] == questions[j];
    }
  }

  /** Every round answered correctly completes the quiz with one log entry per round the wiring keeps. */
  lemma {:induction false} AllCorrectRun(w: Wiring, questions: seq<Question>, k: nat)
    requires 0 < k <= |questions| && DistinctIds(questions)
    ensures RunPage(w, questions, InitialState, AllCorrectEvents(questions[..k])) == AfterRounds(w, questions, k)
    decreases k
  {
    var prefix := questions[..k];
    assert prefix[..k - 1] == questions[..k - 1];
    assert prefix[k - 1] == questions[k - 1];
    var e := [ChooseOption(questions[k - 1].correctAnswer), PressNext];
    var before := AllCorrectEvents(questions[..k - 1]);
    assert AllCorrectEvents(prefix) == before + e;
    RunPageAppend(w, questions, InitialState, before, e);
    if k == 1 {
      assert questions[..0] == [];
      assert before == [];
    } else {
      AllCorrectRun(w, questions, k - 1);
    }
    RoundStart(w, questions, k - 1);
    RoundStep(w, questions, k - 1);
  }

  /** Before round `k` the page shows question `k` unanswered, with the all-correct log so far. */
  lemma RoundStart(w: Wiring, questions: seq<Question>, k: nat)
    requires k < |questions|
    ensures var s := if k == 0 then InitialState else AfterRounds(w, questions, k);
      s == QuizState(k, None, false, |AllCorrectLog(w, questions[..k])|, AllCorrectLog(w, questions[..k]), false)
  {
    if k == 0 {
      assert questions[..0] == [];
    }
  }

  /**
   * As written, answering all of `n` questions correctly completes the quiz
   * with a score of one, whatever `n` is.
   */
  lemma AllCorrectScoresOneAsWritten(questions: seq<Question>)
    requires |questions| > 0 && DistinctIds(questions)
    ensures var r := RunPage(AsWritten, questions, InitialState, AllCorrectEvents(questions));
      r.complete && r.score == 1 && |r.answers| == 1
  {
    assert questions[..|questions|] == questions;
    AllCorrectRun(AsWritten, questions, |questions|);
    AllCorrectLogFacts(AsWritten, questions);
  }

  /**
   * With the question id passed along, answering all of `n` questions
   * correctly completes the quiz with a score of `n`, one record per question.
   */
  lemma AllCorrectScoresAllWithQuestionId(questions: seq<Question>)
    requires |questions| > 0 && DistinctIds(questions)
    ensures var r := RunPage(WithQuestionId, questions, InitialState, AllCorrectEvents(questions));
      r.complete && r.score == |questions| && |r.answers| == |questions|
      && forall i | 0 <= i < |questions| :: r.answers[i] == QuizAnswer(Some(questions[i].id), questions[i].correctAnswer, true)
  {
    assert questions[..|questions|] == questions;
    AllCorrectRun(WithQuestionId, questions, |questions|);
    AllCorrectLogFacts(WithQuestionId, questions);
    WithIdLogEntries(questions);
  }

}
