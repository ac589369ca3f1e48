# PrepMate quiz core in Dafny

PrepMate is a practice-quiz web application. Its core has two halves:

- The browser side. A quiz page loads a question set: it fetches the
  question bank, keeps the chosen domain, refuses an empty set and shuffles
  what remains. It then drives a reducer, a small state machine over
  SELECT, NEXT and RESTART. The reducer keeps the current question, the
  selection, an answer log with one entry per question id, and a score
  recomputed from that log.
- The server side. Two API routes sit behind Firebase ID-token checks.
  `POST /api/quiz/submit` validates a quiz result and stores it in one
  transaction: ensure the user, create the attempt, create its answers.
  `POST /api/user` validates and sanitises an email and a name, then
  creates or overwrites the user under the token's uid.

The model is a set of pure functions over immutable values, one module per
source file plus shared modules:

- `Wrappers` holds `Option` and `Result`.
- `Js` holds parsed JSON values, truthiness and property reads that throw
  on `null` or `undefined`.
- `Text` holds `trim`, `\w`/`\s` character classes, `split`/`join`,
  `startsWith` and decimal printing.
- `Store` holds the database as a value.
- `Http` holds requests, responses and the environment.

A request handler is a function from a request, an environment (the
`NODE_ENV` setting, the admin SDK, the clock, whether the database commits)
and the database to a response and the new database. A JavaScript
exception that the source turns into a status code is modelled as that
status code.

The reducer follows the code, not the written design. The design says
completion freezes the session. The code only sets `complete`, so a later
SELECT still rewrites the log and the score (`QuizReducer.CompletionTransitions`).

## Model

| member | source | states |
|---|---|---|
| QuizReducer.CorrectAnswers | src/components/quiz/reducer.ts:38 | the filter keeps exactly the correct entries of the log, and no more entries than the log holds |
| QuizReducer.CorrectAnswersAppend | src/components/quiz/reducer.ts:38 | filtering a concatenation is the concatenation of the filtered parts, so the filter keeps the log's order |
| QuizReducer.CorrectAnswersOfAllCorrect | src/components/quiz/reducer.ts:38 | a log whose entries are all correct is its own filter |
| QuizReducer.CorrectCountAfterReplace | src/components/quiz/reducer.ts:28-38 | overwriting one entry moves the correct count by exactly the difference between the old and new entry |
| QuizReducer.FindIndex | src/components/quiz/reducer.ts:25 | `findIndex` returns the first entry with the question id, or -1 exactly when no entry has it |
| QuizReducer.AsMapReplace | src/components/quiz/reducer.ts:28-31 | with distinct ids, overwriting the entry of an id updates that one row of the log read as an id-to-entry table |
| QuizReducer.Upsert | src/components/quiz/reducer.ts:24-35 | the record overwrites, in place, the first entry with its id, or is appended when no entry has it; every entry with another id keeps its position; the set of ids gains the record's id; distinct ids stay distinct and the id table changes in that one row |
| QuizReducer.UpsertSameId | src/components/quiz/reducer.ts:25-31 | a log of at most one entry, all with the record's id, collapses to the record alone |
| QuizReducer.UpsertNewId | src/components/quiz/reducer.ts:32-35 | a record whose id is new is appended at the end |
| QuizReducer.UpsertReplaces | src/components/quiz/reducer.ts:28-31 | replacing the first match keeps the set of ids and, for a log with distinct ids, keeps them distinct |
| QuizReducer.UpsertAppends | src/components/quiz/reducer.ts:32-35 | appending a new id adds exactly that id and keeps ids distinct |
| QuizReducer.SelectRecordsAnswer | src/components/quiz/reducer.ts:14-47 | SELECT records the choice, shows the explanation, upserts `(id, answer, answer == correct)`, makes the score the count of correct entries, and leaves the index and completion alone |
| QuizReducer.SelectMovesScoreByAtMostOne | src/components/quiz/reducer.ts:24-38 | one SELECT raises the score by at most one, and lowers it by one only when it overwrites an existing entry |
| QuizReducer.NextAdvancesOrCompletes | src/components/quiz/reducer.ts:48-53 | NEXT at or past the last index only sets `complete`; before it, NEXT advances by one and clears the selection; the score and the log never change |
| QuizReducer.RestartResets | src/components/quiz/reducer.ts:54-55 | RESTART returns the initial state (empty log, score 0, not complete) from any state |
| QuizReducer.ReducePreservesWellFormed | src/components/quiz/reducer.ts:12-59 | every action keeps the score equal to the count of correct entries and the ids distinct |
| QuizReducer.RunPreservesWellFormed | src/components/quiz/reducer.ts:12-59 | the same invariant holds over any sequence of actions |
| QuizReducer.RunKeepsIndexInRange | src/components/quiz/reducer.ts:48-53 | when every NEXT carries the same total, the index stays within `[0, total - 1]` |
| QuizReducer.CompletionTransitions | src/components/quiz/reducer.ts:48-58 | only NEXT at the last index sets completion, and only RESTART clears it |
| QuizPage.AnswerSelectAction | src/app/quiz/page.tsx:22-25 | the answer handler dispatches SELECT with the chosen label and the current question's correct label, and with no question id as written; it has no action (the source throws) when no question is at the index |
| QuizPage.NextAction | src/app/quiz/page.tsx:27-29 | the next handler dispatches NEXT carrying the number of loaded questions |
| QuizPage.RestartAction | src/app/quiz/page.tsx:31-33 | the restart handler dispatches RESTART |
| QuizPage.Percentage | src/app/quiz/page.tsx:73 | the completion percentage is defined exactly when there are questions, lies within half a point of `100 * score / total` with halves rounded up, and is within 0..100 when the score does not exceed the total |
| QuizPage.DomainLabel | src/app/quiz/page.tsx:79 | "all" shows as "Mixed Quiz", no domain as "Quiz", and any other domain as itself |
| QuizPage.DomainLabelCollisions | src/app/quiz/page.tsx:120 | two domains share a label exactly when they are equal, or are no domain and "Quiz", or are "all" and "Mixed Quiz" |
| QuizPage.FinishLabelIffNextCompletes | src/app/quiz/page.tsx:136-140 | the button reads "Finish Quiz" exactly when pressing it completes the quiz, which is on the last question |
| QuizPage.DisplayedCorrect | src/app/quiz/page.tsx:96-97 | the card's correctness says whether the selection equals the current question's correct label, and is undefined when no question is at the index |
| QuizPage.DisplayedCorrectMatchesRecord | src/app/quiz/page.tsx:22-25 | after a choice, the correctness the card shows agrees with the record the reducer logged |
| QuizPage.RunPageKeepsIndexOnAQuestion | src/app/quiz/page.tsx:22-29 | over any sequence of page events the index stays on a loaded question, so the answer handler never throws |
| QuizPage.StepKeepsAnonymousLog | src/app/quiz/page.tsx:22-25 | as written, each page event keeps the log at most one entry long, with no question id, and keeps the score equal to the correct count |
| QuizPage.AsWrittenLogHoldsAtMostOneRecord | src/app/quiz/page.tsx:22-25 | as written, over any sequence of events the log holds at most one record and the score is at most one |
| QuizPage.AllCorrectRun | src/app/quiz/page.tsx:22-29 | answering the first `k` questions correctly, pressing NEXT after each, reaches the state that holds the all-correct log of those rounds |
| QuizPage.AllCorrectScoresOneAsWritten | src/app/quiz/page.tsx:22-25 | as written, answering all `n` questions correctly completes the quiz with score 1 and a one-entry log |
| QuizPage.AllCorrectScoresAllWithQuestionId | src/app/quiz/page.tsx:22-25 | when the handler passes the question id, answering all `n` questions correctly completes the quiz with score `n` and record `i` for question `i` |
| QuestionLoader.RequestHeaders | src/components/quiz/useQuestions.ts:17-25 | the request carries `Authorization: Bearer <token>` exactly when a token was issued, and no other header |
| QuestionLoader.FilterDomain | src/components/quiz/useQuestions.ts:31 | the filter keeps every question of the domain and only those, drawn from the bank |
| QuestionLoader.FilterDomainAppend | src/components/quiz/useQuestions.ts:31 | filtering distributes over concatenation, so the bank's order is kept |
| QuestionLoader.Shuffle | src/components/quiz/useQuestions.ts:35 | the shuffle is a permutation of its input |
| QuestionLoader.ShuffleReachesEveryPermutation | src/components/quiz/useQuestions.ts:35 | every permutation of the list is produced by some sequence of random draws |
| QuestionLoader.Candidates | src/components/quiz/useQuestions.ts:29-32 | the filter applies only for a truthy domain other than "all", and the candidates are empty exactly when no question of the bank survives it |
| QuestionLoader.Prepare | src/components/quiz/useQuestions.ts:29-35 | a successful load is a non-empty permutation of the candidates, all of the requested domain; the "No questions found" error arises exactly when no question of the bank survives the filter |
| QuestionLoader.FetchQuestions | src/components/quiz/useQuestions.ts:14-38 | a loaded set is never empty and, for a filtered domain, holds only that domain's questions |
| QuestionLoader.TokenFailureOnlyDropsCredential | src/components/quiz/useQuestions.ts:18-25 | a failed token request sends no header and loads exactly what a signed-out visitor loads |
| QuestionLoader.FetchOutcomes | src/components/quiz/useQuestions.ts:26-33 | a non-ok response is "Failed to fetch questions", and an ok response without `data.data` is treated as an empty bank |
| Validation.FindIgnoreCase | src/lib/validation.ts:14-16 | the first case-insensitive occurrence at or after the start, or -1 when there is none |
| Validation.MatchLength | src/lib/validation.ts:14-16 | a match of one of the three patterns has a length within the text and contains that pattern's key character; a `javascript:` match is 11 long |
| Validation.RemoveAll | src/lib/validation.ts:14-16 | a global replace by "" only deletes characters: the result is a subsequence of the input |
| Validation.RemoveAllWithoutKeyChar | src/lib/validation.ts:14-16 | a pass leaves alone any text that lacks its pattern's key character |
| Validation.Truncate | src/lib/validation.ts:17 | the slice keeps at most 1000 characters, as a subsequence, and leaves shorter text alone |
| Validation.SanitizeString | src/lib/validation.ts:9-18 | a non-string sanitises to ""; a string gives at most 1000 characters, all taken in order from its trimmed form |
| Validation.SanitizePlain | src/lib/validation.ts:9-18 | text with no `<`, `:` or `=` is only trimmed and truncated |
| Validation.JavascriptRemovalIsSinglePass | src/lib/validation.ts:15 | the deletion is not repeated: `jjavascript:avascript:`, in any letter case, sanitises to the very `javascript:` it deletes |
| Validation.ShortTextHasNoProtocol | src/lib/validation.ts:15 | text of fewer than 11 characters passes the `javascript:` deletion unchanged |
| Validation.EmailPatternIsRegex | src/lib/validation.ts:26-27 | the computed email test accepts exactly the strings the regular expression matches, and those contain exactly one `@` |
| Validation.EmailHasOneAt | src/lib/validation.ts:26 | every `@` in a string of the email shape is its first `@` |
| Validation.ValidEmailSanitizesToItself | src/lib/validation.ts:23-28 | an email that passes `isValidEmail` contains nothing the sanitiser removes, so it is stored exactly as sent |
| Validation.ValidNameSanitizesToTrim | src/lib/validation.ts:33-41 | a truthy name that passes `isValidName` is a string that the sanitiser only trims |
| Validation.SanitizeEmailField | src/lib/validation.ts:51 | a falsy email becomes ""; a valid email is kept unchanged; the result is at most 1000 characters |
| Validation.SanitizeNameField | src/lib/validation.ts:52 | a name is kept exactly when it is truthy, becoming `null` otherwise; a valid one is only trimmed |
| Validation.SanitizeUserInput | src/lib/validation.ts:46-54 | input that passed the user route's checks keeps its email and only has its name trimmed; a falsy name becomes `null` |
| Text.Trim | src/lib/validation.ts:13 | `trim` leaves the infix with no whitespace at either end, and everything cut off is whitespace |
| Text.TrimNoop | src/lib/validation.ts:13 | a string with no whitespace at its ends trims to itself |
| Text.DecimalRoundTrip | src/app/api/quiz/submit/route.ts:24 | reading the printed digits back gives the number, so `String(n)` is injective |
| Text.Split | src/lib/firebase-admin.ts:57 | `split` returns at least one part |
| Text.SplitJoin | src/lib/firebase-admin.ts:57 | joining the parts of a split with the separator gives the string back |
| Text.SplitPartsAreFree | src/lib/firebase-admin.ts:57 | no part of a split contains the separator |
| Js.Property | src/app/api/quiz/submit/route.ts:44 | a property read throws exactly on `null` or `undefined`; otherwise it yields the object's field, or `undefined` when there is none |
| AdminAuth.VerifyIdToken | src/lib/firebase-admin.ts:35-47 | without an admin SDK the call fails with "Firebase Admin not initialized"; otherwise it succeeds exactly for accepted tokens, with their uid, and any other failure becomes "Invalid ID token" |
| AdminAuth.BearerToken | src/lib/firebase-admin.ts:57 | the token is the text after the prefix up to, not including, the next `"Bearer "` |
| AdminAuth.VerifyAuthHeader | src/lib/firebase-admin.ts:52-59 | a missing header, or one without the case-sensitive prefix, fails with "Missing or invalid Authorization header"; a prefixed header verifies exactly as its extracted token does, so it succeeds exactly when that token is accepted |
| AdminAuth.HeaderCarriesToken | src/lib/firebase-admin.ts:52-59 | the header `"Bearer " + t` verifies exactly as the token `t` does, for any `t` that contains no `"Bearer "` |
| AdminAuth.BareBearerSendsEmptyToken | src/lib/firebase-admin.ts:53-58 | `"Bearer "` alone passes the prefix check and sends the empty token to the verifier |
| Http.MethodNotAllowed | src/app/api/quiz/submit/route.ts:142-152 | the refused methods answer 405 and change nothing |
| Store.UpsertedUser | src/app/api/user/route.ts:65-76 | the upserted row has the given id, email and name, and keeps the creation time of an existing row |
| Store.EnsureUser | src/app/api/quiz/submit/route.ts:82-90 | an upsert with an empty update creates the user when absent and otherwise leaves the store as it was |
| Store.SaveUser | src/app/api/user/route.ts:65-76 | the upsert overwrites or creates exactly the user's row and nothing else |
| Store.AddAttempt | src/app/api/quiz/submit/route.ts:93-101 | the attempt is appended under the next attempt id, which then advances by one |
| Store.Numbered | src/app/api/quiz/submit/route.ts:104-111 | `createMany` gives the rows consecutive ids in order and changes nothing else in them |
| Store.AddAnswers | src/app/api/quiz/submit/route.ts:104-111 | the numbered rows are appended and the next answer id advances by their number |
| Store.EnsureUserKeepsWellFormed | src/app/api/quiz/submit/route.ts:82-90 | ensuring a user keeps every row filed under its own id and every foreign key valid |
| Store.SaveUserKeepsWellFormed | src/app/api/user/route.ts:65-76 | the user upsert keeps the store's integrity |
| Store.AddAttemptKeepsWellFormed | src/app/api/quiz/submit/route.ts:93-101 | an attempt of a stored user keeps the integrity and makes its new id a valid attempt id |
| Store.AddAnswersKeepsWellFormed | src/app/api/quiz/submit/route.ts:104-111 | answers linked to stored attempts keep the integrity, with increasing ids |
| SubmitRoute.DevUserId | src/app/api/quiz/submit/route.ts:24 | the development uid is "dev-user-" followed by the clock's decimal digits |
| SubmitRoute.DevUserIdInjective | src/app/api/quiz/submit/route.ts:24 | requests at different times get different development uids |
| SubmitRoute.Authenticate | src/app/api/quiz/submit/route.ts:11-31 | the request acts as the verified uid; a failed verification is an error outside development and a fresh development uid inside it |
| SubmitRoute.CheckAnswer | src/app/api/quiz/submit/route.ts:71 | reading an answer throws exactly on `null`/`undefined`; an accepted answer carries its question, selection and boolean correctness as sent |
| SubmitRoute.CheckAnswers | src/app/api/quiz/submit/route.ts:70-77 | the loop accepts exactly when every answer is accepted, keeping them in order, and otherwise stops at the first answer that throws or is rejected |
| SubmitRoute.Validate | src/app/api/quiz/submit/route.ts:44-77 | destructuring a `null` body throws, and every refusal carries one of the route's four messages |
| SubmitRoute.CheckAnswerAccepts | src/app/api/quiz/submit/route.ts:71 | an answer is accepted exactly when it has a truthy question id, a truthy selection and a boolean correctness |
| SubmitRoute.ValidateAcceptsExactly | src/app/api/quiz/submit/route.ts:44-77 | the ordered checks accept exactly the bodies with truthy `domainType` and `totalQuestions`, a present `correctAnswers`, a numeric score in 0..100 and a non-empty array of well-formed answers |
| SubmitRoute.AcceptedSubmission | src/app/api/quiz/submit/route.ts:44-77 | an accepted submission carries the body's fields, and each answer as sent |
| SubmitRoute.RowsFor | src/app/api/quiz/submit/route.ts:104-111 | one row per submitted answer, in order, each linked to the attempt and holding that answer's fields |
| SubmitRoute.HandlePost | src/app/api/quiz/submit/route.ts:9-137 | the status is 200, 400, 401 or 500, and every non-200 answer is an error that leaves the store unchanged |
| SubmitRoute.Handle | src/app/api/quiz/submit/route.ts:142-152 | methods other than POST answer 405 and change nothing |
| SubmitRoute.PostSucceedsExactly | src/app/api/quiz/submit/route.ts:9-123 | a submission is saved exactly when it authenticates (or falls back in development), parses, passes every check and the transaction commits |
| SubmitRoute.UnauthorizedExactly | src/app/api/quiz/submit/route.ts:14-31 | 401 comes exactly from a failed verification outside development, whatever the body |
| SubmitRoute.AuthBeforeBody | src/app/api/quiz/submit/route.ts:14-42 | an unauthenticated request gets the same answer whatever its body |
| SubmitRoute.InvalidJsonAfterAuth | src/app/api/quiz/submit/route.ts:33-42 | once authenticated, unparseable JSON is a 400 "Invalid JSON in request body" |
| SubmitRoute.CommitFailureAddsNothing | src/app/api/quiz/submit/route.ts:79-136 | a transaction that fails after every check passed is a 500 that adds no row |
| SubmitRoute.MissingFieldComesFirst | src/app/api/quiz/submit/route.ts:46-52 | a missing required field is reported before any other check |
| SubmitRoute.ScoreOutOfRangeRejected | src/app/api/quiz/submit/route.ts:55-60 | with the fields present, a non-numeric score or one outside 0..100 is refused with the score message |
| SubmitRoute.AnswersArrayRejected | src/app/api/quiz/submit/route.ts:62-67 | with the fields present and the score in range, an `answers` that is not an array, or is empty, is refused with "Answers must be a non-empty array" |
| SubmitRoute.AnswerLoopDecides | src/app/api/quiz/submit/route.ts:70-77 | the loop's first element that is not well-formed decides: a `null` or `undefined` element throws, and any other is refused with "Invalid answer format" |
| SubmitRoute.VerdictDecidesStatus | src/app/api/quiz/submit/route.ts:44-136 | once authenticated and parsed, a refusal of the checks is a 400 carrying its message, and a throw inside them is a 500 from the outer catch |
| SubmitRoute.NullAnswerIsServerError | src/app/api/quiz/submit/route.ts:70-77 | an `answers` of `[null]` that got past the earlier checks is answered 500, not 400 |
| SubmitRoute.ZeroScoreAccepted | src/app/api/quiz/submit/route.ts:47-60 | a score of 0 and a correct count of 0 are accepted, since the check tests for `undefined` and not truthiness |
| SubmitRoute.ZeroTotalRejected | src/app/api/quiz/submit/route.ts:47 | a `totalQuestions` of 0 is refused as missing |
| SubmitRoute.SuccessWrites | src/app/api/quiz/submit/route.ts:80-123 | a saved submission reports the new attempt id and the answer count; it appends one attempt owned by the uid and one row per answer linked to it, and creates the user only when absent |
| SubmitRoute.SuccessWritesContents | src/app/api/quiz/submit/route.ts:93-111 | the new attempt holds the body's domain, score, question count and correct count, the uid and the clock; row `i` holds answer `i`'s question, selection and correctness |
| SubmitRoute.PostKeepsWellFormed | src/app/api/quiz/submit/route.ts:80-114 | the route keeps the store's integrity |
| UserRoute.StoredUser | src/app/api/user/route.ts:61-76 | a checked body is stored under the uid with the email as sent, the trimmed name (or none for a falsy name) and the creation time of an existing row or the clock |
| UserRoute.SaveChecked | src/app/api/user/route.ts:64-103 | the write succeeds exactly when the database commits, returning and storing that user; otherwise it is a 500 that changes nothing |
| UserRoute.Respond | src/app/api/user/route.ts:26-103 | once the header has been checked, the status is 200, 400, 401 or 500; 401 arises exactly from a failed check; after a good header, unparseable JSON is a 400 "Invalid JSON in request body" and a `null` body is a 500; every non-200 leaves the store unchanged |
| UserRoute.HandlePost | src/app/api/user/route.ts:11-103 | the status is 200, 400, 401 or 500; 401 arises exactly when header verification fails, with no development fallback; every non-200 leaves the store unchanged |
| UserRoute.ParseFailures | src/app/api/user/route.ts:26-37 | once the header verifies, unparseable JSON is a 400 "Invalid JSON in request body", and a `null` body, whose destructuring throws, is a 500 |
| UserRoute.Handle | src/app/api/user/route.ts:109-137 | GET answers 501 and PUT and DELETE answer 405, all changing nothing |
| UserRoute.PostSucceedsExactly | src/app/api/user/route.ts:11-90 | the user is saved exactly when the request authenticates, parses, has a truthy valid email and a valid name, and the write commits |
| UserRoute.ChecksInOrder | src/app/api/user/route.ts:37-59 | the email presence check comes first, then the email format, then the name format |
| UserRoute.SuccessOutcome | src/app/api/user/route.ts:61-90 | a success returns and stores the user built from the checked body |
| UserRoute.SavedUserIsStored | src/app/api/user/route.ts:65-76 | the upsert files the user under its id and leaves every other row alone |
| UserRoute.SuccessStoresReturnedUser | src/app/api/user/route.ts:65-90 | on success the user stored under the uid is the one returned, and no other user, attempt or answer changes |
| UserRoute.SuccessUserEmail | src/app/api/user/route.ts:62-84 | on success the returned user has the uid and the submitted email, and keeps an existing row's creation time |
| UserRoute.SuccessUserName | src/app/api/user/route.ts:62-84 | on success the returned user has the trimmed name, or none for a falsy name |
| UserRoute.PostKeepsWellFormed | src/app/api/user/route.ts:65-76 | the route keeps the store's integrity |

## Left out

- QuizPage.Percentage: rounds the exact fraction `score / total` half-up, while the source rounds the floating-point product `score / total * 100`. The two differ where the product's rounding error crosses a half: for 23 of 40 the source shows 57 and the model 58.
- Validation.SanitizeString: lengths count Unicode code points, while JavaScript counts UTF-16 code units. A character outside the Basic Multilingual Plane counts once here, and the 1000-character slice can never split a surrogate pair.
- Validation.IsValidName: the 100-character limit counts code points, not UTF-16 code units.
- Validation.IsValidEmail: the 254-character limit counts code points, not UTF-16 code units.
- SubmitRoute.Validate: every JSON number is a finite real. `JSON.parse` turns an out-of-range literal such as `1e400` into an infinity, which fails the score range check or, in another column, makes the database write fail. That write failure is covered only by the environment's `commits` flag.
- The Prisma transaction and the user upsert are one oracle bit, `commits`: either every write lands or the request is a 500 with nothing written. Column typing (a `domainType` that is not a string, an id that is not an integer) is not modelled because the database schema is not part of this model. Such writes fail in the source, and only the `commits` flag stands for that here.
- The `message` field of the 500 responses, which carries `String(error)` in development, is not modelled; the response keeps the status and the error text.
- Console logging, the response's `success` flag and its fixed `message` texts are left out: they do not affect status, body data or the store.
- `Date.now()` is the environment's `now`, and `Math.random()` is the sequence of draws `rolls`. The source sorts with a random comparator, whose output distribution depends on the engine's sort; the model draws the next element from those remaining, which reaches every permutation.
- The `useQuestions` lifecycle is not modelled: the effect's mount/refetch on a change of domain or user, the `isMounted` guard, and the `loading` flag. `FetchQuestions` is one load, with the server as a function of the request headers.
- `QuestionLoader.FetchQuestions`: a JSON body that is `null`, or whose `data.data` is truthy but not an array, is not modelled; the response is taken to carry a question list or nothing.
- Initialising the Firebase Admin SDK (src/lib/firebase-admin.ts:1-30) is the `Admin` value: either uninitialised or a verifier given as a table of accepted tokens.
- Rendering: the loading, error and empty screens, the sign-in banner and the component tree of the page. Only the values the page computes are modelled.
- The questions API route (src/app/api/questions/route.ts) is not part of this model; the loader treats its answer as given.

## Findings

| source | as written | input that shows it | evidently intended | confidence | as-written member | corrected member |
|---|---|---|---|---|---|---|
| src/app/quiz/page.tsx:24 | the answer handler dispatches SELECT without a `questionId`, so every record has the same (absent) id and each SELECT overwrites the only entry of the log | any quiz of `n >= 2` questions answered all correctly ends with score 1 of `n` | pass `questions[state.currentIndex].id`, as the action type and the reducer's upsert by question id expect, so that the score counts the correct answers | not executed | QuizPage.AllCorrectScoresOneAsWritten | QuizPage.AllCorrectScoresAllWithQuestionId |
