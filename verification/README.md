# Online quiz server — a Dafny model

This project models the server side of an online quiz application, plus a few
client-side and companion-service fragments, as pure Dafny functions.

On the server, admins create timed quizzes of multiple-choice questions. A
student starts an attempt, which reserves one result row per quiz and student,
submits answers, and gets a percentage score. Everything sits behind a
bearer-token gate and declarative body validators.

Each handler is modelled as a function from the database, the caller's token
claims and the request to a new database and a reply. The database (`Store.Db`)
holds four tables of rows keyed by AUTO_INCREMENT id. The reply (`Http.Reply`)
is one of:
- a success body;
- an `{ error }` body with a status;
- the "already taken" body, which also carries a result id;
- the validator's `{ errors: [...] }` body.

The modules follow the program's structure:

- `Attempts` covers the attempt lifecycle and scoring engine.
- `Quizzes`, `Questions` and `Accounts` cover the quiz, question and account handlers.
- `Gate` holds the token and role middleware.
- `Validation` holds the request validators.
- `Routes` wires each route's middleware chain to its handler.
- `Students` covers the student-management list query and its duplicate and not-found outcomes.
- `Client` holds the browser fragments: answer collection, the countdown, the pass labels and the stored session.
- `Store`, `Http`, `Text` and `Base` are the shared vocabulary. `Text` provides JavaScript `trim`, `split(' ')`, `parseInt`, `padStart` and the validator's `isInt` and `isLength`.

Several things are passed in as parameters rather than modelled:
- the clock (`now`, in epoch milliseconds);
- password hashing and comparison (`hash`, `compare`);
- token verification (`verify`);
- email syntax (`isEmail`);
- the student schema's verdict (`schemaError`).

Scores are exact reals.

## Model

| member | source | states |
|---|---|---|
| Attempts.StartAttempt | online-quiz-app/server/controllers/attemptController.js:4-56 | Missing quiz: 404 and no row added. An existing row for (quiz, caller): the "already taken" reply with that row's id, database unchanged. Otherwise exactly one new row for (quiz, caller) with score 0 under a fresh id, reply 201 with the quiz's duration and endTime = now + duration·60000. At most one row per (quiz, user) is preserved. |
| Attempts.StartTwiceRefused | online-quiz-app/server/controllers/attemptController.js:23-34 | Two sequential starts never create two rows: the second is refused with the first row's id, at any later time. |
| Attempts.StartAfterSubmitRefused | online-quiz-app/server/controllers/attemptController.js:23-34 | A submitted attempt still blocks a new start for the same quiz and user. |
| Attempts.CountCorrect | online-quiz-app/server/controllers/attemptController.js:80-92 | The number of correct answers never exceeds the number submitted. |
| Attempts.CountIsCorrectPositions | online-quiz-app/server/controllers/attemptController.js:83-92 | The count equals the number of positions holding an answer that names a question of the attempt's quiz with exactly that correct option. |
| Attempts.ScoreAnswers | online-quiz-app/server/controllers/attemptController.js:80-92 | The scoring loop returns the number of correct positions, at most the number of answers. |
| Attempts.CountAppend | online-quiz-app/server/controllers/attemptController.js:83-92 | Counting is additive over concatenation, so an answer repeated for the same question is counted each time. |
| Attempts.CountFullIff | online-quiz-app/server/controllers/attemptController.js:83-92 | The count equals the number of answers iff every answer is correct. |
| Attempts.ForeignQuestionsNeverCount | online-quiz-app/server/controllers/attemptController.js:84-89 | Answers naming questions of another quiz (or no question) never score, whatever option they select. |
| Attempts.Percentage | online-quiz-app/server/controllers/attemptController.js:95 | The percentage times the number submitted equals correct·100, and it lies in [0, 100]. |
| Attempts.PassIff | online-quiz-app/server/controllers/attemptController.js:106 | Passing (≥ 60) holds iff 5·correct ≥ 3·submitted. |
| Attempts.FullIff | online-quiz-app/server/controllers/attemptController.js:95 | The percentage is 100 iff every submitted answer counted. |
| Attempts.SubmitQuiz | online-quiz-app/server/controllers/attemptController.js:59-112 | Unknown id or another user's attempt: 404, nothing changes. Empty answer list: 500, nothing changes. Otherwise the row's score becomes the percentage of correct answers among those submitted, `passed` iff score ≥ 60, and no other row or table changes. The at-most-one-attempt invariant holds. |
| Attempts.SingleCorrectAnswer | online-quiz-app/server/controllers/attemptController.js:89-107 | One submitted answer that is correct scores 100 and passes. |
| Attempts.FullMarksIff | online-quiz-app/server/controllers/attemptController.js:81-95 | A submission scores 100 iff every submitted answer is correct. An attempt that answers 2 of 5 questions, both correctly, therefore scores 100. |
| Attempts.ResubmitOverwrites | online-quiz-app/server/controllers/attemptController.js:96-99 | Submitting twice leaves the database and reply exactly as the second submission alone would: the score is overwritten. |
| Attempts.History | online-quiz-app/server/controllers/attemptController.js:115-135 | Exactly the caller's result rows whose quiz still exists, each once, joined with the quiz's title and duration, in non-increasing takenAt order. |
| Attempts.VisibleRows | online-quiz-app/server/controllers/attemptController.js:120-126 | Before the join, the history query selects exactly the caller's rows whose quiz exists, each once, in non-increasing takenAt order. |
| Attempts.JoinedHistory | online-quiz-app/server/controllers/attemptController.js:120-126 | Joining each selected row with its quiz keeps the order, the ids and full coverage of the caller's rows. |
| Attempts.OnlyVisibleAttempt | online-quiz-app/server/controllers/attemptController.js:120-126 | A caller with a single visible result has exactly that row as history. |
| Attempts.GetResult | online-quiz-app/server/controllers/attemptController.js:138-162 | 200 iff the id exists, belongs to the caller and its quiz exists; the body is that row with its quiz's title and duration. Otherwise 404 "Result not found". |
| Attempts.FirstAttemptScores | online-quiz-app/server/controllers/attemptController.js:4-126 | With no attempts yet, starting a quiz always succeeds. Answering one of its questions correctly then scores 100 and passes, and the caller's history becomes that one attempt with score 100. |
| Attempts.ResultInHistory | online-quiz-app/server/controllers/attemptController.js:143-154 | A result is readable iff it appears in the caller's history. |
| Quizzes.CreateQuiz | online-quiz-app/server/controllers/quizController.js:4-29 | Falsy title or duration (0 included): 400, nothing stored. A duration parseInt cannot read, or one outside the INT column's range: 500, nothing stored. Otherwise one new quiz under a fresh id with the parsed duration. Stored durations stay within the column's range. |
| Quizzes.AllQuizzes | online-quiz-app/server/controllers/quizController.js:36-38 | Every quiz exactly once, newest first. |
| Quizzes.GetQuizById | online-quiz-app/server/controllers/quizController.js:49-83 | 404 iff the quiz is missing. Otherwise the quiz with exactly its questions, in id order, correct options included. |
| Quizzes.UpdateQuiz | online-quiz-app/server/controllers/quizController.js:86-134 | Checks run in this order: 404 for a missing quiz, then 400 when neither field is defined, then 500 for a duration parseInt cannot read or the INT column cannot hold. On success only the defined fields of that quiz change; an empty title counts as defined. Stored durations stay within the column's range. |
| Quizzes.Storable | online-quiz-app/server/controllers/quizController.js:16 | An absent duration is never storable. A JSON number is storable iff it lies in the signed 32-bit INT range. |
| Quizzes.DeleteQuiz | online-quiz-app/server/controllers/quizController.js:137-162 | 404 iff the quiz is missing. Otherwise the quiz and all its questions go, every other quiz and question stays, and results are kept. |
| Quizzes.DeleteThenGone | online-quiz-app/server/controllers/quizController.js:154 | After a delete the quiz reads as 404 and none of its questions remains. |
| Questions.CreateQuestion | online-quiz-app/server/controllers/questionController.js:4-42 | Checks run in this order: 400 when any field is falsy, then 404 for a missing quiz. Otherwise one new question under a fresh id holding the fields as sent. |
| Questions.QuestionsByQuiz | online-quiz-app/server/controllers/questionController.js:45-72 | 404 iff the quiz is missing. Otherwise exactly that quiz's questions, in id order. |
| Questions.UpdateQuestion | online-quiz-app/server/controllers/questionController.js:75-139 | Checks run in this order: 404 for a missing question, then 400 when no field is defined. Otherwise exactly the defined fields change, empty strings included. |
| Questions.DeleteQuestion | online-quiz-app/server/controllers/questionController.js:142-167 | 404 iff the question is missing. Otherwise exactly that question goes. |
| Questions.CreatedQuestionIsListed | online-quiz-app/server/controllers/questionController.js:26-30 | A created question is listed under its quiz with its fields as sent. |
| Questions.UpdateQuestionIdempotent | online-quiz-app/server/controllers/questionController.js:96-131 | Applying the same patch twice is applying it once. |
| Accounts.RoleOf | online-quiz-app/server/controllers/authController.js:7 | The role defaults to "student" when omitted. |
| Accounts.Register | online-quiz-app/server/controllers/authController.js:5-43 | A username or email already in use: 400, nothing stored. Otherwise one new user with the hashed password and stored role; the reply's role and token repeat the stored role. Unique usernames and unique emails are preserved. |
| Accounts.Login | online-quiz-app/server/controllers/authController.js:46-83 | An unknown identifier and a wrong password both give 401 "Invalid credentials". Success iff the first matching user, taken to be the lowest-id user whose username or email equals the identifier, has a matching password; the token carries that user's id and role. |
| Accounts.GetProfile | online-quiz-app/server/controllers/authController.js:86-106 | 404 iff no user has the token's id. Otherwise 200 with that id and the stored username, email, role and creation time; the reply has no password field. |
| Accounts.RegisterThenProfile | online-quiz-app/server/controllers/authController.js:86-104 | The token a registration issues reads back the new user's profile: the new id, the registered username and email, the stored role and the registration time. |
| Accounts.RegisterThenLogin | online-quiz-app/server/controllers/authController.js:25-38 | A freshly registered user logs in with their username and gets their id and role, unless an earlier user's email equals that username. |
| Accounts.LoginShadowedByEmail | online-quiz-app/server/controllers/authController.js:52-62 | When an earlier user's email equals a new username, logging in with it reaches the earlier user, under the lowest-id-first reading of the unordered lookup. |
| Gate.BearerToken | online-quiz-app/server/middleware/auth.js:5 | The token is the second space-separated word of the header when non-empty, and it contains no space. |
| Gate.BearerTokenAnyScheme | online-quiz-app/server/middleware/auth.js:5 | Any scheme word is accepted before the token. |
| Gate.BearerTokenNeedsSpace | online-quiz-app/server/middleware/auth.js:5-9 | A header without a space carries no token. |
| Gate.BearerTokenDoubleSpace | online-quiz-app/server/middleware/auth.js:5-9 | Two spaces after the scheme leave no token. |
| Gate.VerifyJwt | online-quiz-app/server/middleware/auth.js:4-18 | No token: 401 "No token provided". A token that fails verification: 401 "Invalid or expired token". Otherwise `next` with the decoded claims. |
| Gate.RequireAdmin | online-quiz-app/server/middleware/auth.js:21-26 | 403 iff the role is not "admin". |
| Gate.RequireStudent | online-quiz-app/server/middleware/auth.js:29-34 | 403 iff the role is not "student". |
| Validation.ValidateRegister | online-quiz-app/server/middleware/validation.js:4-9 | Accepted iff all of these hold: the trimmed username has ≥ 3 characters, the email is a non-empty email, the password has ≥ 6 characters (lengths counted as isLength counts them, without the variation selectors U+FE0E and U+FE0F), and the role is absent, "student" or "admin". The username is passed on trimmed. Otherwise 1 to 4 errors, the username's first when it fails. |
| Validation.SelectorNotCounted | online-quiz-app/server/middleware/validation.js:7 | "abcde" followed by U+FE0F is six code points but five counted characters, so the password is refused. |
| Validation.ValidateLogin | online-quiz-app/server/middleware/validation.js:12-15 | Accepted iff the trimmed identifier and the password are non-empty. |
| Validation.ValidateQuiz | online-quiz-app/server/middleware/validation.js:18-21 | Accepted iff the trimmed title is non-empty and the duration is a number ≥ 1 or an isInt text ≥ 1 (optional sign, decimal digits, leading zeros allowed). The title is passed on trimmed. |
| Validation.ValidDurationParses | online-quiz-app/server/middleware/validation.js:20 | A duration the validator accepts is truthy and parseInt reads it as the same integer ≥ 1. |
| Validation.IsIntAtLeastOne | online-quiz-app/server/middleware/validation.js:20 | A duration `isInt({ min: 1 })` accepts is truthy; text with white space at either end is refused, since isInt does not trim. |
| Validation.ValidateQuestion | online-quiz-app/server/middleware/validation.js:24-28 | Accepted iff the question text is non-blank, the type is one of three kinds and points is an integer ≥ 1. |
| Validation.ValidateQuestionRejectsHandlerBody | online-quiz-app/server/middleware/validation.js:24-28 | A body with only the question handlers' fields fails all three checks. |
| Text.Trim | online-quiz-app/server/middleware/validation.js:5 | trim never lengthens its input, and a non-empty result neither starts nor ends with JavaScript white space. |
| Text.TrimIsInfix | online-quiz-app/server/middleware/validation.js:5 | trim cuts only whitespace, from both ends, and leaves no edge whitespace. |
| Text.TrimEmptyIff | online-quiz-app/server/middleware/validation.js:13 | A trimmed value is empty iff it was all JavaScript white space: tab through carriage return, the space separators (U+0020, U+00A0, U+1680, U+2000-U+200A, U+202F, U+205F, U+3000), U+2028, U+2029 and U+FEFF. |
| Text.TrimIdempotent | online-quiz-app/server/middleware/validation.js:19 | Trimming twice is trimming once. |
| Text.Split | online-quiz-app/server/middleware/auth.js:5 | split(' ') yields at least one separator-free piece, and the pieces rejoin to the input. |
| Text.SplitJoin | online-quiz-app/server/middleware/auth.js:5 | split inverts join on separator-free pieces. |
| Text.ParseInt | online-quiz-app/server/controllers/quizController.js:16 | After leading white space and an optional sign, a `0x`/`0X` prefix selects base 16 and anything else base 10; the result is NaN iff the next character is not a digit of that base, and negative only after a minus sign. |
| Text.ParseIntHex | online-quiz-app/server/controllers/quizController.js:16 | `0x` or `0X` followed by hexadecimal digits reads as their base-16 value, e.g. "0x1A" as 26. |
| Text.ParseIntBarePrefix | online-quiz-app/server/controllers/quizController.js:16 | A bare "0x" is NaN. |
| Text.ParseIntMinus | online-quiz-app/server/controllers/quizController.js:16 | A minus sign before unsigned text negates what parseInt reads there, and NaN stays NaN. |
| Text.ParseIntSkipsSpace | online-quiz-app/server/controllers/quizController.js:16 | Leading white space never changes what parseInt reads. |
| Http.ParseIntField | online-quiz-app/server/controllers/quizController.js:113 | parseInt of a JSON number is that number, and of an absent field NaN; text goes through parseInt. |
| Text.IsIntText | online-quiz-app/server/middleware/validation.js:20 | Text isInt accepts is non-empty, starts with a digit or a sign, ends with a digit, and so has no white space at either end. |
| Text.IntTextParses | online-quiz-app/server/middleware/validation.js:20 | Text that isInt accepts, leading zeros included, is read by parseInt as the same integer; it never has a `0x` prefix. |
| Text.LeadingZeroIsInt | online-quiz-app/server/middleware/validation.js:20 | A leading zero keeps text isInt-valid with the same value: "05" is accepted as 5. |
| Text.CountedLength | online-quiz-app/server/middleware/validation.js:5-7 | The length isLength counts is never more than the number of code points. |
| Text.CountedLengthPlain | online-quiz-app/server/middleware/validation.js:5-7 | Without variation selectors, isLength counts every code point. |
| Text.CountedLengthSelector | online-quiz-app/server/middleware/validation.js:5-7 | Appending U+FE0F does not lengthen text as isLength counts it. |
| Text.DecimalRoundTrip | online-quiz-app/public/js/app.js:542 | Printing a number in decimal and reading it back gives the number. |
| Text.PadStart | online-quiz-app/public/js/app.js:542 | padStart keeps the text as a suffix, fills the rest with the fill character, and reaches the width. |
| Store.Insert | online-quiz-app/server/controllers/attemptController.js:37-40 | INSERT stores the row under the next unused AUTO_INCREMENT id and leaves every other row unchanged. |
| Store.FirstKey | online-quiz-app/server/controllers/authController.js:62 | The lowest matching id, the row a primary-key scan returns first, and absent iff nothing matches. |
| Store.QuestionsOf | online-quiz-app/server/controllers/questionController.js:61-64 | `WHERE quiz_id = ? ORDER BY id`: exactly that quiz's questions in ascending id order, empty iff it has none. |
| Store.SortDesc | online-quiz-app/server/controllers/quizController.js:37 | Ordering by a key, descending, yields the same rows (as a multiset) in non-increasing key order. |
| Store.SelectDesc | online-quiz-app/server/controllers/quizController.js:36-38 | `ORDER BY <time> DESC` over a filter: exactly the matching rows, each once, non-increasing in the key. |
| Routes.AdminGate | server/routes/quiz.js:8 | `verifyJWT, requireAdmin` passes iff the token verifies with role "admin". The token's 401 comes before the role's 403. |
| Routes.PostRegister | server/routes/auth.js:7 | A user is created iff the body is valid and the trimmed username and the email are unused. The stored role is always "student" or "admin". |
| Routes.PostLogin | server/routes/auth.js:8 | Validation errors come first. A successful login identifies a user by the trimmed identifier with a matching password. |
| Routes.GetProfile | server/routes/auth.js:9 | A missing or invalid token is refused with 401. A profile is returned only to a verified token, and it is the token user's own. |
| Routes.PostQuiz | server/routes/quiz.js:8 | A quiz is created iff an admin sends a non-blank title and an integer duration from 1 to the INT maximum. The route answers 500 iff the valid duration exceeds that maximum. It stores the trimmed title. |
| Routes.GetQuizzes | server/routes/quiz.js:9 | Any verified token lists all quizzes, newest first. |
| Routes.GetQuiz | server/routes/quiz.js:10 | Any verified token, students included, reads a quiz with its questions' correct options. |
| Routes.PutQuiz | server/routes/quiz.js:11 | Admin only, and both fields are required, so "No fields to update" is unreachable. The route answers 500 iff the quiz exists and the valid duration exceeds the INT maximum. A successful update sets the trimmed title and a duration ≥ 1. |
| Routes.DeleteQuiz | server/routes/quiz.js:12 | Admin only. After success the quiz reads as 404. |
| Routes.PostQuestion | online-quiz-app/server/routes/question.js:7 | Any verified token, whatever its role, can create a question. |
| Routes.GetQuestions | online-quiz-app/server/routes/question.js:8 | Any verified token lists a quiz's questions. |
| Routes.PutQuestion | online-quiz-app/server/routes/question.js:9 | Any verified token can patch a question. The question's quiz never changes. |
| Routes.DeleteQuestion | online-quiz-app/server/routes/question.js:10 | Any verified token can delete a question. |
| Routes.PostStart | online-quiz-app/server/routes/attempt.js:7 | A started attempt belongs to the token's user. |
| Routes.PostSubmit | online-quiz-app/server/routes/attempt.js:8 | Only the token user's own attempt can be scored, and only with a non-empty answer list. |
| Routes.GetHistory | online-quiz-app/server/routes/attempt.js:9 | The history holds only the token user's rows. |
| Routes.GetResult | online-quiz-app/server/routes/attempt.js:10 | A result is readable iff it is the token user's own and its quiz exists. |
| Routes.NoTokenNoChange | online-quiz-app/server/middleware/auth.js:7-9 | Without a token every writing route answers 401 "No token provided" and changes nothing. |
| Routes.QuizWritesAdminOnly | server/routes/quiz.js:8-12 | A verified non-admin gets 403 on every quiz write, before validation, with nothing changed. |
| Routes.StudentsWriteQuestions | online-quiz-app/server/routes/question.js:7-10 | A student's token can create, patch and delete questions. |
| Routes.SelfRegisteredAdmin | online-quiz-app/server/middleware/validation.js:8 | Registration accepts role "admin", and the issued token passes the admin gate. |
| Routes.EndToEndExample | online-quiz-app/server/controllers/attemptController.js:37-126 | Starting from an empty database: a quiz with one question whose answer is "B" is started and answered "B" by a student. This scores 100 and passes, and the student's history is that single attempt. |
| Students.BuildQuery | student-management-system/server/controllers/studentController.js:16-33 | The SQL is always one of ten fixed statements. A truthy search adds the three-column WHERE and exactly three `%search%` parameters, a falsy one adds neither. A falsy sort orders by created_at DESC. A disallowed sort adds no ORDER BY at all. |
| Students.OrderClauseKnown | student-management-system/server/controllers/studentController.js:25-33 | The ORDER BY part is one of five fixed strings. |
| Students.SqlIgnoresSearchText | student-management-system/server/controllers/studentController.js:20-23 | The SQL text depends only on whether there is a search, never on its text. |
| Students.DisallowedSortsIndistinguishable | student-management-system/server/controllers/studentController.js:25-30 | Any two disallowed sort values build the same query, which differs from the default-ordered one. |
| Students.CreateStudent | student-management-system/server/controllers/studentController.js:52-69 | Checks run in this order: schema error 400; then a value wider than its column (server.js:52-56) 500 with the driver's message and nothing stored; then a taken email 400 "Email already exists" with no row stored but the AUTO_INCREMENT value used up. Otherwise a new row under a fresh id. Unique emails are preserved, and stored rows always fit the columns. |
| Students.UpdateStudent | student-management-system/server/controllers/studentController.js:71-89 | Checks run in this order: schema error 400, then 404 for a missing id, then 500 for a value wider than its column, then 400 when another row holds the email. Otherwise only that row is replaced. Unique emails are preserved, and stored rows always fit the columns. |
| Students.DeleteStudent | student-management-system/server/controllers/studentController.js:91-99 | 404 iff the id is missing. Otherwise only that row goes. |
| Students.UpdateKeepingEmail | student-management-system/server/controllers/studentController.js:77-86 | Re-saving a student's own email is not a duplicate: the update succeeds when the values fit the columns, and otherwise fails with 500, not 400. |
| Students.CreateTwiceRefused | student-management-system/server/controllers/studentController.js:64-66 | A second create with the same email stores no row. When its values fit the columns it is refused with 400 "Email already exists", and the next id after it is skipped. |
| Students.TooLongColumn | student-management-system/server.js:52-56 | None iff every value fits its VARCHAR width (50, 50, 100, 15); otherwise the first column, in the statement's order, that a value overflows. |
| Students.LongFirstNameRefused | student-management-system/server/controllers/studentController.js:6 | A 51-character first name, which the schema allows, is refused by the table: 500 with the driver's message, nothing stored, no key used. |
| Client.CollectAnswers | online-quiz-app/public/js/app.js:472-478 | One answer for every question with a checked option, each holding the checked value, and none for unanswered questions. Empty iff nothing is checked. |
| Client.CollectedInOrder | online-quiz-app/public/js/app.js:472-478 | The answers are exactly those of the checked questions, in question order, one per checked question: a strictly increasing map sends each answer to its question's position and reaches every checked position. |
| Client.AllAnsweredInOrder | online-quiz-app/public/js/app.js:473-477 | With every question answered, the answers follow the questions one to one, in order. |
| Client.NothingAnsweredFailsSubmit | online-quiz-app/public/js/app.js:472-480 | Submitting with nothing checked sends an empty list, which the server answers with 500 and no change. |
| Client.Clock | online-quiz-app/public/js/app.js:542 | `String(n).padStart(2,'0')` is at least two digits, exactly two below 100, and reads back as n. |
| Client.TimerTick | online-quiz-app/public/js/app.js:530-543 | Expired iff diff ≤ 0. Otherwise seconds < 60, and minutes·60000 + seconds·1000 ≤ diff < that + 1000. The text reads back as those minutes, a colon, and those seconds. |
| Client.SplitRemaining | online-quiz-app/public/js/app.js:540-541 | The floor-division arithmetic brackets the remaining time to the second. |
| Client.Render | online-quiz-app/public/js/app.js:542 | The `mm:ss` text reads back as its minutes and seconds. |
| Client.TimerMatchesDeadline | online-quiz-app/public/js/app.js:532-538 | At the start instant the countdown shows the quiz's duration and 0 seconds. One ms before the server's endTime it still shows; at endTime it expires. |
| Client.WholeMinutesLeft | online-quiz-app/public/js/app.js:540-541 | With exactly d ≥ 1 whole minutes left, the countdown shows d minutes and 0 seconds. |
| Client.HistoryJson | online-quiz-app/server/controllers/attemptController.js:120-126 | The history JSON row carries the stored score and has no `percentage` field. |
| Client.HistoryLabelAsWritten | online-quiz-app/public/js/app.js:565 | The label as written is "Passed" or "Failed", and "Passed" only for a row carrying a `percentage` field. |
| Client.HistoryLabelAlwaysFails | online-quiz-app/public/js/app.js:565 | The label as written reads a field the server never sends, so every attempt shows "Failed", a score of 100 included. |
| Client.HistoryLabel | online-quiz-app/public/js/app.js:565 | The corrected label is "Passed" iff the row's score is ≥ 60. |
| Client.HistoryLabelAgreesWithSubmit | online-quiz-app/server/controllers/attemptController.js:103-107 | After a submission, the corrected label agrees with the `passed` flag the server returned. |
| Client.DisplayResult | online-quiz-app/public/js/app.js:494-497 | The shown score is `score ?? 0`, and the status is "Passed" iff `passed`. |
| Client.DisplayAgreesWithScore | online-quiz-app/public/js/app.js:494-497 | After a successful submission, the result screen says "Passed" iff the shown score is ≥ 60. |
| Client.LoadStoredToken | online-quiz-app/public/js/app.js:36-45 | The dashboard is restored with the stored token and role iff both are stored and non-empty; otherwise nothing changes. |
| Client.SignIn | online-quiz-app/public/js/app.js:66-74 | After login, the globals and the storage both hold the issued token and role, and the dashboard is shown. |
| Client.Logout | online-quiz-app/public/js/app.js:134-138 | Both globals and both storage entries are cleared. |
| Client.ReloadRestoresOnlySignedIn | online-quiz-app/public/js/app.js:40-44 | A reload after sign-in restores the same session. A reload after logout restores nothing. |

## Left out

- Database connection pooling, connection release and driver errors are not modelled. Of the catch-all 500 replies from thrown exceptions that a request itself can cause, the model has these:
  - a NaN duration, or one the INT column cannot hold, at insert or update;
  - an empty answer list at submit;
  - a student's name, email or phone wider than its VARCHAR column.
  Others are not modelled: a dob the DATE column refuses (below), and over-long text in the quiz server's tables, whose column widths are not part of this model (a long quiz title, question text, username or email).
- Concurrency is not modelled. Every request runs to completion on its own, so the read-then-insert race in starting an attempt, which can create two rows under concurrent starts, cannot be exhibited.
- bcrypt hashing and comparison, JWT signing, verification and expiry, and the email-syntax check are oracle parameters. `config/auth.js` is not part of this model.
- The quiz server's schema (DDL) is not part of this model.
  - Deleting a quiz is modelled as removing its questions (the foreign key cascades) and keeping its results. Those results then disappear from history and result reads, which inner-join quizzes.
- MySQL collation is not modelled: the SQL lookups by username or email (authController.js) and the students table's unique email index compare exactly and case-sensitively, where a case-insensitive collation would fold case. The answer check compares options in JavaScript with `===`, which is exact in the source too.
- SQL ordering ties are not modelled: rows with equal `created_at` or `taken_at` are listed in id order, where the database leaves their order unspecified.
- Timestamps are integers in milliseconds; ISO-8601 rendering of `endTime` and of the dates in the history list is left out.
- JSON bodies are restricted to what the handlers read. Fractional numbers, booleans, `null`, arrays and objects as field values are not modelled, nor is an absent `answers` array (the server throws on it and answers 500).
- Attempts.Percentage: JavaScript floating-point division is not modelled; the percentage is an exact real.
- Students.CreateStudent: the validation library's schema rules (name lengths, email and date formats, phone pattern) are not modelled; their first error message is a parameter. The DATE column is not modelled either: a dob the schema accepts but MySQL cannot store as a date (a bare timestamp number, say) gives 500 in the source and is stored here. The column widths assume MySQL's default strict SQL mode; in a non-strict mode an over-long value is truncated with a warning and the row is stored.
- Students.UpdateStudent: the 404 body of update and delete is `{ message }` rather than `{ error }`; both are modelled as the same failure reply. As for create, a dob the DATE column refuses gives 500 in the source and is stored here.
- `getStudentById`, the course and enrollment controllers, the Express application setup, static serving and the 404/500 fallbacks are not modelled. They are pass-through queries or framework plumbing.
- Express route matching is not modelled: the route files only say which middleware applies to which handler. `/api/attempt/user/history` is taken to reach the history handler.
- Client: DOM rendering, `fetch`, `confirm`, `setInterval` and `localStorage` are not modelled. The checked radio of each question and the storage contents are values.
- Accounts.Login: the login query has no ORDER BY, so MySQL does not promise which matching row comes first. The model takes the lowest id, the order a primary-key scan gives; with two matching users another order could reach the other one.
- Store.FirstKey: the first row of an unordered query is taken to be the lowest matching id, as for `Accounts.Login`.
- Accounts.LoginShadowedByEmail: rests on the same lowest-id reading; under another row order the earlier user may still be reached, but is not promised to be.
- Quizzes.CreateQuiz: the quizzes table's duration column is taken to be a signed 32-bit INT under MySQL's default strict mode, since the schema is not part of this model. A value outside that range is refused before any row is written, so it is taken not to use up an AUTO_INCREMENT value. `Quizzes.UpdateQuiz`, `Routes.PostQuiz` and `Routes.PutQuiz` rest on the same assumption.
- Text.IntTextParses: the value is exact, where JavaScript's parseInt returns a double that rounds beyond 2^53. Such values lie far outside the INT column, so the routes answer 500 for them either way.
- Http.ParseIntField: a JSON number is an exact integer. JavaScript prints numbers from 10^21 up in exponent form, so parseInt and isInt read such a number by its first digit or refuse it; this is not modelled.
- Strings are sequences of Unicode scalar values, so lone UTF-16 surrogates, which JavaScript strings can hold, are not modelled.
- Accounts.Register: a username equal to another user's email is not refused. The model keeps this behaviour and shows its effect on login in `Accounts.LoginShadowedByEmail`.

## Findings

| source | as written | input that shows it | evidently intended | confidence | as-written member | corrected member |
|---|---|---|---|---|---|---|
| online-quiz-app/public/js/app.js:565 | The history status reads `item.percentage >= 50`. The history rows the server sends (`r.*, q.title, q.duration`) have no `percentage` field, so the comparison is always false. | Any history row, e.g. an attempt with score 100: the label is "Failed" | The label follows the stored score against the server's 60% pass mark, agreeing with the `passed` flag returned at submit | medium — not executed | Client.HistoryLabelAsWritten, Client.HistoryLabelAlwaysFails | Client.HistoryLabel |
