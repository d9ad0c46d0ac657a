/** The server's route table: each route runs its middleware chain
    (token check, admin check, body validation) and then its handler.
    A middleware that answers ends the chain before the handler runs, so
    the store is left as it was. */
module Routes {

  import opened Base
  import opened Http
  import opened Store
  import Text
  import Gate
  import Validation
  import Accounts
  import Quizzes
  import Questions
  import Attempts

  /** The reply of a middleware that answered instead of calling `next`. */
  function Refused<T>(db: Db, g: Gate.Gate): (out: Step<T>)
    requires g.Deny?
    ensures out.db == db && out.reply == Fail(g.status, g.error)
  {
    Step(db, Fail(g.status, g.error))
  }

  /** `verifyJWT, requireAdmin`: the token must verify and carry the admin role. */
  function AdminGate(header: Option<string>, verify: string -> Option<Claims>): (g: Gate.Gate)
    ensures g.Next? <==> Gate.VerifyJwt(header, verify).Next? && Gate.VerifyJwt(header, verify).user.role == ADMIN
    ensures Gate.VerifyJwt(header, verify).Deny? ==> g == Gate.VerifyJwt(header, verify)
    ensures Gate.VerifyJwt(header, verify).Next? && Gate.VerifyJwt(header, verify).user.role != ADMIN ==>
              g == Gate.Deny(403, "Admin access required")
    ensures g.Next? ==> g.user == Gate.VerifyJwt(header, verify).user
  {
    match Gate.VerifyJwt(header, verify)
    case Deny(s, e) => Gate.Deny(s, e)
    case Next(user) => Gate.RequireAdmin(user)
  }

  // ------------------------------------------------------------------- auth

  /** POST /api/auth/register: validation first (400 with the field errors,
      nothing stored), then the handler on the sanitised body. A new account
      is created exactly when the body is valid and neither the trimmed
      username nor the email is in use. */
  function PostRegister(db: Db, username: Option<string>, email: Option<string>, password: Option<string>,
                        role: Option<string>, isEmail: string -> bool, now: int, hash: string -> string): (out: Step<Accounts.Session>)
    requires db.Valid()
    ensures out.db.Valid()
    ensures !out.reply.Ok? ==> out.db == db
    ensures Validation.ValidateRegister(username, email, password, role, isEmail).Rejected? ==>
              out.reply == Invalid(Validation.ValidateRegister(username, email, password, role, isEmail).errors)
    ensures out.reply.Ok? <==>
              && Text.CountedLength(Text.Trim(Validation.Seen(username))) >= 3 && Validation.Seen(email) != ""
              && isEmail(Validation.Seen(email)) && Text.CountedLength(Validation.Seen(password)) >= 6 && Validation.RoleAllowed(role)
              && !Accounts.Taken(db, Text.Trim(Validation.Seen(username)), Validation.Seen(email))
    ensures out.reply.Ok? ==> out.reply.body.role == ADMIN || out.reply.body.role == STUDENT
    ensures Accounts.UniqueLogins(db) ==> Accounts.UniqueLogins(out.db)
  {
    match Validation.ValidateRegister(username, email, password, role, isEmail)
    case Rejected(errors) => Step(db, Invalid(errors))
    case Valid(reg) => Accounts.Register(db, reg, now, hash)
  }

  /** POST /api/auth/login: validation (400 with the field errors), then the
      handler on the trimmed identifier. Nothing is ever stored. */
  function PostLogin(db: Db, username: Option<string>, password: Option<string>,
                     compare: (string, string) -> bool): (r: Reply<Accounts.Session>)
    requires db.Valid()
    ensures Validation.ValidateLogin(username, password).Rejected? ==>
              r == Invalid(Validation.ValidateLogin(username, password).errors)
    ensures r.Ok? ==> Text.Trim(Validation.Seen(username)) != ""
                      && r.body.userId in db.users.rows
                      && Accounts.Identifies(db.users.rows[r.body.userId], Text.Trim(Validation.Seen(username)))
                      && compare(Validation.Seen(password), db.users.rows[r.body.userId].password)
    ensures Validation.ValidateLogin(username, password).Valid? ==> r.Ok? || r == Fail(401, "Invalid credentials")
  {
    match Validation.ValidateLogin(username, password)
    case Rejected(errors) => Invalid(errors)
    case Valid(creds) => Accounts.Login(db, creds, compare)
  }

  /** GET /api/auth/profile: any verified token; the profile of the token's user. */
  function GetProfile(db: Db, header: Option<string>, verify: string -> Option<Claims>): (r: Reply<Accounts.Profile>)
    ensures Gate.VerifyJwt(header, verify).Deny? ==>
              r == Fail(401, Gate.VerifyJwt(header, verify).error)
    ensures r.Ok? ==> Gate.VerifyJwt(header, verify).Next?
                      && r.body.id == Gate.VerifyJwt(header, verify).user.userId && r.body.id in db.users.rows
                      && r.body.username == db.users.rows[r.body.id].username
  {
    match Gate.VerifyJwt(header, verify)
    case Deny(s, e) => Fail(s, e)
    case Next(user) => Accounts.GetProfile(db, user)
  }

  // ------------------------------------------------------------------- quiz

  /** POST /api/quiz: admin only, then validateQuiz. The validator keeps
      every falsy or unparsable duration away from the handler, so the
      route answers 500 only for a valid duration too large for the INT
      column: a quiz is created exactly when an admin sends a non-blank
      title and an integer duration from 1 to INT_MAX, and it stores the
      trimmed title. */
  function PostQuiz(db: Db, header: Option<string>, verify: string -> Option<Claims>,
                    title: Option<string>, duration: Scalar, now: int): (out: Step<Id>)
    requires db.Valid()
    ensures out.db.Valid()
    ensures !out.reply.Ok? ==> out.db == db
    ensures AdminGate(header, verify).Deny? ==> out == Refused(db, AdminGate(header, verify))
    ensures out.reply.Ok? <==> AdminGate(header, verify).Next? && Validation.ValidateQuiz(title, duration).Valid?
                               && Quizzes.Storable(duration)
    ensures out.reply.Code() == 500 <==>
              AdminGate(header, verify).Next? && Validation.ValidateQuiz(title, duration).Valid?
              && ParseIntField(duration).Some? && ParseIntField(duration).value > INT_MAX
    ensures out.reply.Ok? ==>
              && out.reply.body in out.db.quizzes.rows && out.reply.body !in db.quizzes.rows
              && out.db.quizzes.rows[out.reply.body].title == Text.Trim(Validation.Seen(title))
              && out.db.quizzes.rows[out.reply.body].duration >= 1
    ensures Consistent(db) ==> Consistent(out.db)
  {
    var g := AdminGate(header, verify);
    if g.Deny? then Refused(db, g)
    else match Validation.ValidateQuiz(title, duration)
      case Rejected(errors) => Step(db, Invalid(errors))
      case Valid(body) =>
        Validation.ValidDurationParses(duration);
        Quizzes.CreateQuiz(db, Some(body.title), body.duration, now)
  }

  /** GET /api/quiz: any verified token; every quiz, newest first. */
  function GetQuizzes(db: Db, header: Option<string>, verify: string -> Option<Claims>): (r: Reply<seq<Keyed<Quiz>>>)
    requires db.Valid()
    ensures Gate.VerifyJwt(header, verify).Deny? ==> r == Fail(401, Gate.VerifyJwt(header, verify).error)
    ensures r.Ok? <==> Gate.VerifyJwt(header, verify).Next?
    ensures r.Ok? ==> SortedDesc(r.body, Quizzes.CreatedAt)
                      && forall k :: k in db.quizzes.rows ==> Keyed(k, db.quizzes.rows[k]) in r.body
  {
    match Gate.VerifyJwt(header, verify)
    case Deny(s, e) => Fail(s, e)
    case Next(_) => Ok(200, Quizzes.AllQuizzes(db))
  }

  /** GET /api/quiz/:quizId: any verified token, any role; the quiz with
      all its questions, correct options included. */
  function GetQuiz(db: Db, header: Option<string>, verify: string -> Option<Claims>, id: Id): (r: Reply<Quizzes.QuizDetail>)
    requires db.Valid()
    ensures Gate.VerifyJwt(header, verify).Deny? ==> r == Fail(401, Gate.VerifyJwt(header, verify).error)
    ensures r.Ok? <==> Gate.VerifyJwt(header, verify).Next? && id in db.quizzes.rows
    ensures r.Ok? ==> ListsQuestionsOf(db, id, r.body.questions)
  {
    match Gate.VerifyJwt(header, verify)
    case Deny(s, e) => Fail(s, e)
    case Next(_) => Quizzes.GetQuizById(db, id)
  }

  /** PUT /api/quiz/:quizId: admin only, then the full validateQuiz, so
      both fields are required: the handler's "No fields to update" is
      unreachable through this route, its 500 is left only for a valid
      duration too large for the INT column, and an update always sets both
      the trimmed title and a duration of at least 1. */
  function PutQuiz(db: Db, header: Option<string>, verify: string -> Option<Claims>,
                   id: Id, title: Option<string>, duration: Scalar): (out: Step<string>)
    requires db.Valid()
    ensures out.db.Valid()
    ensures !out.reply.Ok? ==> out.db == db
    ensures AdminGate(header, verify).Deny? ==> out == Refused(db, AdminGate(header, verify))
    ensures out.reply.Ok? <==> AdminGate(header, verify).Next? && Validation.ValidateQuiz(title, duration).Valid?
                               && id in db.quizzes.rows && Quizzes.Storable(duration)
    ensures out.reply != Fail(400, "No fields to update")
    ensures out.reply.Code() == 500 <==>
              AdminGate(header, verify).Next? && Validation.ValidateQuiz(title, duration).Valid?
              && id in db.quizzes.rows && ParseIntField(duration).Some? && ParseIntField(duration).value > INT_MAX
    ensures out.reply.Ok? ==>
              && out.db.quizzes.rows.Keys == db.quizzes.rows.Keys
              && out.db.quizzes.rows[id].title == Text.Trim(Validation.Seen(title))
              && out.db.quizzes.rows[id].duration >= 1
              && out.db.quizzes.rows[id].createdAt == db.quizzes.rows[id].createdAt
    ensures Consistent(db) ==> Consistent(out.db)
  {
    var g := AdminGate(header, verify);
    if g.Deny? then Refused(db, g)
    else match Validation.ValidateQuiz(title, duration)
      case Rejected(errors) => Step(db, Invalid(errors))
      case Valid(body) =>
        Validation.ValidDurationParses(duration);
        Quizzes.UpdateQuiz(db, id, Some(body.title), body.duration)
  }

  /** DELETE /api/quiz/:quizId: admin only; the quiz and its questions go. */
  function DeleteQuiz(db: Db, header: Option<string>, verify: string -> Option<Claims>, id: Id): (out: Step<string>)
    requires db.Valid()
    ensures out.db.Valid()
    ensures !out.reply.Ok? ==> out.db == db
    ensures AdminGate(header, verify).Deny? ==> out == Refused(db, AdminGate(header, verify))
    ensures out.reply.Ok? <==> AdminGate(header, verify).Next? && id in db.quizzes.rows
    ensures out.reply.Ok? ==> id !in out.db.quizzes.rows && Quizzes.GetQuizById(out.db, id) == Fail(404, "Quiz not found")
    ensures Consistent(db) ==> Consistent(out.db)
  {
    var g := AdminGate(header, verify);
    if g.Deny? then Refused(db, g) else Quizzes.DeleteQuiz(db, id)
  }

  // --------------------------------------------------------------- question

  /** POST /api/question/:quizId/questions: any verified token, whatever its
      role, reaches the handler — question writes are not admin-only. */
  function PostQuestion(db: Db, header: Option<string>, verify: string -> Option<Claims>,
                        quizId: Id, f: Questions.QuestionFields): (out: Step<Id>)
    requires db.Valid()
    ensures out.db.Valid()
    ensures !out.reply.Ok? ==> out.db == db
    ensures Gate.VerifyJwt(header, verify).Deny? ==> out == Refused(db, Gate.VerifyJwt(header, verify))
    ensures out.reply.Ok? <==> Gate.VerifyJwt(header, verify).Next? && Questions.AllFilled(f) && quizId in db.quizzes.rows
    ensures out.reply.Ok? ==> out.reply.body in out.db.questions.rows
                              && out.db.questions.rows[out.reply.body].quizId == quizId
                              && out.db.questions.rows[out.reply.body].correctOption == f.correctOption.value
    ensures Consistent(db) ==> Consistent(out.db)
  {
    var g := Gate.VerifyJwt(header, verify);
    if g.Deny? then Refused(db, g) else Questions.CreateQuestion(db, quizId, f)
  }

  /** GET /api/question/:quizId/questions: any verified token; the quiz's questions. */
  function GetQuestions(db: Db, header: Option<string>, verify: string -> Option<Claims>, quizId: Id): (r: Reply<seq<Keyed<Question>>>)
    requires db.Valid()
    ensures Gate.VerifyJwt(header, verify).Deny? ==> r == Fail(401, Gate.VerifyJwt(header, verify).error)
    ensures r.Ok? <==> Gate.VerifyJwt(header, verify).Next? && quizId in db.quizzes.rows
    ensures r.Ok? ==> ListsQuestionsOf(db, quizId, r.body)
  {
    match Gate.VerifyJwt(header, verify)
    case Deny(s, e) => Fail(s, e)
    case Next(_) => Questions.QuestionsByQuiz(db, quizId)
  }

  /** PUT /api/question/:questionId: any verified token; the defined fields change. */
  function PutQuestion(db: Db, header: Option<string>, verify: string -> Option<Claims>,
                       id: Id, f: Questions.QuestionFields): (out: Step<string>)
    requires db.Valid()
    ensures out.db.Valid()
    ensures !out.reply.Ok? ==> out.db == db
    ensures Gate.VerifyJwt(header, verify).Deny? ==> out == Refused(db, Gate.VerifyJwt(header, verify))
    ensures out.reply.Ok? <==> Gate.VerifyJwt(header, verify).Next? && id in db.questions.rows && Questions.AnyDefined(f)
    ensures out.reply.Ok? ==> id in out.db.questions.rows && out.db.questions.rows[id].quizId == db.questions.rows[id].quizId
    ensures Consistent(db) ==> Consistent(out.db)
  {
    var g := Gate.VerifyJwt(header, verify);
    if g.Deny? then Refused(db, g) else Questions.UpdateQuestion(db, id, f)
  }

  /** DELETE /api/question/:questionId: any verified token; the question goes. */
  function DeleteQuestion(db: Db, header: Option<string>, verify: string -> Option<Claims>, id: Id): (out: Step<string>)
    requires db.Valid()
    ensures out.db.Valid()
    ensures !out.reply.Ok? ==> out.db == db
    ensures Gate.VerifyJwt(header, verify).Deny? ==> out == Refused(db, Gate.VerifyJwt(header, verify))
    ensures out.reply.Ok? <==> Gate.VerifyJwt(header, verify).Next? && id in db.questions.rows
    ensures out.reply.Ok? ==> id !in out.db.questions.rows
    ensures Consistent(db) ==> Consistent(out.db)
  {
    var g := Gate.VerifyJwt(header, verify);
    if g.Deny? then Refused(db, g) else Questions.DeleteQuestion(db, id)
  }

  // ---------------------------------------------------------------- attempt

  /** POST /api/attempt/:quizId/start: any verified token; the attempt
      belongs to the token's user, whatever the role. */
  function PostStart(db: Db, header: Option<string>, verify: string -> Option<Claims>,
                     quizId: Id, now: int): (out: Step<Attempts.Started>)
    requires db.Valid()
    ensures out.db.Valid()
    ensures !out.reply.Ok? ==> out.db == db
    ensures Gate.VerifyJwt(header, verify).Deny? ==> out == Refused(db, Gate.VerifyJwt(header, verify))
    ensures out.reply.Ok? ==> Gate.VerifyJwt(header, verify).Next? && out.reply.body.resultId in out.db.results.rows
                              && out.db.results.rows[out.reply.body.resultId].userId == Gate.VerifyJwt(header, verify).user.userId
                              && out.db.results.rows[out.reply.body.resultId].quizId == quizId
    ensures Consistent(db) ==> Consistent(out.db)
  {
    var g := Gate.VerifyJwt(header, verify);
    if g.Deny? then Refused(db, g) else Attempts.StartAttempt(db, quizId, g.user, now)
  }

  /** POST /api/attempt/:resultId/submit: any verified token; only the
      token's user's own attempt can be scored. */
  function PostSubmit(db: Db, header: Option<string>, verify: string -> Option<Claims>,
                      resultId: Id, answers: seq<Attempts.Answer>): (out: Step<Attempts.Scored>)
    requires db.Valid()
    ensures out.db.Valid()
    ensures !out.reply.Ok? ==> out.db == db
    ensures Gate.VerifyJwt(header, verify).Deny? ==> out == Refused(db, Gate.VerifyJwt(header, verify))
    ensures out.reply.Ok? <==> Gate.VerifyJwt(header, verify).Next?
                               && Attempts.Owns(db, resultId, Gate.VerifyJwt(header, verify).user) && |answers| > 0
    ensures Consistent(db) ==> Consistent(out.db)
  {
    var g := Gate.VerifyJwt(header, verify);
    if g.Deny? then Refused(db, g) else Attempts.SubmitQuiz(db, resultId, g.user, answers)
  }

  /** GET /api/attempt/user/history: any verified token; the token's user's history. */
  function GetHistory(db: Db, header: Option<string>, verify: string -> Option<Claims>): (r: Reply<seq<Attempts.HistoryRow>>)
    requires db.Valid()
    ensures Gate.VerifyJwt(header, verify).Deny? ==> r == Fail(401, Gate.VerifyJwt(header, verify).error)
    ensures r.Ok? <==> Gate.VerifyJwt(header, verify).Next?
    ensures r.Ok? ==> forall x :: x in r.body ==> x.result.userId == Gate.VerifyJwt(header, verify).user.userId
  {
    match Gate.VerifyJwt(header, verify)
    case Deny(s, e) => Fail(s, e)
    case Next(user) => Ok(200, Attempts.History(db, user))
  }

  /** GET /api/attempt/:resultId: any verified token; only the token's user's own result. */
  function GetResult(db: Db, header: Option<string>, verify: string -> Option<Claims>, resultId: Id): (r: Reply<Attempts.HistoryRow>)
    ensures Gate.VerifyJwt(header, verify).Deny? ==> r == Fail(401, Gate.VerifyJwt(header, verify).error)
    ensures r.Ok? <==> Gate.VerifyJwt(header, verify).Next? && resultId in db.results.rows
                       && Attempts.Visible(db, db.results.rows[resultId], Gate.VerifyJwt(header, verify).user.userId)
  {
    match Gate.VerifyJwt(header, verify)
    case Deny(s, e) => Fail(s, e)
    case Next(user) => Attempts.GetResult(db, resultId, user)
  }

  // ----------------------------------------------------------------- lemmas

  /** A request without a bearer token changes nothing and is answered 401 on every writing route. */
  lemma NoTokenNoChange(db: Db, verify: string -> Option<Claims>, id: Id, title: Option<string>, duration: Scalar,
                        f: Questions.QuestionFields, answers: seq<Attempts.Answer>, now: int)
    requires db.Valid()
    ensures PostQuiz(db, None, verify, title, duration, now) == Step(db, Fail(401, "No token provided"))
    ensures PutQuiz(db, None, verify, id, title, duration) == Step(db, Fail(401, "No token provided"))
    ensures DeleteQuiz(db, None, verify, id) == Step(db, Fail(401, "No token provided"))
    ensures PostQuestion(db, None, verify, id, f) == Step(db, Fail(401, "No token provided"))
    ensures PutQuestion(db, None, verify, id, f) == Step(db, Fail(401, "No token provided"))
    ensures DeleteQuestion(db, None, verify, id) == Step(db, Fail(401, "No token provided"))
    ensures PostStart(db, None, verify, id, now) == Step(db, Fail(401, "No token provided"))
    ensures PostSubmit(db, None, verify, id, answers) == Step(db, Fail(401, "No token provided"))
  {
  }

  /** A verified non-admin token is refused 403 on every quiz write, before validation. */
  lemma QuizWritesAdminOnly(db: Db, header: Option<string>, verify: string -> Option<Claims>, id: Id,
                            title: Option<string>, duration: Scalar, now: int)
    requires db.Valid()
    requires Gate.VerifyJwt(header, verify).Next? && Gate.VerifyJwt(header, verify).user.role != ADMIN
    ensures PostQuiz(db, header, verify, title, duration, now) == Step(db, Fail(403, "Admin access required"))
    ensures PutQuiz(db, header, verify, id, title, duration) == Step(db, Fail(403, "Admin access required"))
    ensures DeleteQuiz(db, header, verify, id) == Step(db, Fail(403, "Admin access required"))
  {
  }

  /** A student's token is enough to create, change and delete questions. */
  lemma StudentsWriteQuestions(db: Db, header: Option<string>, verify: string -> Option<Claims>,
                               quizId: Id, f: Questions.QuestionFields)
    requires db.Valid()
    requires Gate.VerifyJwt(header, verify).Next? && Gate.VerifyJwt(header, verify).user.role == STUDENT
    requires Questions.AllFilled(f) && quizId in db.quizzes.rows
    ensures var out := PostQuestion(db, header, verify, quizId, f);
            && out.reply.Ok?
            && PutQuestion(out.db, header, verify, out.reply.body, f).reply.Ok?
            && DeleteQuestion(out.db, header, verify, out.reply.body).reply.Ok?
  {
  }

  /** Registration accepts "admin" as a role, so anyone can give themselves
      an admin account: the token it issues passes the admin gate. */
  lemma SelfRegisteredAdmin(db: Db, username: Option<string>, email: Option<string>, password: Option<string>,
                            isEmail: string -> bool, now: int, hash: string -> string)
    requires db.Valid()
    requires PostRegister(db, username, email, password, Some(ADMIN), isEmail, now, hash).reply.Ok?
    ensures var s := PostRegister(db, username, email, password, Some(ADMIN), isEmail, now, hash).reply.body;
            s.role == ADMIN && Gate.RequireAdmin(s.token) == Gate.Next(s.token)
  {
  }

  /** An example run, end to end, from an empty database: a quiz with one
      question whose answer is "B"; a student starts it and answers "B";
      the submission scores 100 and passes, and the student's history is
      exactly that one attempt. */
  lemma EndToEndExample(now: int)
    ensures var s1 := Quizzes.CreateQuiz(Empty(), Some("Math"), Num(10), now);
            && s1.reply.Ok?
            && var f := Questions.QuestionFields(Some("2+2?"), Some("3"), Some("4"), Some("5"), Some("6"), Some("B"));
               var s2 := Questions.CreateQuestion(s1.db, s1.reply.body, f);
               && s2.reply.Ok?
               && var student := Claims(2, STUDENT);
                  var s3 := Attempts.StartAttempt(s2.db, s1.reply.body, student, now + 1);
                  && s3.reply.Ok?
                  && var s4 := Attempts.SubmitQuiz(s3.db, s3.reply.body.resultId, student, [Attempts.Answer(s2.reply.body, "B")]);
                     && s4.reply == Ok(200, Attempts.Scored(100.0, true))
                     && |Attempts.History(s4.db, student)| == 1
                     && Attempts.History(s4.db, student)[0].result.score == 100.0
  {
    var s1 := Quizzes.CreateQuiz(Empty(), Some("Math"), Num(10), now);
    var f := Questions.QuestionFields(Some("2+2?"), Some("3"), Some("4"), Some("5"), Some("6"), Some("B"));
    var s2 := Questions.CreateQuestion(s1.db, s1.reply.body, f);
    Attempts.FirstAttemptScores(s2.db, s1.reply.body, s2.reply.body, Claims(2, STUDENT), now + 1);
  }
}
