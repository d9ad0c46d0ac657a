/** The declarative request validators, as predicates over the request body.
    Each validator collects one error per failing field, in declaration
    order, and hands on the sanitised body (trimmed fields replaced) when
    nothing failed. Email syntax is the validator library's business and is
    passed in as `isEmail`. */
module Validation {

  import opened Base
  import opened Http
  import Text

  /** The validator chain's verdict: the sanitised body, or the collected errors. */
  datatype Checked<+T> = Valid(value: T) | Rejected(errors: seq<FieldError>)

  /** A registration body after sanitising: the username is trimmed. */
  datatype Registration = Registration(username: string, email: string, password: string, role: Option<string>)

  /** A login body after sanitising: the identifier is trimmed. */
  datatype Credentials = Credentials(username: string, password: string)

  /** A quiz body after sanitising: the title is trimmed; duration is left as sent. */
  datatype QuizFields = QuizFields(title: string, duration: Scalar)

  /** The string a validator sees for a field: undefined reads as "". */
  function Seen(f: Option<string>): string {
    if f.Some? then f.value else ""
  }

  /** The one error a failed check contributes for `field`, or none. */
  function ErrorIf(failed: bool, field: string, msg: string): (r: seq<FieldError>)
    ensures |r| == if failed then 1 else 0
    ensures failed ==> r[0] == FieldError(field, msg)
  {
    if failed then [FieldError(field, msg)] else []
  }

  /** Whether a role value passes `optional().isIn(['student', 'admin'])`. */
  predicate RoleAllowed(role: Option<string>) {
    role.None? || role.value == STUDENT || role.value == ADMIN
  }

  /** validateRegister followed by handleValidationErrors: accepted exactly
      when the trimmed username has at least 3 characters, the email is an
      email, the password has at least 6 characters (both counted as isLength
      counts them, variation selectors left out) and the role is absent
      or one of the two roles; the accepted body carries the trimmed username. */
  function ValidateRegister(username: Option<string>, email: Option<string>, password: Option<string>,
                            role: Option<string>, isEmail: string -> bool): (r: Checked<Registration>)
    ensures r.Valid? <==> Text.CountedLength(Text.Trim(Seen(username))) >= 3 && Seen(email) != "" && isEmail(Seen(email))
                          && Text.CountedLength(Seen(password)) >= 6 && RoleAllowed(role)
    ensures r.Valid? ==> r.value == Registration(Text.Trim(Seen(username)), Seen(email), Seen(password), role)
    ensures r.Rejected? ==> 1 <= |r.errors| <= 4
    ensures r.Rejected? && Text.CountedLength(Text.Trim(Seen(username))) < 3 ==>
              r.errors[0] == FieldError("username", "Username must be at least 3 characters")
  {
    var u := Text.Trim(Seen(username));
    var badEmail := Seen(email) == "" || !isEmail(Seen(email));
    var first := ErrorIf(Text.CountedLength(u) < 3, "username", "Username must be at least 3 characters");
    var rest :=
      ErrorIf(badEmail, "email", "Valid email is required")
      + ErrorIf(Text.CountedLength(Seen(password)) < 6, "password", "Password must be at least 6 characters")
      + ErrorIf(!RoleAllowed(role), "role", "Invalid role");
    if |first| + |rest| == 0 then Valid(Registration(u, Seen(email), Seen(password), role))
    else Rejected(first + rest)
  }

  /** Five letters and an emoji presentation selector are six code points,
      but isLength counts five: such a password is refused. */
  lemma SelectorNotCounted(username: string, email: string, isEmail: string -> bool)
    ensures ValidateRegister(Some(username), Some(email), Some("abcde\U{FE0F}"), None, isEmail).Rejected?
  {
    Text.CountedLengthSelector("abcde");
    Text.CountedLengthPlain("abcde");
  }

  /** validateLogin followed by handleValidationErrors: accepted exactly when
      the trimmed identifier and the password are both non-empty. */
  function ValidateLogin(username: Option<string>, password: Option<string>): (r: Checked<Credentials>)
    ensures r.Valid? <==> Text.Trim(Seen(username)) != "" && Seen(password) != ""
    ensures r.Valid? ==> r.value == Credentials(Text.Trim(Seen(username)), Seen(password))
    ensures r.Rejected? ==> 1 <= |r.errors| <= 2
  {
    var u := Text.Trim(Seen(username));
    var errors :=
      ErrorIf(u == "", "username", "Username is required")
      + ErrorIf(Seen(password) == "", "password", "Password is required");
    if |errors| == 0 then Valid(Credentials(u, Seen(password))) else Rejected(errors)
  }

  /** `isInt({ min: 1 })` on the string form of the field. It accepts only
      truthy values, and text padded with white space never. */
  predicate IsIntAtLeastOne(v: Scalar): (b: bool)
    ensures b ==> Truthy(v)
    ensures v.Str? && b ==> !Text.IsSpace(v.s[0]) && !Text.IsSpace(v.s[|v.s| - 1])
  {
    match v
    case Absent => false
    case Num(n) => n >= 1
    case Str(s) => Text.IsIntText(s) && Text.IntTextValue(s) >= 1
  }

  /** validateQuiz followed by handleValidationErrors: accepted exactly when
      the trimmed title is non-empty and the duration is an integer of at
      least 1; the accepted body carries the trimmed title. */
  function ValidateQuiz(title: Option<string>, duration: Scalar): (r: Checked<QuizFields>)
    ensures r.Valid? <==> Text.Trim(Seen(title)) != "" && IsIntAtLeastOne(duration)
    ensures r.Valid? ==> r.value == QuizFields(Text.Trim(Seen(title)), duration)
    ensures r.Rejected? ==> 1 <= |r.errors| <= 2
  {
    var t := Text.Trim(Seen(title));
    var errors :=
      ErrorIf(t == "", "title", "Quiz title is required")
      + ErrorIf(!IsIntAtLeastOne(duration), "duration", "Duration must be at least 1 minute");
    if |errors| == 0 then Valid(QuizFields(t, duration)) else Rejected(errors)
  }

  /** A duration the quiz validator accepts is one parseInt reads as the same
      integer, at least 1: the handlers behind it never see NaN or zero. */
  lemma ValidDurationParses(duration: Scalar)
    requires IsIntAtLeastOne(duration)
    ensures ParseIntField(duration).Some? && ParseIntField(duration).value >= 1
    ensures Truthy(duration)
  {
    if duration.Str? {
      Text.IntTextParses(duration.s);
    }
  }

  /** validateQuestion: question_text trimmed non-empty, question_type one of
      three kinds, points an integer of at least 1. No route uses it. */
  function ValidateQuestion(questionText: Option<string>, questionType: Option<string>, points: Scalar): (r: Checked<string>)
    ensures r.Valid? <==> Text.Trim(Seen(questionText)) != ""
                          && Seen(questionType) in ["multiple_choice", "true_false", "short_answer"]
                          && IsIntAtLeastOne(points)
  {
    var t := Text.Trim(Seen(questionText));
    var errors :=
      ErrorIf(t == "", "question_text", "Question text is required")
      + ErrorIf(Seen(questionType) !in ["multiple_choice", "true_false", "short_answer"],
                "question_type", "Invalid question type")
      + ErrorIf(!IsIntAtLeastOne(points), "points", "Points must be at least 1");
    if |errors| == 0 then Valid(t) else Rejected(errors)
  }

  /** validateQuestion reads fields the question handlers never send: a body
      carrying only the handlers' fields (no question_text, question_type or
      points) is always rejected, with all three errors. */
  lemma ValidateQuestionRejectsHandlerBody()
    ensures ValidateQuestion(None, None, Absent)
         == Rejected([FieldError("question_text", "Question text is required"),
                      FieldError("question_type", "Invalid question type"),
                      FieldError("points", "Points must be at least 1")])
  {
  }
}
