/** The question handlers: create under a quiz, list a quiz's questions,
    partial update and delete. The correct option is stored as sent; nothing
    restricts it to the letters A to D. */
module Questions {

  import opened Base
  import opened Http
  import opened Store

  /** The question fields of a request body; None is an undefined field. */
  datatype QuestionFields = QuestionFields(
    question: Option<string>,
    optionA: Option<string>, optionB: Option<string>, optionC: Option<string>, optionD: Option<string>,
    correctOption: Option<string>)

  /** Every field is truthy: defined and non-empty. */
  predicate AllFilled(f: QuestionFields) {
    Filled(f.question) && Filled(f.optionA) && Filled(f.optionB) && Filled(f.optionC)
    && Filled(f.optionD) && Filled(f.correctOption)
  }

  /** Some field is defined (possibly empty). */
  predicate AnyDefined(f: QuestionFields) {
    f.question.Some? || f.optionA.Some? || f.optionB.Some? || f.optionC.Some?
    || f.optionD.Some? || f.correctOption.Some?
  }

  /** The new value of a column: the sent one when the field is defined, else the old one. */
  function Patched(field: Option<string>, current: string): (r: string)
    ensures field.Some? ==> r == field.value
    ensures field.None? ==> r == current
  {
    if field.Some? then field.value else current
  }

  /** createQuestion: 400 before anything else when a field is falsy; 404 and
      no insert under a missing quiz; otherwise exactly one new question
      under a fresh key, holding the fields as sent. */
  function CreateQuestion(db: Db, quizId: Id, f: QuestionFields): (out: Step<Id>)
    requires db.Valid()
    ensures out.db.Valid()
    ensures !AllFilled(f) ==> out == Step(db, Fail(400, "All fields are required"))
    ensures AllFilled(f) && quizId !in db.quizzes.rows ==> out == Step(db, Fail(404, "Quiz not found"))
    ensures out.reply.Ok? <==> AllFilled(f) && quizId in db.quizzes.rows
    ensures out.reply.Ok? ==>
      var id := db.questions.next;
      && id !in db.questions.rows
      && out.reply == Ok(201, id)
      && out.db.questions.rows.Keys == db.questions.rows.Keys + {id}
      && out.db.questions.rows[id] == Question(quizId, f.question.value, f.optionA.value, f.optionB.value,
                                               f.optionC.value, f.optionD.value, f.correctOption.value)
      && (forall k :: k in db.questions.rows ==> out.db.questions.rows[k] == db.questions.rows[k])
      && out.db.users == db.users && out.db.quizzes == db.quizzes && out.db.results == db.results
    ensures Consistent(db) ==> Consistent(out.db)
  {
    if !AllFilled(f) then Step(db, Fail(400, "All fields are required"))
    else if quizId !in db.quizzes.rows then Step(db, Fail(404, "Quiz not found"))
    else
      var id := db.questions.next;
      var q := Question(quizId, f.question.value, f.optionA.value, f.optionB.value,
                        f.optionC.value, f.optionD.value, f.correctOption.value);
      Step(db.(questions := Insert(db.questions, q)), Ok(201, id))
  }

  /** getQuestionsByQuiz: 404 for a missing quiz; otherwise exactly that
      quiz's questions, in key order. */
  function QuestionsByQuiz(db: Db, quizId: Id): (r: Reply<seq<Keyed<Question>>>)
    requires db.Valid()
    ensures quizId !in db.quizzes.rows <==> r == Fail(404, "Quiz not found")
    ensures r.Ok? || r.Fail?
    ensures r.Ok? ==> r.status == 200 && ListsQuestionsOf(db, quizId, r.body)
  {
    if quizId !in db.quizzes.rows then Fail(404, "Quiz not found")
    else Ok(200, QuestionsOf(db, quizId))
  }

  /** updateQuestion: 404 for a missing question; 400 and no change when no
      field is defined; otherwise exactly the defined fields of that question
      change — empty strings included — and nothing else does. */
  function UpdateQuestion(db: Db, id: Id, f: QuestionFields): (out: Step<string>)
    requires db.Valid()
    ensures out.db.Valid()
    ensures id !in db.questions.rows ==> out == Step(db, Fail(404, "Question not found"))
    ensures id in db.questions.rows && !AnyDefined(f) ==> out == Step(db, Fail(400, "No fields to update"))
    ensures out.reply.Ok? <==> id in db.questions.rows && AnyDefined(f)
    ensures out.reply.Ok? ==>
      var q := db.questions.rows[id];
      && out.reply == Ok(200, "Question updated successfully")
      && out.db.questions.rows.Keys == db.questions.rows.Keys
      && out.db.questions.rows[id] == Question(q.quizId, Patched(f.question, q.text),
                                               Patched(f.optionA, q.optionA), Patched(f.optionB, q.optionB),
                                               Patched(f.optionC, q.optionC), Patched(f.optionD, q.optionD),
                                               Patched(f.correctOption, q.correctOption))
      && (forall k :: k in db.questions.rows && k != id ==> out.db.questions.rows[k] == db.questions.rows[k])
      && out.db.users == db.users && out.db.quizzes == db.quizzes && out.db.results == db.results
    ensures Consistent(db) ==> Consistent(out.db)
  {
    if id !in db.questions.rows then Step(db, Fail(404, "Question not found"))
    else if !AnyDefined(f) then Step(db, Fail(400, "No fields to update"))
    else
      var q := db.questions.rows[id];
      var q' := Question(q.quizId, Patched(f.question, q.text),
                         Patched(f.optionA, q.optionA), Patched(f.optionB, q.optionB),
                         Patched(f.optionC, q.optionC), Patched(f.optionD, q.optionD),
                         Patched(f.correctOption, q.correctOption));
      Step(db.(questions := db.questions.(rows := db.questions.rows[id := q'])),
           Ok(200, "Question updated successfully"))
  }

  /** deleteQuestion: 404 for a missing question; otherwise that question
      goes and every other row stays. */
  function DeleteQuestion(db: Db, id: Id): (out: Step<string>)
    requires db.Valid()
    ensures out.db.Valid()
    ensures id !in db.questions.rows <==> out == Step(db, Fail(404, "Question not found"))
    ensures out.reply.Ok? || out.reply.Fail?
    ensures out.reply.Ok? ==>
      && out.reply == Ok(200, "Question deleted successfully")
      && (forall k :: k in out.db.questions.rows <==> k in db.questions.rows && k != id)
      && (forall k :: k in out.db.questions.rows ==> out.db.questions.rows[k] == db.questions.rows[k])
      && out.db.users == db.users && out.db.quizzes == db.quizzes && out.db.results == db.results
    ensures Consistent(db) ==> Consistent(out.db)
  {
    if id !in db.questions.rows then Step(db, Fail(404, "Question not found"))
    else Step(db.(questions := db.questions.(rows := db.questions.rows - {id})), Ok(200, "Question deleted successfully"))
  }

  /** A question created under a quiz is listed with that quiz, with its fields as sent. */
  lemma CreatedQuestionIsListed(db: Db, quizId: Id, f: QuestionFields)
    requires db.Valid() && AllFilled(f) && quizId in db.quizzes.rows
    ensures var out := CreateQuestion(db, quizId, f);
            var r := QuestionsByQuiz(out.db, quizId);
            r.Ok? && Keyed(out.reply.body, out.db.questions.rows[out.reply.body]) in r.body
            && out.db.questions.rows[out.reply.body].correctOption == f.correctOption.value
  {
  }

  /** Updating a field to its current value changes nothing: the patch is idempotent. */
  lemma UpdateQuestionIdempotent(db: Db, id: Id, f: QuestionFields)
    requires db.Valid() && id in db.questions.rows && AnyDefined(f)
    ensures var once := UpdateQuestion(db, id, f).db;
            UpdateQuestion(once, id, f).db == once
  {
    var once := UpdateQuestion(db, id, f).db;
    assert once.questions.rows[id := once.questions.rows[id]] == once.questions.rows;
  }
}
