/** The quiz handlers: create, list, read with questions, partial update
    and delete. Deleting a quiz removes its questions with it (the
    questions' foreign key cascades); result rows are kept. */
module Quizzes {

  import opened Base
  import opened Http
  import opened Store

  /** The body of GET /api/quiz/:id: the quiz row plus its questions, with
      the correct option of each — nothing is redacted. */
  datatype QuizDetail = QuizDetail(id: Id, quiz: Quiz, questions: seq<Keyed<Question>>)

  /** A duration the quizzes table can take: parseInt reads a number, and
      that number fits the INT column. */
  predicate Storable(duration: Scalar): (b: bool)
    ensures duration.Absent? ==> !b
    ensures duration.Num? ==> (b <==> INT_MIN <= duration.n <= INT_MAX)
  {
    ParseIntField(duration).Some? && FitsInt(ParseIntField(duration).value)
  }

  /** Every stored duration lies in the column's range. */
  predicate DurationsFit(db: Db) {
    forall k :: k in db.quizzes.rows ==> FitsInt(db.quizzes.rows[k].duration)
  }

  /** createQuiz: 400 and no insert when the title or the duration is falsy
      (a duration of 0 included); 500 and no insert when the duration is not
      a number parseInt can read (NaN cannot be stored) or lies outside the
      INT column's range; otherwise one new quiz under a fresh key with the
      title, the parsed duration and the creation time. */
  function CreateQuiz(db: Db, title: Option<string>, duration: Scalar, now: int): (out: Step<Id>)
    requires db.Valid()
    ensures out.db.Valid()
    ensures !Filled(title) || !Truthy(duration) ==> out == Step(db, Fail(400, "Title and duration are required"))
    ensures Filled(title) && Truthy(duration) && !Storable(duration) ==>
              out == Step(db, Fail(500, "Failed to create quiz"))
    ensures out.reply.Ok? <==> Filled(title) && Truthy(duration) && Storable(duration)
    ensures out.reply.Ok? ==>
      var id := db.quizzes.next;
      && id !in db.quizzes.rows
      && out.reply == Ok(201, id)
      && out.db.quizzes.rows.Keys == db.quizzes.rows.Keys + {id}
      && out.db.quizzes.rows[id] == Quiz(title.value, ParseIntField(duration).value, now)
      && (forall k :: k in db.quizzes.rows ==> out.db.quizzes.rows[k] == db.quizzes.rows[k])
      && out.db.users == db.users && out.db.questions == db.questions && out.db.results == db.results
    ensures Consistent(db) ==> Consistent(out.db)
    ensures DurationsFit(db) ==> DurationsFit(out.db)
  {
    if !Filled(title) || !Truthy(duration) then Step(db, Fail(400, "Title and duration are required"))
    else match ParseIntField(duration)
      case None => Step(db, Fail(500, "Failed to create quiz"))
      case Some(minutes) =>
        if !FitsInt(minutes) then Step(db, Fail(500, "Failed to create quiz"))
        else
          var id := db.quizzes.next;
          Step(db.(quizzes := Insert(db.quizzes, Quiz(title.value, minutes, now))), Ok(201, id))
  }

  /** The sort key of getAllQuizzes. */
  function CreatedAt(x: Keyed<Quiz>): int {
    x.row.createdAt
  }

  /** getAllQuizzes: every quiz exactly once, newest first. */
  function AllQuizzes(db: Db): (r: seq<Keyed<Quiz>>)
    requires db.Valid()
    ensures SortedDesc(r, CreatedAt)
    ensures forall k :: k in db.quizzes.rows ==> Keyed(k, db.quizzes.rows[k]) in r
    ensures forall x :: x in r ==> x.id in db.quizzes.rows && db.quizzes.rows[x.id] == x.row
    ensures forall i, j :: 0 <= i < j < |r| ==> r[i].id != r[j].id
  {
    SelectDesc(db.quizzes, (q: Quiz) => true, CreatedAt)
  }

  /** getQuizById: 404 for a missing quiz; otherwise the quiz and exactly its
      questions in key order. */
  function GetQuizById(db: Db, id: Id): (r: Reply<QuizDetail>)
    requires db.Valid()
    ensures id !in db.quizzes.rows <==> r == Fail(404, "Quiz not found")
    ensures r.Ok? || r.Fail?
    ensures r.Ok? ==> r.status == 200 && r.body.id == id && r.body.quiz == db.quizzes.rows[id]
                      && ListsQuestionsOf(db, id, r.body.questions)
  {
    if id !in db.quizzes.rows then Fail(404, "Quiz not found")
    else Ok(200, QuizDetail(id, db.quizzes.rows[id], QuestionsOf(db, id)))
  }

  /** updateQuiz: 404 for a missing quiz; 400 when neither field is sent; 500
      when a sent duration is not a number parseInt can read or does not fit
      the INT column; otherwise the
      sent fields of that quiz change and nothing else does. An empty title
      counts as sent. */
  function UpdateQuiz(db: Db, id: Id, title: Option<string>, duration: Scalar): (out: Step<string>)
    requires db.Valid()
    ensures out.db.Valid()
    ensures id !in db.quizzes.rows ==> out == Step(db, Fail(404, "Quiz not found"))
    ensures id in db.quizzes.rows && title.None? && duration.Absent? ==>
              out == Step(db, Fail(400, "No fields to update"))
    ensures id in db.quizzes.rows && !duration.Absent? && !Storable(duration) ==>
              out == Step(db, Fail(500, "Failed to update quiz"))
    ensures !out.reply.Ok? ==> out.db == db
    ensures out.reply.Ok? <==> id in db.quizzes.rows && (title.Some? || !duration.Absent?)
                               && (duration.Absent? || Storable(duration))
    ensures out.reply.Ok? ==>
      && out.reply == Ok(200, "Quiz updated successfully")
      && out.db.quizzes.rows.Keys == db.quizzes.rows.Keys
      && out.db.quizzes.rows[id].title == (if title.Some? then title.value else db.quizzes.rows[id].title)
      && out.db.quizzes.rows[id].duration
           == (if duration.Absent? then db.quizzes.rows[id].duration else ParseIntField(duration).value)
      && out.db.quizzes.rows[id].createdAt == db.quizzes.rows[id].createdAt
      && (forall k :: k in db.quizzes.rows && k != id ==> out.db.quizzes.rows[k] == db.quizzes.rows[k])
      && out.db.users == db.users && out.db.questions == db.questions && out.db.results == db.results
    ensures Consistent(db) ==> Consistent(out.db)
    ensures DurationsFit(db) ==> DurationsFit(out.db)
  {
    if id !in db.quizzes.rows then Step(db, Fail(404, "Quiz not found"))
    else if title.None? && duration.Absent? then Step(db, Fail(400, "No fields to update"))
    else if !duration.Absent? && !Storable(duration) then Step(db, Fail(500, "Failed to update quiz"))
    else
      var q := db.quizzes.rows[id];
      var q' := q.(title := if title.Some? then title.value else q.title,
                   duration := if duration.Absent? then q.duration else ParseIntField(duration).value);
      Step(db.(quizzes := db.quizzes.(rows := db.quizzes.rows[id := q'])), Ok(200, "Quiz updated successfully"))
  }

  /** deleteQuiz: 404 for a missing quiz; otherwise that quiz and its
      questions go, every other quiz and question stays as it was. */
  function DeleteQuiz(db: Db, id: Id): (out: Step<string>)
    requires db.Valid()
    ensures out.db.Valid()
    ensures id !in db.quizzes.rows <==> out == Step(db, Fail(404, "Quiz not found"))
    ensures out.reply.Ok? || out.reply.Fail?
    ensures out.reply.Ok? ==>
      && out.reply == Ok(200, "Quiz deleted successfully")
      && (forall k :: k in out.db.quizzes.rows <==> k in db.quizzes.rows && k != id)
      && (forall k :: k in out.db.quizzes.rows ==> out.db.quizzes.rows[k] == db.quizzes.rows[k])
      && (forall k :: k in out.db.questions.rows <==> k in db.questions.rows && db.questions.rows[k].quizId != id)
      && (forall k :: k in out.db.questions.rows ==> out.db.questions.rows[k] == db.questions.rows[k])
      && out.db.users == db.users && out.db.results == db.results
    ensures Consistent(db) ==> Consistent(out.db)
  {
    if id !in db.quizzes.rows then Step(db, Fail(404, "Quiz not found"))
    else
      var quizzes := db.quizzes.(rows := db.quizzes.rows - {id});
      var questions := db.questions.(rows := map k | k in db.questions.rows && db.questions.rows[k].quizId != id
                                                   :: db.questions.rows[k]);
      Step(db.(quizzes := quizzes, questions := questions), Ok(200, "Quiz deleted successfully"))
  }

  /** After a delete the quiz reads as missing, and none of its questions is left. */
  lemma DeleteThenGone(db: Db, id: Id)
    requires db.Valid() && id in db.quizzes.rows
    ensures GetQuizById(DeleteQuiz(db, id).db, id) == Fail(404, "Quiz not found")
    ensures QuestionsOf(DeleteQuiz(db, id).db, id) == []
  {
  }
}
