/** The attempt lifecycle and scoring engine: starting an attempt (one
    result row per quiz and user, score 0 until submitted), submitting
    answers (scored against the answer key of the attempt's own quiz), and
    reading history and single results, always filtered by the caller.

    The percentage is an exact `real`; the server computes it in binary
    floating point. Submitting an empty answer list makes the server divide
    0 by 0 and hand NaN to the UPDATE, which the database rejects: the
    model answers 500 and changes nothing. */
module Attempts {

  import opened Base
  import opened Http
  import opened Store

  /** Milliseconds per minute: the deadline is `now + duration * 60000`. */
  const MS_PER_MINUTE: int := 60000

  /** The fixed pass mark, in percent. The quiz row's own passing score is not consulted. */
  const PASS_MARK: real := 60.0

  /** One submitted answer: `{ questionId, selectedOption }`. */
  datatype Answer = Answer(questionId: Id, selectedOption: string)

  /** The body of a started attempt: `{ resultId, duration, endTime }`, endTime in epoch milliseconds. */
  datatype Started = Started(resultId: Id, duration: int, endTime: int)

  /** The body of a submission: `{ score, passed }`, score in percent. */
  datatype Scored = Scored(score: real, passed: bool)

  /** A result row joined with its quiz's title and duration. */
  datatype HistoryRow = HistoryRow(id: Id, result: Result, title: string, duration: int)

  /** The row `WHERE quiz_id = ? AND user_id = ?` matches. */
  predicate AttemptOf(r: Result, quizId: Id, userId: Id) {
    r.quizId == quizId && r.userId == userId
  }

  // ------------------------------------------------------------------ start

  /** startAttempt: 404 for a missing quiz; 400 with the existing row's key
      when the caller already has a result for the quiz, whatever its score;
      otherwise one new row for (quiz, caller) with score 0 under a fresh
      key, and a deadline of `now + duration * 60000` ms. */
  function StartAttempt(db: Db, quizId: Id, caller: Claims, now: int): (out: Step<Started>)
    requires db.Valid()
    ensures out.db.Valid()
    ensures quizId !in db.quizzes.rows ==> out == Step(db, Fail(404, "Quiz not found"))
    ensures out.reply.AlreadyTaken? ==>
      && out.db == db
      && var k := out.reply.resultId;
         k in db.results.rows && AttemptOf(db.results.rows[k], quizId, caller.userId)
         && forall j :: j in db.results.rows && AttemptOf(db.results.rows[j], quizId, caller.userId) ==> k <= j
    ensures out.reply.AlreadyTaken? <==>
      quizId in db.quizzes.rows && exists k :: k in db.results.rows && AttemptOf(db.results.rows[k], quizId, caller.userId)
    ensures out.reply.Ok? <==>
      quizId in db.quizzes.rows && forall k :: k in db.results.rows ==> !AttemptOf(db.results.rows[k], quizId, caller.userId)
    ensures out.reply.Ok? ==>
      var id := db.results.next;
      var minutes := db.quizzes.rows[quizId].duration;
      && id !in db.results.rows
      && out.reply == Ok(201, Started(id, minutes, now + minutes * MS_PER_MINUTE))
      && out.db.results.rows.Keys == db.results.rows.Keys + {id}
      && out.db.results.rows[id] == Result(quizId, caller.userId, 0.0, now)
      && (forall k :: k in db.results.rows ==> out.db.results.rows[k] == db.results.rows[k])
      && out.db.users == db.users && out.db.quizzes == db.quizzes && out.db.questions == db.questions
    ensures Consistent(db) ==> Consistent(out.db)
  {
    if quizId !in db.quizzes.rows then Step(db, Fail(404, "Quiz not found"))
    else match FirstKey(db.results, (r: Result) => AttemptOf(r, quizId, caller.userId))
      case Some(existing) => Step(db, AlreadyTaken(existing))
      case None =>
        var id := db.results.next;
        var minutes := db.quizzes.rows[quizId].duration;
        var results := Insert(db.results, Result(quizId, caller.userId, 0.0, now));
        Step(db.(results := results), Ok(201, Started(id, minutes, now + minutes * MS_PER_MINUTE)))
  }

  /** Two starts in a row for the same quiz and user never make two rows:
      the second one is refused with the first one's key, at any time. */
  lemma StartTwiceRefused(db: Db, quizId: Id, caller: Claims, now: int, later: int)
    requires db.Valid()
    requires StartAttempt(db, quizId, caller, now).reply.Ok?
    ensures var first := StartAttempt(db, quizId, caller, now);
            StartAttempt(first.db, quizId, caller, later) == Step(first.db, AlreadyTaken(first.reply.body.resultId))
  {
    var first := StartAttempt(db, quizId, caller, now);
    var id := first.reply.body.resultId;
    assert AttemptOf(first.db.results.rows[id], quizId, caller.userId);
  }

  // ----------------------------------------------------------------- scoring

  /** The answer names a question of the attempt's quiz whose stored
      correct option is exactly the selected one. */
  predicate Correct(questions: map<Id, Question>, quizId: Id, a: Answer) {
    && a.questionId in questions
    && questions[a.questionId].quizId == quizId
    && questions[a.questionId].correctOption == a.selectedOption
  }

  /** The number of correct answers, every occurrence of a repeated question counted. */
  function CountCorrect(questions: map<Id, Question>, quizId: Id, answers: seq<Answer>): (n: nat)
    ensures n <= |answers|
  {
    if |answers| == 0 then 0
    else CountCorrect(questions, quizId, answers[..|answers| - 1]) + (if Correct(questions, quizId, answers[|answers| - 1]) then 1 else 0)
  }

  /** The positions below `n` holding a correct answer: an independent
      description of what the scoring loop counts. */
  ghost function CorrectPositions(questions: map<Id, Question>, quizId: Id, answers: seq<Answer>, n: nat): set<nat>
    requires n <= |answers|
  {
    set i: nat | i < n && Correct(questions, quizId, answers[i])
  }

  /** One more position adds itself to the correct positions exactly when its answer is correct. */
  lemma PositionsStep(questions: map<Id, Question>, quizId: Id, answers: seq<Answer>, n: nat)
    requires n < |answers|
    ensures n !in CorrectPositions(questions, quizId, answers, n)
    ensures CorrectPositions(questions, quizId, answers, n + 1)
         == CorrectPositions(questions, quizId, answers, n) + (if Correct(questions, quizId, answers[n]) then {n} else {})
  {
  }

  /** The count is the number of correct positions. */
  lemma {:induction false} CountIsCorrectPositions(questions: map<Id, Question>, quizId: Id, answers: seq<Answer>)
    ensures CountCorrect(questions, quizId, answers) == |CorrectPositions(questions, quizId, answers, |answers|)|
    decreases |answers|
  {
    if |answers| > 0 {
      var n := |answers| - 1;
      var prefix := answers[..n];
      CountIsCorrectPositions(questions, quizId, prefix);
      assert CorrectPositions(questions, quizId, prefix, n) == CorrectPositions(questions, quizId, answers, n) by {
        forall i: nat | i < n ensures prefix[i] == answers[i] { }
      }
      PositionsStep(questions, quizId, answers, n);
      ghost var before := CorrectPositions(questions, quizId, answers, n);
      if Correct(questions, quizId, answers[n]) {
        assert |before + {n}| == |before| + 1;
      }
    }
  }

  /** The scoring loop of submitQuiz, one lookup per answer. */
  method ScoreAnswers(questions: map<Id, Question>, quizId: Id, answers: seq<Answer>) returns (score: nat)
    ensures score == |CorrectPositions(questions, quizId, answers, |answers|)|
    ensures score <= |answers|
  {
    score := 0;
    var i := 0;
    while i < |answers|
      invariant 0 <= i <= |answers|
      invariant score == |CorrectPositions(questions, quizId, answers, i)|
      invariant score <= i
    {
      ghost var before := CorrectPositions(questions, quizId, answers, i);
      PositionsStep(questions, quizId, answers, i);
      if Correct(questions, quizId, answers[i]) {
        assert |before + {i}| == |before| + 1;
        score := score + 1;
      }
      i := i + 1;
    }
  }

  /** Counting a concatenation counts each part: a repeated answer scores each time. */
  lemma {:induction false} CountAppend(questions: map<Id, Question>, quizId: Id, a: seq<Answer>, b: seq<Answer>)
    ensures CountCorrect(questions, quizId, a + b) == CountCorrect(questions, quizId, a) + CountCorrect(questions, quizId, b)
    decreases |b|
  {
    if |b| > 0 {
      var b' := b[..|b| - 1];
      CountAppend(questions, quizId, a, b');
      assert (a + b)[..|a + b| - 1] == a + b';
      assert (a + b)[|a + b| - 1] == b[|b| - 1];
    } else {
      assert a + b == a;
    }
  }

  /** Every answer is correct exactly when the count is the number of answers. */
  lemma {:induction false} CountFullIff(questions: map<Id, Question>, quizId: Id, answers: seq<Answer>)
    ensures CountCorrect(questions, quizId, answers) == |answers|
            <==> forall i :: 0 <= i < |answers| ==> Correct(questions, quizId, answers[i])
    decreases |answers|
  {
    if |answers| > 0 {
      var n := |answers| - 1;
      CountFullIff(questions, quizId, answers[..n]);
      assert forall i :: 0 <= i < n ==> answers[..n][i] == answers[i];
    }
  }

  /** An answer naming a question of another quiz never counts, however it matches that question's key. */
  lemma {:induction false} ForeignQuestionsNeverCount(questions: map<Id, Question>, quizId: Id, answers: seq<Answer>)
    requires forall i :: 0 <= i < |answers| ==>
               answers[i].questionId in questions ==> questions[answers[i].questionId].quizId != quizId
    ensures CountCorrect(questions, quizId, answers) == 0
    decreases |answers|
  {
    if |answers| > 0 {
      var n := |answers| - 1;
      assert forall i :: 0 <= i < n ==> answers[..n][i] == answers[i];
      ForeignQuestionsNeverCount(questions, quizId, answers[..n]);
    }
  }

  /** `correct / total * 100`, as an exact real. */
  function Percentage(correct: nat, total: nat): (p: real)
    requires total > 0
    ensures p * (total as real) == (correct as real) * 100.0
    ensures correct <= total ==> 0.0 <= p <= 100.0
  {
    (correct as real / total as real) * 100.0
  }

  /** Multiplying by a positive real keeps the sign. */
  lemma SignOfProduct(x: real, t: real)
    requires t > 0.0
    ensures x >= 0.0 <==> x * t >= 0.0
  {
  }

  /** The pass mark in whole numbers: passing means at least 3 correct in every 5 submitted. */
  lemma PassIff(correct: nat, total: nat)
    requires total > 0
    ensures Percentage(correct, total) >= PASS_MARK <==> 5 * correct >= 3 * total
  {
    var p := Percentage(correct, total);
    var t := total as real;
    SignOfProduct(p - PASS_MARK, t);
    assert (p - PASS_MARK) * t == p * t - PASS_MARK * t;
    assert (p - PASS_MARK) * t == 20.0 * (5.0 * (correct as real) - 3.0 * t);
  }

  /** Full marks in whole numbers: the percentage is 100 exactly when every submitted answer counted. */
  lemma FullIff(correct: nat, total: nat)
    requires total > 0
    ensures Percentage(correct, total) == 100.0 <==> correct == total
  {
    var p := Percentage(correct, total);
    var t := total as real;
    SignOfProduct(p - 100.0, t);
    SignOfProduct(100.0 - p, t);
    assert (p - 100.0) * t == p * t - 100.0 * t;
    assert (100.0 - p) * t == 100.0 * t - p * t;
  }

  /** The attempt `resultId` exists and belongs to the caller. */
  predicate Owns(db: Db, resultId: Id, caller: Claims) {
    resultId in db.results.rows && db.results.rows[resultId].userId == caller.userId
  }

  /** submitQuiz: 404 unless the attempt exists and is the caller's; 500 and
      no change for an empty answer list; otherwise the percentage of
      correct answers among those submitted (not among the quiz's
      questions) is stored as the row's score — whatever was there before —
      and returned with `passed` exactly when it reaches 60. */
  function SubmitQuiz(db: Db, resultId: Id, caller: Claims, answers: seq<Answer>): (out: Step<Scored>)
    requires db.Valid()
    ensures out.db.Valid()
    ensures !Owns(db, resultId, caller) ==> out == Step(db, Fail(404, "Quiz result not found"))
    ensures Owns(db, resultId, caller) && |answers| == 0 ==> out == Step(db, Fail(500, "Failed to submit quiz"))
    ensures out.reply.Ok? <==> Owns(db, resultId, caller) && |answers| > 0
    ensures !out.reply.Ok? ==> out.db == db
    ensures out.reply.Ok? ==>
      var row := db.results.rows[resultId];
      var score := out.reply.body.score;
      && out.reply.status == 200
      && score * (|answers| as real) == (CountCorrect(db.questions.rows, row.quizId, answers) as real) * 100.0
      && 0.0 <= score <= 100.0
      && (out.reply.body.passed <==> score >= PASS_MARK)
      && out.db.results.rows.Keys == db.results.rows.Keys
      && out.db.results.rows[resultId] == row.(score := score)
      && (forall k :: k in db.results.rows && k != resultId ==> out.db.results.rows[k] == db.results.rows[k])
      && out.db.users == db.users && out.db.quizzes == db.quizzes && out.db.questions == db.questions
    ensures Consistent(db) ==> Consistent(out.db)
  {
    if !Owns(db, resultId, caller) then Step(db, Fail(404, "Quiz result not found"))
    else if |answers| == 0 then Step(db, Fail(500, "Failed to submit quiz"))
    else
      var row := db.results.rows[resultId];
      var percentage := Percentage(CountCorrect(db.questions.rows, row.quizId, answers), |answers|);
      var results := db.results.(rows := db.results.rows[resultId := row.(score := percentage)]);
      Step(db.(results := results), Ok(200, Scored(percentage, percentage >= PASS_MARK)))
  }

  /** A submission scores 100 exactly when every submitted answer is correct —
      so an attempt that answers two questions of five, both correctly, scores
      100, not 40. */
  lemma FullMarksIff(db: Db, resultId: Id, caller: Claims, answers: seq<Answer>)
    requires db.Valid() && Owns(db, resultId, caller) && |answers| > 0
    ensures var r := SubmitQuiz(db, resultId, caller, answers).reply;
            var quizId := db.results.rows[resultId].quizId;
            r.body.score == 100.0 <==> forall i :: 0 <= i < |answers| ==> Correct(db.questions.rows, quizId, answers[i])
  {
    var quizId := db.results.rows[resultId].quizId;
    var n := CountCorrect(db.questions.rows, quizId, answers);
    CountFullIff(db.questions.rows, quizId, answers);
    FullIff(n, |answers|);
  }

  /** Submitting again overwrites: two submissions leave the database and
      the reply exactly as the second one alone would. */
  lemma ResubmitOverwrites(db: Db, resultId: Id, caller: Claims, first: seq<Answer>, second: seq<Answer>)
    requires db.Valid() && Owns(db, resultId, caller) && |first| > 0
    ensures var once := SubmitQuiz(db, resultId, caller, first).db;
            SubmitQuiz(once, resultId, caller, second)
              == (if |second| == 0 then Step(once, Fail(500, "Failed to submit quiz"))
                  else SubmitQuiz(db, resultId, caller, second))
  {
    var once := SubmitQuiz(db, resultId, caller, first).db;
    if |second| > 0 {
      var row := db.results.rows[resultId];
      assert once.questions == db.questions;
      assert once.results.rows[resultId].quizId == row.quizId;
      var p := Percentage(CountCorrect(db.questions.rows, row.quizId, second), |second|);
      assert once.results.rows[resultId := once.results.rows[resultId].(score := p)]
          == db.results.rows[resultId := row.(score := p)];
    }
  }

  /** A finished attempt still blocks a new start: the server does not tell
      a scored row from an unscored one. */
  lemma StartAfterSubmitRefused(db: Db, resultId: Id, caller: Claims, answers: seq<Answer>, now: int)
    requires db.Valid() && Owns(db, resultId, caller)
    ensures var quizId := db.results.rows[resultId].quizId;
            var after := SubmitQuiz(db, resultId, caller, answers).db;
            quizId in after.quizzes.rows ==> StartAttempt(after, quizId, caller, now).reply.AlreadyTaken?
  {
    var after := SubmitQuiz(db, resultId, caller, answers).db;
    assert AttemptOf(after.results.rows[resultId], db.results.rows[resultId].quizId, caller.userId);
  }

  // --------------------------------------------------------- history, result

  /** The sort key of the history. */
  function TakenAt(x: Keyed<Result>): int {
    x.row.takenAt
  }

  /** A result row joined with its quiz. */
  function Joined(db: Db, x: Keyed<Result>): HistoryRow
    requires x.row.quizId in db.quizzes.rows
  {
    var q := db.quizzes.rows[x.row.quizId];
    HistoryRow(x.id, x.row, q.title, q.duration)
  }

  /** The rows the history and result queries can see for `userId`: the
      caller's own, whose quiz still exists (the query is an inner join). */
  predicate Visible(db: Db, r: Result, userId: Id) {
    r.userId == userId && r.quizId in db.quizzes.rows
  }

  /** getQuizHistory: exactly the caller's visible result rows, each once,
      joined with their quiz, most recent first. Unsubmitted attempts are
      included with score 0. */
  function History(db: Db, caller: Claims): (r: seq<HistoryRow>)
    requires db.Valid()
    ensures forall i, j :: 0 <= i < j < |r| ==> r[i].result.takenAt >= r[j].result.takenAt
    ensures forall x :: x in r ==> x.id in db.results.rows && db.results.rows[x.id] == x.result
                                   && Visible(db, x.result, caller.userId)
                                   && x == Joined(db, Keyed(x.id, x.result))
    ensures forall k :: k in db.results.rows && Visible(db, db.results.rows[k], caller.userId) ==>
                          Joined(db, Keyed(k, db.results.rows[k])) in r
    ensures forall i, j :: 0 <= i < j < |r| ==> r[i].id != r[j].id
  {
    var rows := VisibleRows(db, caller.userId);
    var r := JoinAll(db, rows);
    JoinedHistory(db, caller, rows, r);
    r
  }

  /** The history query's selection before the join: the visible rows, each
      once, most recent first. */
  function VisibleRows(db: Db, userId: Id): (rows: seq<Keyed<Result>>)
    requires db.Valid()
    ensures SortedDesc(rows, TakenAt)
    ensures forall x :: x in rows ==> x.id in db.results.rows && db.results.rows[x.id] == x.row
                                      && Visible(db, x.row, userId)
    ensures forall k :: k in db.results.rows && Visible(db, db.results.rows[k], userId) ==>
                          Keyed(k, db.results.rows[k]) in rows
    ensures forall i, j :: 0 <= i < j < |rows| ==> rows[i].id != rows[j].id
  {
    SelectDesc(db.results, (res: Result) => Visible(db, res, userId), TakenAt)
  }

  /** Each selected row joined with its quiz, in the same order. */
  function JoinAll(db: Db, rows: seq<Keyed<Result>>): (r: seq<HistoryRow>)
    requires forall x :: x in rows ==> x.row.quizId in db.quizzes.rows
    ensures |r| == |rows| && forall i :: 0 <= i < |rows| ==> r[i] == Joined(db, rows[i])
  {
    if |rows| == 0 then [] else [Joined(db, rows[0])] + JoinAll(db, rows[1..])
  }

  /** Joining the sorted selection keeps its order, its keys and its coverage. */
  lemma JoinedHistory(db: Db, caller: Claims, rows: seq<Keyed<Result>>, r: seq<HistoryRow>)
    requires SortedDesc(rows, TakenAt)
    requires forall x :: x in rows ==> x.id in db.results.rows && db.results.rows[x.id] == x.row
                                       && Visible(db, x.row, caller.userId)
    requires forall k :: k in db.results.rows && Visible(db, db.results.rows[k], caller.userId) ==>
                           Keyed(k, db.results.rows[k]) in rows
    requires forall i, j :: 0 <= i < j < |rows| ==> rows[i].id != rows[j].id
    requires |r| == |rows|
    requires forall i :: 0 <= i < |rows| ==> rows[i].row.quizId in db.quizzes.rows && r[i] == Joined(db, rows[i])
    ensures forall i, j :: 0 <= i < j < |r| ==> r[i].result.takenAt >= r[j].result.takenAt
    ensures forall x :: x in r ==> x.id in db.results.rows && db.results.rows[x.id] == x.result
                                   && Visible(db, x.result, caller.userId)
                                   && x == Joined(db, Keyed(x.id, x.result))
    ensures forall k :: k in db.results.rows && Visible(db, db.results.rows[k], caller.userId) ==>
                          Joined(db, Keyed(k, db.results.rows[k])) in r
    ensures forall i, j :: 0 <= i < j < |r| ==> r[i].id != r[j].id
  {
    forall i, j | 0 <= i < j < |r| ensures r[i].result.takenAt >= r[j].result.takenAt {
      assert TakenAt(rows[i]) >= TakenAt(rows[j]);
    }
    forall x | x in r
      ensures x.id in db.results.rows && db.results.rows[x.id] == x.result
              && Visible(db, x.result, caller.userId) && x == Joined(db, Keyed(x.id, x.result))
    {
      var i :| 0 <= i < |r| && r[i] == x;
      assert rows[i] in rows;
    }
    forall k | k in db.results.rows && Visible(db, db.results.rows[k], caller.userId)
      ensures Joined(db, Keyed(k, db.results.rows[k])) in r
    {
      var i :| 0 <= i < |rows| && rows[i] == Keyed(k, db.results.rows[k]);
      assert r[i] == Joined(db, rows[i]);
    }
  }

  /** getResult: the caller's visible row with this key, joined with its
      quiz; 404 when the key is unknown, the row is someone else's, or its
      quiz is gone. */
  function GetResult(db: Db, resultId: Id, caller: Claims): (r: Reply<HistoryRow>)
    ensures r.Ok? || r.Fail?
    ensures r.Ok? <==> resultId in db.results.rows && Visible(db, db.results.rows[resultId], caller.userId)
    ensures r.Fail? ==> r == Fail(404, "Result not found")
    ensures r.Ok? ==> r.status == 200 && r.body.id == resultId && r.body.result == db.results.rows[resultId]
                      && r.body.title == db.quizzes.rows[r.body.result.quizId].title
                      && r.body.duration == db.quizzes.rows[r.body.result.quizId].duration
  {
    if resultId in db.results.rows && Visible(db, db.results.rows[resultId], caller.userId) then
      Ok(200, Joined(db, Keyed(resultId, db.results.rows[resultId])))
    else Fail(404, "Result not found")
  }

  /** A result the caller can read is one of the caller's history rows, and conversely. */
  lemma ResultInHistory(db: Db, resultId: Id, caller: Claims)
    requires db.Valid()
    ensures GetResult(db, resultId, caller).Ok? <==>
            exists x :: x in History(db, caller) && x.id == resultId
  {
    var h := History(db, caller);
    if GetResult(db, resultId, caller).Ok? {
      assert Joined(db, Keyed(resultId, db.results.rows[resultId])) in h;
    }
  }

  /** One answer, and a correct one, scores 100 and passes. */
  lemma SingleCorrectAnswer(db: Db, resultId: Id, caller: Claims, questionId: Id)
    requires db.Valid() && Owns(db, resultId, caller)
    requires questionId in db.questions.rows
    requires db.questions.rows[questionId].quizId == db.results.rows[resultId].quizId
    ensures var a := Answer(questionId, db.questions.rows[questionId].correctOption);
            SubmitQuiz(db, resultId, caller, [a]).reply == Ok(200, Scored(100.0, true))
  {
    var a := Answer(questionId, db.questions.rows[questionId].correctOption);
    assert [a][..0] == [];
    assert CountCorrect(db.questions.rows, db.results.rows[resultId].quizId, [a]) == 1;
  }

  /** A caller with a single visible attempt has exactly that attempt as history. */
  lemma OnlyVisibleAttempt(db: Db, caller: Claims, resultId: Id)
    requires db.Valid() && resultId in db.results.rows && Visible(db, db.results.rows[resultId], caller.userId)
    requires forall k :: k in db.results.rows && Visible(db, db.results.rows[k], caller.userId) ==> k == resultId
    ensures History(db, caller) == [Joined(db, Keyed(resultId, db.results.rows[resultId]))]
  {
    var h := History(db, caller);
    assert Joined(db, Keyed(resultId, db.results.rows[resultId])) in h;
  }

  /** On a database with no attempts yet, starting a quiz and answering one
      of its questions correctly scores 100, passes, and makes that attempt
      the caller's whole history. */
  lemma FirstAttemptScores(db: Db, quizId: Id, questionId: Id, caller: Claims, now: int)
    requires db.Valid() && db.results.rows == map[]
    requires quizId in db.quizzes.rows
    requires questionId in db.questions.rows && db.questions.rows[questionId].quizId == quizId
    ensures var s := StartAttempt(db, quizId, caller, now);
            && s.reply.Ok?
            && var a := Answer(questionId, db.questions.rows[questionId].correctOption);
               var t := SubmitQuiz(s.db, s.reply.body.resultId, caller, [a]);
               && t.reply == Ok(200, Scored(100.0, true))
               && |History(t.db, caller)| == 1
               && History(t.db, caller)[0].result.score == 100.0
  {
    var s := StartAttempt(db, quizId, caller, now);
    var resultId := s.reply.body.resultId;
    assert s.db.results.rows.Keys == {resultId};
    SingleCorrectAnswer(s.db, resultId, caller, questionId);
    var a := Answer(questionId, db.questions.rows[questionId].correctOption);
    var t := SubmitQuiz(s.db, resultId, caller, [a]);
    OnlyVisibleAttempt(t.db, caller, resultId);
  }
}
