/** The pure fragments of the browser client: collecting the checked
    answers for submission, the countdown display, the pass label of the
    history list and of the result screen, and the stored-session state.
    The DOM, `fetch` and `localStorage` themselves are not modelled: the
    checked radio of each question is passed in as `checked`, and storage
    is a value. */
module Client {

  import opened Base
  import opened Store
  import Text
  import Attempts

  // --------------------------------------------------------------- answers

  /** submitQuiz's collection loop: one answer per question whose radio
      group has a checked value, in question order; unanswered questions
      are skipped. */
  function CollectAnswers(questionIds: seq<Id>, checked: Id -> Option<string>): (r: seq<Attempts.Answer>)
    ensures |r| <= |questionIds|
    ensures forall a :: a in r ==> a.questionId in questionIds && checked(a.questionId) == Some(a.selectedOption)
    ensures forall i :: 0 <= i < |questionIds| && checked(questionIds[i]).Some? ==>
              Attempts.Answer(questionIds[i], checked(questionIds[i]).value) in r
    ensures r == [] <==> forall i :: 0 <= i < |questionIds| ==> checked(questionIds[i]).None?
  {
    if |questionIds| == 0 then []
    else
      var rest := CollectAnswers(questionIds[1..], checked);
      assert forall i :: 1 <= i < |questionIds| ==> questionIds[i] == questionIds[1..][i - 1];
      match checked(questionIds[0])
      case None => rest
      case Some(v) => [Attempts.Answer(questionIds[0], v)] + rest
  }

  /** Each answer in `r` is that of the checked question at the matching
      position of `idx`, a position from `lo` on. */
  ghost predicate AnswersAt(questionIds: seq<Id>, checked: Id -> Option<string>,
                            r: seq<Attempts.Answer>, idx: seq<nat>, lo: nat) {
    && |idx| == |r|
    && forall i :: 0 <= i < |idx| ==>
         && lo <= idx[i] < |questionIds| && checked(questionIds[idx[i]]).Some?
         && r[i] == Attempts.Answer(questionIds[idx[i]], checked(questionIds[idx[i]]).value)
  }

  ghost predicate Rising(idx: seq<nat>) {
    forall i, j :: 0 <= i < j < |idx| ==> idx[i] < idx[j]
  }

  /** Every checked position from `lo` on occurs in `idx`. */
  ghost predicate Covers(questionIds: seq<Id>, checked: Id -> Option<string>, idx: seq<nat>, lo: nat) {
    forall p :: lo <= p < |questionIds| && checked(questionIds[p]).Some? ==> p in idx
  }

  /** `r` lists, in question order, the answers of exactly the checked
      questions, once each: `idx` sends every answer to the position of its
      question, rises strictly, and reaches every checked position. */
  ghost predicate InOrderSelection(questionIds: seq<Id>, checked: Id -> Option<string>,
                                   r: seq<Attempts.Answer>, idx: seq<nat>) {
    AnswersAt(questionIds, checked, r, idx, 0) && Rising(idx) && Covers(questionIds, checked, idx, 0)
  }

  /** Positions in the tail of `questionIds`, read as positions in the whole. */
  function Shift(idx: seq<nat>): (r: seq<nat>)
    ensures |r| == |idx| && forall i :: 0 <= i < |idx| ==> r[i] == idx[i] + 1
  {
    seq(|idx|, i requires 0 <= i < |idx| => idx[i] + 1)
  }

  lemma ShiftAnswers(questionIds: seq<Id>, checked: Id -> Option<string>,
                     rest: seq<Attempts.Answer>, idx0: seq<nat>)
    requires |questionIds| > 0 && AnswersAt(questionIds[1..], checked, rest, idx0, 0)
    ensures AnswersAt(questionIds, checked, rest, Shift(idx0), 1)
  {
    var idx := Shift(idx0);
    forall i | 0 <= i < |idx|
      ensures && 1 <= idx[i] < |questionIds| && checked(questionIds[idx[i]]).Some?
              && rest[i] == Attempts.Answer(questionIds[idx[i]], checked(questionIds[idx[i]]).value)
    {
      assert questionIds[idx[i]] == questionIds[1..][idx0[i]];
    }
  }

  lemma ShiftCovers(questionIds: seq<Id>, checked: Id -> Option<string>, idx0: seq<nat>)
    requires |questionIds| > 0 && Covers(questionIds[1..], checked, idx0, 0)
    ensures Covers(questionIds, checked, Shift(idx0), 1)
  {
    var idx := Shift(idx0);
    forall p | 1 <= p < |questionIds| && checked(questionIds[p]).Some? ensures p in idx {
      assert questionIds[1..][p - 1] == questionIds[p];
      var k :| 0 <= k < |idx0| && idx0[k] == p - 1;
      assert idx[k] == p;
    }
  }

  /** A checked first question puts its answer in front of answers from position 1. */
  lemma ConsAnswers(questionIds: seq<Id>, checked: Id -> Option<string>,
                    rest: seq<Attempts.Answer>, idx: seq<nat>)
    requires |questionIds| > 0 && checked(questionIds[0]).Some?
    requires AnswersAt(questionIds, checked, rest, idx, 1)
    ensures AnswersAt(questionIds, checked,
                      [Attempts.Answer(questionIds[0], checked(questionIds[0]).value)] + rest, [0] + idx, 0)
  {
    var idx' := [0] + idx;
    var r := [Attempts.Answer(questionIds[0], checked(questionIds[0]).value)] + rest;
    forall i | 0 <= i < |idx'|
      ensures && idx'[i] < |questionIds| && checked(questionIds[idx'[i]]).Some?
              && r[i] == Attempts.Answer(questionIds[idx'[i]], checked(questionIds[idx'[i]]).value)
    {
      if i > 0 {
        assert idx'[i] == idx[i - 1] && r[i] == rest[i - 1];
      }
    }
  }

  /** Position 0 in front of positions from 1 on still rises. */
  lemma ConsRising(questionIds: seq<Id>, checked: Id -> Option<string>,
                   rest: seq<Attempts.Answer>, idx: seq<nat>)
    requires AnswersAt(questionIds, checked, rest, idx, 1) && Rising(idx)
    ensures Rising([0] + idx)
  {
    var idx' := [0] + idx;
    forall i, j | 0 <= i < j < |idx'| ensures idx'[i] < idx'[j] {
      assert idx'[j] == idx[j - 1];
      if i > 0 {
        assert idx'[i] == idx[i - 1];
      }
    }
  }

  /** Position 0 in front of a cover from 1 on covers from 0. */
  lemma ConsCovers(questionIds: seq<Id>, checked: Id -> Option<string>, idx: seq<nat>)
    requires Covers(questionIds, checked, idx, 1)
    ensures Covers(questionIds, checked, [0] + idx, 0)
  {
    var idx' := [0] + idx;
    forall p | 0 <= p < |questionIds| && checked(questionIds[p]).Some? ensures p in idx' {
      if p == 0 {
        assert idx'[0] == 0;
      } else {
        var k :| 0 <= k < |idx| && idx[k] == p;
        assert idx'[k + 1] == p;
      }
    }
  }

  /** The collected answers are the checked questions' answers in question
      order, one per checked position and nothing else. */
  lemma {:induction false} CollectedInOrder(questionIds: seq<Id>, checked: Id -> Option<string>)
    ensures exists idx :: InOrderSelection(questionIds, checked, CollectAnswers(questionIds, checked), idx)
    decreases |questionIds|
  {
    if |questionIds| == 0 {
      assert CollectAnswers(questionIds, checked) == [];
      assert InOrderSelection(questionIds, checked, [], []);
    } else {
      var tail := questionIds[1..];
      CollectedInOrder(tail, checked);
      var rest := CollectAnswers(tail, checked);
      var idx0 :| InOrderSelection(tail, checked, rest, idx0);
      var idx := Shift(idx0);
      ShiftAnswers(questionIds, checked, rest, idx0);
      ShiftCovers(questionIds, checked, idx0);
      assert Rising(idx);
      if checked(questionIds[0]).None? {
        assert CollectAnswers(questionIds, checked) == rest;
        assert InOrderSelection(questionIds, checked, rest, idx);
      } else {
        assert CollectAnswers(questionIds, checked)
            == [Attempts.Answer(questionIds[0], checked(questionIds[0]).value)] + rest;
        ConsAnswers(questionIds, checked, rest, idx);
        ConsRising(questionIds, checked, rest, idx);
        ConsCovers(questionIds, checked, idx);
        assert InOrderSelection(questionIds, checked, CollectAnswers(questionIds, checked), [0] + idx);
      }
    }
  }

  /** With every question answered, the answers follow the questions one to one. */
  lemma {:induction false} AllAnsweredInOrder(questionIds: seq<Id>, checked: Id -> Option<string>)
    requires forall i :: 0 <= i < |questionIds| ==> checked(questionIds[i]).Some?
    ensures var r := CollectAnswers(questionIds, checked);
            |r| == |questionIds|
            && forall i :: 0 <= i < |r| ==> r[i] == Attempts.Answer(questionIds[i], checked(questionIds[i]).value)
    decreases |questionIds|
  {
    if |questionIds| > 0 {
      assert forall i :: 0 <= i < |questionIds| - 1 ==> questionIds[1..][i] == questionIds[i + 1];
      AllAnsweredInOrder(questionIds[1..], checked);
    }
  }

  /** A student who answers nothing submits an empty list, which the server
      answers with 500 "Failed to submit quiz" — the attempt keeps score 0. */
  lemma NothingAnsweredFailsSubmit(db: Db, resultId: Id, caller: Http.Claims,
                                   questionIds: seq<Id>, checked: Id -> Option<string>)
    requires db.Valid() && Attempts.Owns(db, resultId, caller)
    requires forall i :: 0 <= i < |questionIds| ==> checked(questionIds[i]).None?
    ensures Attempts.SubmitQuiz(db, resultId, caller, CollectAnswers(questionIds, checked))
         == Step(db, Http.Fail(500, "Failed to submit quiz"))
  {
  }

  // ----------------------------------------------------------------- timer

  /** `String(n).padStart(2, '0')`. */
  function Clock(n: nat): (r: string)
    ensures |r| >= 2 && (n < 100 ==> |r| == 2)
    ensures Text.AllDigits(r) && Text.DigitsValue(r) == n
  {
    PaddedDecimal(n);
    Text.PadStart(Text.ToDecimal(n), 2, '0')
  }

  /** Padding a decimal to two places keeps its digits and its value. */
  lemma PaddedDecimal(n: nat)
    ensures var r := Text.PadStart(Text.ToDecimal(n), 2, '0');
            |r| >= 2 && (n < 100 ==> |r| == 2) && Text.AllDigits(r) && Text.DigitsValue(r) == n
  {
    Text.DecimalRoundTrip(n);
    if n < 10 {
      PaddedDigit(n);
    } else {
      LongDecimal(n);
    }
  }

  /** A single digit is padded with one zero. */
  lemma PaddedDigit(n: nat)
    requires n < 10
    ensures Text.PadStart(Text.ToDecimal(n), 2, '0') == "0" + Text.ToDecimal(n)
  {
    var d := Text.ToDecimal(n);
    assert |d| == 1;
    assert Text.PadStart(d, 2, '0') == seq(1, _ => '0') + d;
    assert seq(1, _ => '0') == "0";
    Text.LeadingZero(d);
  }

  /** Ten and above take at least two digits, exactly two below a hundred. */
  lemma LongDecimal(n: nat)
    requires n >= 10
    ensures |Text.ToDecimal(n)| >= 2 && (n < 100 ==> |Text.ToDecimal(n)| == 2)
  {
    assert Text.ToDecimal(n) == Text.ToDecimal(n / 10) + [Text.DigitChar(n % 10)];
    if n < 100 {
      assert n / 10 < 10;
    }
  }

  /** What one timer tick does: stop and submit, or show `mm:ss`. */
  datatype Tick = Expired | Show(minutes: nat, seconds: nat, text: string)

  /** One tick of startTimer at time `now` (epoch ms): expired when no time
      is left; otherwise the whole minutes left and the whole seconds left
      over, rendered as `mm:ss` with each part padded to two digits. */
  function TimerTick(endTime: int, now: int): (t: Tick)
    ensures t.Expired? <==> endTime - now <= 0
    ensures t.Show? ==>
      && t.seconds < 60
      && t.minutes * 60000 + t.seconds * 1000 <= endTime - now < t.minutes * 60000 + t.seconds * 1000 + 1000
    ensures t.Show? ==> ReadsAs(t.text, t.minutes, t.seconds)
  {
    var diff := endTime - now;
    if diff <= 0 then Expired
    else
      var minutes := diff / 60000;
      var seconds := (diff % 60000) / 1000;
      SplitRemaining(diff);
      Show(minutes, seconds, Render(minutes, seconds))
  }

  /** `text` is `mm:ss` reading back as these minutes and seconds: digits, a
      colon third from the end, and two digits of seconds. */
  predicate ReadsAs(text: string, minutes: nat, seconds: nat) {
    var k := |text| - 3;
    && k >= 2 && text[k] == ':'
    && Text.AllDigits(text[..k]) && Text.DigitsValue(text[..k]) == minutes
    && Text.AllDigits(text[k + 1..]) && Text.DigitsValue(text[k + 1..]) == seconds
  }

  /** The `mm:ss` text of the countdown. */
  function Render(minutes: nat, seconds: nat): (text: string)
    requires seconds < 60
    ensures ReadsAs(text, minutes, seconds)
  {
    RenderReads(Clock(minutes), Clock(seconds), minutes, seconds);
    Clock(minutes) + ":" + Clock(seconds)
  }

  /** Two padded numbers joined by a colon read back as those numbers. */
  lemma RenderReads(a: string, b: string, minutes: nat, seconds: nat)
    requires |a| >= 2 && Text.AllDigits(a) && Text.DigitsValue(a) == minutes
    requires |b| == 2 && Text.AllDigits(b) && Text.DigitsValue(b) == seconds
    ensures ReadsAs(a + ":" + b, minutes, seconds)
  {
    var t := a + ":" + b;
    assert t[..|t| - 3] == a;
    assert t[|t| - 2..] == b;
  }

  /** Whole minutes, then whole seconds of the rest, bracket the remaining time to the second. */
  lemma SplitRemaining(diff: int)
    requires diff > 0
    ensures var m := diff / 60000;
            var sec := (diff % 60000) / 1000;
            m >= 0 && 0 <= sec < 60 && m * 60000 + sec * 1000 <= diff < m * 60000 + sec * 1000 + 1000
  {
    var m := diff / 60000;
    var r := diff % 60000;
    assert diff == m * 60000 + r && 0 <= r < 60000;
    var sec := r / 1000;
    assert r == sec * 1000 + r % 1000 && 0 <= r % 1000 < 1000;
  }

  /** The countdown a started attempt shows at the instant it starts is the
      quiz's duration in whole minutes, and it expires exactly at the deadline. */
  lemma TimerMatchesDeadline(db: Db, quizId: Id, caller: Http.Claims, now: int)
    requires db.Valid()
    requires Attempts.StartAttempt(db, quizId, caller, now).reply.Ok?
    requires Attempts.StartAttempt(db, quizId, caller, now).reply.body.duration >= 1
    ensures var s := Attempts.StartAttempt(db, quizId, caller, now).reply.body;
            && TimerTick(s.endTime, now).Show?
            && TimerTick(s.endTime, now).minutes == s.duration
            && TimerTick(s.endTime, now).seconds == 0
            && TimerTick(s.endTime, now + s.duration * 60000).Expired?
            && TimerTick(s.endTime, now + s.duration * 60000 - 1).Show?
  {
    var s := Attempts.StartAttempt(db, quizId, caller, now).reply.body;
    assert s.endTime == now + s.duration * 60000;
    WholeMinutesLeft(s.endTime, now, s.duration);
  }

  /** With a whole number of minutes left, the countdown shows exactly those minutes and no seconds. */
  lemma WholeMinutesLeft(endTime: int, now: int, minutes: nat)
    requires minutes >= 1 && endTime == now + minutes * 60000
    ensures TimerTick(endTime, now).Show?
    ensures TimerTick(endTime, now).minutes == minutes && TimerTick(endTime, now).seconds == 0
  {
    var t := TimerTick(endTime, now);
    assert (minutes - t.minutes) * 60000 == t.seconds * 1000 + (endTime - now - t.minutes * 60000 - t.seconds * 1000);
  }

  // ---------------------------------------------------------- pass labels

  /** A JSON value as the history list sees it: a number or a text. */
  datatype Json = JNum(n: real) | JText(s: string)

  /** The fields of one history row as the server sends them: the result
      row's columns plus the quiz's title and duration. There is no
      `percentage` field. */
  function HistoryJson(row: Attempts.HistoryRow): (j: map<string, Json>)
    ensures "percentage" !in j
    ensures "score" in j && j["score"] == JNum(row.result.score)
  {
    map["id" := JNum(row.id as real), "quiz_id" := JNum(row.result.quizId as real),
        "user_id" := JNum(row.result.userId as real), "score" := JNum(row.result.score),
        "taken_at" := JNum(row.result.takenAt as real),
        "title" := JText(row.title), "duration" := JNum(row.duration as real)]
  }

  /** `item.f >= bound` in JavaScript: a missing field is undefined and the comparison is false. */
  predicate AtLeast(j: map<string, Json>, f: string, bound: real) {
    f in j && j[f].JNum? && j[f].n >= bound
  }

  /** The history label as written: `item.percentage >= 50`. It can say
      "Passed" only for a row that carries a `percentage` field. */
  function HistoryLabelAsWritten(row: Attempts.HistoryRow): (text: string)
    ensures text == "Passed" || text == "Failed"
    ensures text == "Passed" ==> "percentage" in HistoryJson(row)
  {
    if AtLeast(HistoryJson(row), "percentage", 50.0) then "Passed" else "Failed"
  }

  /** The label as written reads a field the server never sends, so every
      attempt is labelled "Failed" — a perfect score included. */
  lemma HistoryLabelAlwaysFails(row: Attempts.HistoryRow)
    ensures HistoryLabelAsWritten(row) == "Failed"
    ensures row.result.score == 100.0 ==> HistoryLabelAsWritten(row) != "Passed"
  {
  }

  /** The history label corrected: the row's score against the server's pass mark. */
  function HistoryLabel(row: Attempts.HistoryRow): (text: string)
    ensures text == "Passed" || text == "Failed"
    ensures text == "Passed" <==> row.result.score >= Attempts.PASS_MARK
  {
    if AtLeast(HistoryJson(row), "score", Attempts.PASS_MARK) then "Passed" else "Failed"
  }

  /** After a submission, the corrected label of the caller's history row
      for that attempt agrees with the `passed` flag the submission returned. */
  lemma HistoryLabelAgreesWithSubmit(db: Db, resultId: Id, caller: Http.Claims, answers: seq<Attempts.Answer>)
    requires db.Valid() && Attempts.Owns(db, resultId, caller) && |answers| > 0
    requires db.results.rows[resultId].quizId in db.quizzes.rows
    ensures var out := Attempts.SubmitQuiz(db, resultId, caller, answers);
            var row := Attempts.GetResult(out.db, resultId, caller);
            row.Ok? && (HistoryLabel(row.body) == "Passed" <==> out.reply.body.passed)
  {
  }

  /** displayResults: the score shown (`score ?? 0`) and the status, which follows `passed`. */
  function DisplayResult(score: Option<real>, passed: bool): (shown: (real, string))
    ensures score.None? ==> shown.0 == 0.0
    ensures score.Some? ==> shown.0 == score.value
    ensures shown.1 == "Passed" <==> passed
    ensures shown.1 == "Passed" || shown.1 == "Failed"
  {
    (if score.Some? then score.value else 0.0, if passed then "Passed" else "Failed")
  }

  /** The result screen after a successful submission shows "Passed" exactly when the shown score reaches 60. */
  lemma DisplayAgreesWithScore(db: Db, resultId: Id, caller: Http.Claims, answers: seq<Attempts.Answer>)
    requires db.Valid() && Attempts.Owns(db, resultId, caller) && |answers| > 0
    ensures var body := Attempts.SubmitQuiz(db, resultId, caller, answers).reply.body;
            var shown := DisplayResult(Some(body.score), body.passed);
            shown.1 == "Passed" <==> shown.0 >= Attempts.PASS_MARK
  {
  }

  // --------------------------------------------------------------- session

  /** The two `localStorage` entries the client keeps. */
  datatype Storage = Storage(token: Option<string>, role: Option<string>)

  /** The client's session globals and whether the dashboard is shown. */
  datatype Session = Session(token: Option<string>, role: Option<string>, dashboard: bool)

  /** The page state before anything is restored. */
  const SIGNED_OUT: Session := Session(None, None, false)

  /** JavaScript truthiness of a stored string. */
  predicate Stored(v: Option<string>) {
    v.Some? && v.value != ""
  }

  /** loadStoredToken: the dashboard is restored only when both the token
      and the role are stored and non-empty; otherwise nothing changes. */
  function LoadStoredToken(storage: Storage, s: Session): (r: Session)
    ensures r.dashboard && !s.dashboard ==> Stored(storage.token) && Stored(storage.role)
    ensures Stored(storage.token) && Stored(storage.role) ==> r == Session(storage.token, storage.role, true)
    ensures !(Stored(storage.token) && Stored(storage.role)) ==> r == s
  {
    if Stored(storage.token) && Stored(storage.role) then Session(storage.token, storage.role, true) else s
  }

  /** What a successful login or registration leaves behind: the session,
      with the dashboard shown, and both storage entries. */
  function SignIn(token: string, role: string): (r: (Session, Storage))
    ensures r.0.token == r.1.token == Some(token) && r.0.role == r.1.role == Some(role)
    ensures r.0.dashboard
  {
    (Session(Some(token), Some(role), true), Storage(Some(token), Some(role)))
  }

  /** logout: both globals and both storage entries are cleared. */
  function Logout(s: Session, storage: Storage): (r: (Session, Storage))
    ensures r.0.token.None? && r.0.role.None? && !r.0.dashboard
    ensures r.1.token.None? && r.1.role.None?
  {
    (SIGNED_OUT, Storage(None, None))
  }

  /** A reload after sign-in restores the same session; a reload after logout restores nothing. */
  lemma ReloadRestoresOnlySignedIn(token: string, role: string)
    requires token != "" && role != ""
    ensures var (s, st) := SignIn(token, role);
            LoadStoredToken(st, SIGNED_OUT) == s
    ensures var (s, st) := SignIn(token, role);
            var (s', st') := Logout(s, st);
            LoadStoredToken(st', SIGNED_OUT) == SIGNED_OUT
  {
  }
}
