/** The quiz database as immutable values: four tables (users, quizzes,
    questions, results), each a map from AUTO_INCREMENT key to row, plus the
    queries the handlers share — rows in key order, first matching key, and
    a sort on a timestamp column. */
module Store {

  import opened Base
  import opened Http

  /** A table: rows by primary key, and the next AUTO_INCREMENT value. */
  datatype Table<T> = Table(rows: map<Id, T>, next: Id)
  {
    /** Every key in use was handed out by the counter. */
    ghost predicate Valid() {
      forall k :: k in rows ==> k < next
    }
  }

  /** A row together with its primary key, as a SELECT returns it. */
  datatype Keyed<T> = Keyed(id: Id, row: T)

  /** `users(id, username, email, password, role, created_at)`; the password
      column holds the opaque hash. */
  datatype User = User(username: string, email: string, password: string, role: string, createdAt: int)

  /** `quizzes(id, title, duration, created_at)`; duration in minutes. */
  datatype Quiz = Quiz(title: string, duration: int, createdAt: int)

  /** The range of a signed 32-bit INT column, the type the duration column
      is taken to have; under MySQL's default strict mode an INSERT or
      UPDATE with a value outside it fails instead of clamping. */
  const INT_MIN: int := -0x8000_0000
  const INT_MAX: int := 0x7FFF_FFFF

  predicate FitsInt(n: int) {
    INT_MIN <= n <= INT_MAX
  }

  /** `questions(id, quiz_id, question, option_a..option_d, correct_option)`. */
  datatype Question = Question(
    quizId: Id, text: string,
    optionA: string, optionB: string, optionC: string, optionD: string,
    correctOption: string)

  /** `results(id, quiz_id, user_id, score, taken_at)`; score is a percentage. */
  datatype Result = Result(quizId: Id, userId: Id, score: real, takenAt: int)

  datatype Db = Db(users: Table<User>, quizzes: Table<Quiz>, questions: Table<Question>, results: Table<Result>)
  {
    ghost predicate Valid() {
      users.Valid() && quizzes.Valid() && questions.Valid() && results.Valid()
    }
  }

  /** A handler's effect: the database after the request, and the reply sent. */
  datatype Step<+T> = Step(db: Db, reply: Reply<T>)

  /** The empty database a fresh deployment starts from. */
  function Empty(): (db: Db)
    ensures db.Valid() && Consistent(db)
  {
    Db(Table(map[], 1), Table(map[], 1), Table(map[], 1), Table(map[], 1))
  }

  /** Every question belongs to a quiz that exists. */
  ghost predicate QuestionsHaveQuiz(db: Db) {
    forall k :: k in db.questions.rows ==> db.questions.rows[k].quizId in db.quizzes.rows
  }

  /** At most one result row per (quiz, user) pair. */
  ghost predicate OneAttemptEach(db: Db) {
    forall a, b ::
      (a in db.results.rows && b in db.results.rows
       && db.results.rows[a].quizId == db.results.rows[b].quizId
       && db.results.rows[a].userId == db.results.rows[b].userId) ==> a == b
  }

  /** The invariants the handlers keep. */
  ghost predicate Consistent(db: Db) {
    db.Valid() && QuestionsHaveQuiz(db) && OneAttemptEach(db)
  }

  /** INSERT: the row is stored under the next key, which was unused, and
      every other row keeps its key and contents. */
  function Insert<T>(t: Table<T>, row: T): (r: Table<T>)
    requires t.Valid()
    ensures r.Valid()
    ensures t.next !in t.rows && r.rows.Keys == t.rows.Keys + {t.next}
    ensures r.rows[t.next] == row
    ensures forall k :: k in t.rows ==> r.rows[k] == t.rows[k]
  {
    Table(t.rows[t.next := row], t.next + 1)
  }

  /** The keys in [lo, hi) whose rows satisfy `p`, in ascending order. */
  function KeysFrom<T>(rows: map<Id, T>, p: T -> bool, lo: nat, hi: nat): (r: seq<Id>)
    ensures forall i :: 0 <= i < |r| ==> lo <= r[i] < hi && r[i] in rows && p(rows[r[i]])
    ensures forall k :: lo <= k < hi && k in rows && p(rows[k]) ==> k in r
    ensures forall i, j :: 0 <= i < j < |r| ==> r[i] < r[j]
    decreases hi - lo
  {
    if lo >= hi then []
    else
      var rest := KeysFrom(rows, p, lo + 1, hi);
      if lo in rows && p(rows[lo]) then [lo] + rest else rest
  }

  /** `SELECT ... WHERE p ORDER BY id`: exactly the rows satisfying `p`, each
      once, in ascending key order. */
  function Select<T>(t: Table<T>, p: T -> bool): (r: seq<Keyed<T>>)
    requires t.Valid()
    ensures forall x :: x in r ==> x.id in t.rows && t.rows[x.id] == x.row && p(x.row)
    ensures forall k :: k in t.rows && p(t.rows[k]) ==> Keyed(k, t.rows[k]) in r
    ensures forall i, j :: 0 <= i < j < |r| ==> r[i].id < r[j].id
    ensures r == [] <==> forall k :: k in t.rows ==> !p(t.rows[k])
  {
    var ks := KeysFrom(t.rows, p, 0, t.next);
    var r := seq(|ks|, i requires 0 <= i < |ks| => Keyed(ks[i], t.rows[ks[i]]));
    SelectedKeys(t, p, ks, r);
    r
  }

  /** Pairing each selected key with its row gives exactly the matching rows. */
  lemma SelectedKeys<T>(t: Table<T>, p: T -> bool, ks: seq<Id>, r: seq<Keyed<T>>)
    requires t.Valid()
    requires forall i :: 0 <= i < |ks| ==> ks[i] in t.rows && p(t.rows[ks[i]])
    requires forall k :: 0 <= k < t.next && k in t.rows && p(t.rows[k]) ==> k in ks
    requires forall i, j :: 0 <= i < j < |ks| ==> ks[i] < ks[j]
    requires |r| == |ks| && forall i :: 0 <= i < |ks| ==> r[i] == Keyed(ks[i], t.rows[ks[i]])
    ensures forall x :: x in r ==> x.id in t.rows && t.rows[x.id] == x.row && p(x.row)
    ensures forall k :: k in t.rows && p(t.rows[k]) ==> Keyed(k, t.rows[k]) in r
    ensures forall i, j :: 0 <= i < j < |r| ==> r[i].id < r[j].id
    ensures r == [] <==> forall k :: k in t.rows ==> !p(t.rows[k])
  {
    forall k | k in t.rows && p(t.rows[k]) ensures Keyed(k, t.rows[k]) in r {
      var i :| 0 <= i < |ks| && ks[i] == k;
      assert r[i] == Keyed(k, t.rows[k]);
    }
    if r != [] {
      assert r[0] in r;
    }
  }

  /** The lowest key whose row satisfies `p`, or None when no row does. A
      `SELECT ... WHERE p` without ORDER BY promises no order; the model
      takes its first row to be this one, the order a scan of the primary
      key gives. */
  function FirstKey<T>(t: Table<T>, p: T -> bool): (r: Option<Id>)
    requires t.Valid()
    ensures r.None? <==> forall k :: k in t.rows ==> !p(t.rows[k])
    ensures r.Some? ==> (r.value in t.rows && p(t.rows[r.value])
                         && forall k :: k in t.rows && p(t.rows[k]) ==> r.value <= k)
  {
    var ks := KeysFrom(t.rows, p, 0, t.next);
    if |ks| == 0 then None
    else
      assert forall k :: k in t.rows && p(t.rows[k]) ==> ks[0] <= k by {
        forall k | k in t.rows && p(t.rows[k]) ensures ks[0] <= k {
          var i :| 0 <= i < |ks| && ks[i] == k;
        }
      }
      Some(ks[0])
  }

  /** Non-increasing in `key`: the order of `ORDER BY <key> DESC`. */
  predicate SortedDesc<T>(s: seq<T>, key: T -> int) {
    forall i, j :: 0 <= i < j < |s| ==> key(s[i]) >= key(s[j])
  }

  /** Inserts `x` into a non-increasing sequence, before the first element whose key it reaches. */
  function InsertDesc<T>(x: T, s: seq<T>, key: T -> int): (r: seq<T>)
    requires SortedDesc(s, key)
    ensures SortedDesc(r, key)
    ensures multiset(r) == multiset(s) + multiset{x}
    ensures r[0] == x || (|s| > 0 && r[0] == s[0])
  {
    if |s| == 0 || key(x) >= key(s[0]) then [x] + s
    else
      var rest := InsertDesc(x, s[1..], key);
      assert s == [s[0]] + s[1..];
      [s[0]] + rest
  }

  /** Insertion sort on `key`, largest first: a permutation of `s` in ORDER BY DESC order. */
  function SortDesc<T>(s: seq<T>, key: T -> int): (r: seq<T>)
    ensures SortedDesc(r, key)
    ensures multiset(r) == multiset(s)
  {
    if |s| == 0 then []
    else
      assert s == [s[0]] + s[1..];
      InsertDesc(s[0], SortDesc(s[1..], key), key)
  }

  /** No element occurs twice. */
  ghost predicate Distinct<T>(s: seq<T>) {
    forall i, j :: 0 <= i < j < |s| ==> s[i] != s[j]
  }

  /** In a sequence without repeats every value occurs at most once. */
  lemma {:induction false} DistinctOccursOnce<T>(s: seq<T>, x: T)
    requires Distinct(s)
    ensures multiset(s)[x] <= 1
  {
    if |s| > 0 {
      assert s == [s[0]] + s[1..];
      assert Distinct(s[1..]) by {
        forall i, j | 0 <= i < j < |s[1..]| ensures s[1..][i] != s[1..][j] {
          assert s[1..][i] == s[i + 1] && s[1..][j] == s[j + 1];
        }
      }
      DistinctOccursOnce(s[1..], x);
      if s[0] == x {
        assert x !in s[1..] by {
          forall i | 0 <= i < |s[1..]| ensures s[1..][i] != x { assert s[1..][i] == s[i + 1]; }
        }
      }
    }
  }

  /** A value found at two positions occurs at least twice. */
  lemma RepeatOccursTwice<T>(s: seq<T>, i: nat, j: nat)
    requires i < j < |s| && s[i] == s[j]
    ensures multiset(s)[s[i]] >= 2
  {
    assert s == s[..j] + [s[j]] + s[j + 1..];
    assert s[..j][i] == s[i];
    assert s[i] in multiset(s[..j]);
  }

  /** A rearrangement of a sequence without repeats has no repeats. */
  lemma PermutationKeepsDistinct<T>(s: seq<T>, r: seq<T>)
    requires Distinct(s) && multiset(r) == multiset(s)
    ensures Distinct(r)
  {
    forall i, j | 0 <= i < j < |r| ensures r[i] != r[j] {
      DistinctOccursOnce(s, r[i]);
      if r[i] == r[j] {
        RepeatOccursTwice(r, i, j);
      }
    }
  }

  /** `qs` is the question list of quiz `quizId`: every question of that quiz
      exactly once, nothing else, in ascending key order. */
  ghost predicate ListsQuestionsOf(db: Db, quizId: Id, qs: seq<Keyed<Question>>) {
    && (forall x :: x in qs ==> x.id in db.questions.rows && db.questions.rows[x.id] == x.row && x.row.quizId == quizId)
    && (forall k :: k in db.questions.rows && db.questions.rows[k].quizId == quizId ==> Keyed(k, db.questions.rows[k]) in qs)
    && (forall i, j :: 0 <= i < j < |qs| ==> qs[i].id < qs[j].id)
  }

  /** `SELECT ... FROM questions WHERE quiz_id = ? ORDER BY id`. */
  function QuestionsOf(db: Db, quizId: Id): (qs: seq<Keyed<Question>>)
    requires db.Valid()
    ensures ListsQuestionsOf(db, quizId, qs)
    ensures qs == [] <==> forall k :: k in db.questions.rows ==> db.questions.rows[k].quizId != quizId
  {
    Select(db.questions, (q: Question) => q.quizId == quizId)
  }

  /** Rearranging a sequence keeps its elements. */
  lemma PermutationSameElements<T>(s: seq<T>, r: seq<T>)
    requires multiset(r) == multiset(s)
    ensures forall x :: x in r <==> x in s
  {
    forall x ensures x in r <==> x in s {
      assert x in r <==> x in multiset(r);
      assert x in s <==> x in multiset(s);
    }
  }

  /** `SELECT ... WHERE p ORDER BY <key> DESC`: exactly the rows satisfying
      `p`, each once, largest key first. */
  function SelectDesc<T>(t: Table<T>, p: T -> bool, key: Keyed<T> -> int): (r: seq<Keyed<T>>)
    requires t.Valid()
    ensures SortedDesc(r, key)
    ensures forall x :: x in r ==> x.id in t.rows && t.rows[x.id] == x.row && p(x.row)
    ensures forall k :: k in t.rows && p(t.rows[k]) ==> Keyed(k, t.rows[k]) in r
    ensures forall i, j :: 0 <= i < j < |r| ==> r[i].id != r[j].id
  {
    var all := Select(t, p);
    var r := SortDesc(all, key);
    SortedSelection(t, p, all, r);
    r
  }

  /** A rearrangement of a key-ordered selection keeps its rows and its distinct keys. */
  lemma SortedSelection<T>(t: Table<T>, p: T -> bool, all: seq<Keyed<T>>, r: seq<Keyed<T>>)
    requires forall x :: x in all ==> x.id in t.rows && t.rows[x.id] == x.row && p(x.row)
    requires forall k :: k in t.rows && p(t.rows[k]) ==> Keyed(k, t.rows[k]) in all
    requires forall i, j :: 0 <= i < j < |all| ==> all[i].id < all[j].id
    requires multiset(r) == multiset(all)
    ensures forall x :: x in r ==> x.id in t.rows && t.rows[x.id] == x.row && p(x.row)
    ensures forall k :: k in t.rows && p(t.rows[k]) ==> Keyed(k, t.rows[k]) in r
    ensures forall i, j :: 0 <= i < j < |r| ==> r[i].id != r[j].id
  {
    SelectedDistinct(t, p, all);
    PermutationKeepsDistinct(all, r);
    PermutationSameElements(all, r);
    DistinctRowsDistinctIds(t, r);
  }

  lemma SelectedDistinct<T>(t: Table<T>, p: T -> bool, all: seq<Keyed<T>>)
    requires forall i, j :: 0 <= i < j < |all| ==> all[i].id < all[j].id
    ensures Distinct(all)
  {
    forall i, j | 0 <= i < j < |all| ensures all[i] != all[j] {
      assert all[i].id < all[j].id;
    }
  }

  /** Rows read from one table that are pairwise different have different keys. */
  lemma DistinctRowsDistinctIds<T>(t: Table<T>, r: seq<Keyed<T>>)
    requires Distinct(r)
    requires forall x :: x in r ==> x.id in t.rows && t.rows[x.id] == x.row
    ensures forall i, j :: 0 <= i < j < |r| ==> r[i].id != r[j].id
  {
    forall i, j | 0 <= i < j < |r| ensures r[i].id != r[j].id {
      assert r[i] in r && r[j] in r;
    }
  }
}
