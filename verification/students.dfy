/** The student-management service: the list query built from the `search`
    and `sort` query parameters, and the outcomes of create, update and
    delete. The students table (student-management-system/server.js:49-60)
    declares the email UNIQUE, which the duplicate-entry handling relies on,
    and bounds the text columns by width; MySQL in its default strict mode
    refuses a value wider than its column. The request-body schema is a
    validation library's business; its verdict is passed in as
    `schemaError`. */
module Students {

  import opened Base
  import opened Http
  import opened Store

  /** A parameterised SQL statement: the text and its `?` values in order. */
  datatype Query = Query(sql: string, params: seq<string>)

  /** A student row. */
  datatype Student = Student(firstName: string, lastName: string, email: string, dob: string,
                             phone: Option<string>, address: Option<string>)

  const SELECT_ALL: string := "SELECT * FROM students"
  const WHERE_SEARCH: string := " WHERE first_name LIKE ? OR last_name LIKE ? OR email LIKE ?"
  const DEFAULT_ORDER: string := " ORDER BY created_at DESC"

  /** The columns a list may be sorted by. */
  const ALLOWED_SORTS: seq<string> := ["first_name", "last_name", "created_at"]

  /** The search clause: present exactly when the search is truthy. */
  function WhereClause(search: Option<string>): string {
    if Filled(search) then WHERE_SEARCH else ""
  }

  /** The ordering clause: the default for a falsy sort, the column for a
      whitelisted one, and nothing at all for any other value. */
  function OrderClause(sort: Option<string>): string {
    if !Filled(sort) then DEFAULT_ORDER
    else if sort.value in ALLOWED_SORTS then " ORDER BY " + sort.value
    else ""
  }

  /** The ordering clause is one of five fixed strings. */
  lemma OrderClauseKnown(sort: Option<string>)
    ensures OrderClause(sort) in {"", DEFAULT_ORDER, " ORDER BY first_name", " ORDER BY last_name", " ORDER BY created_at"}
  {
    if Filled(sort) && sort.value in ALLOWED_SORTS {
      if sort.value == "first_name" {
        assert " ORDER BY " + "first_name" == " ORDER BY first_name";
      } else if sort.value == "last_name" {
        assert " ORDER BY " + "last_name" == " ORDER BY last_name";
      } else {
        assert " ORDER BY " + "created_at" == " ORDER BY created_at";
      }
    }
  }

  /** Every statement the list endpoint can send: two search shapes times five orderings. */
  function KnownQueries(): set<string> {
    set w, o | w in {"", WHERE_SEARCH}
                 && o in {"", DEFAULT_ORDER, " ORDER BY first_name", " ORDER BY last_name", " ORDER BY created_at"}
      :: SELECT_ALL + w + o
  }

  /** getAllStudents' query builder. The statement is always one of the ten
      known ones, so no request text is ever interpolated into it; a truthy
      search adds the three-column clause and three `%search%` parameters,
      a falsy one adds neither. */
  function BuildQuery(search: Option<string>, sort: Option<string>): (q: Query)
    ensures q.sql in KnownQueries()
    ensures Filled(search) ==> q.params == ["%" + search.value + "%", "%" + search.value + "%", "%" + search.value + "%"]
    ensures !Filled(search) ==> q.params == []
    ensures |q.params| == if Filled(search) then 3 else 0
    ensures !Filled(sort) ==> q.sql == SELECT_ALL + WhereClause(search) + DEFAULT_ORDER
    ensures Filled(sort) && sort.value !in ALLOWED_SORTS ==> q.sql == SELECT_ALL + WhereClause(search)
  {
    var pattern := "%" + (if Filled(search) then search.value else "") + "%";
    var params := if Filled(search) then [pattern, pattern, pattern] else [];
    var w := WhereClause(search);
    var o := OrderClause(sort);
    OrderClauseKnown(sort);
    assert SELECT_ALL + w + o in KnownQueries() by {
      assert w in {"", WHERE_SEARCH};
    }
    Query(SELECT_ALL + w + o, params)
  }

  /** The statement does not depend on the search text, only on whether there is one. */
  lemma SqlIgnoresSearchText(a: string, b: string, sort: Option<string>)
    requires a != "" && b != ""
    ensures BuildQuery(Some(a), sort).sql == BuildQuery(Some(b), sort).sql
    ensures BuildQuery(None, sort).sql == BuildQuery(Some(""), sort).sql
  {
  }

  /** Any two sort values outside the whitelist build the same query, so
      neither can reach the SQL text — and that query has no ORDER BY, not
      the default one. */
  lemma DisallowedSortsIndistinguishable(search: Option<string>, s: string, t: string)
    requires s != "" && t != "" && s !in ALLOWED_SORTS && t !in ALLOWED_SORTS
    ensures BuildQuery(search, Some(s)) == BuildQuery(search, Some(t))
    ensures BuildQuery(search, Some(s)).sql != BuildQuery(search, None).sql
  {
    var w := WhereClause(search);
    assert |BuildQuery(search, Some(s)).sql| < |SELECT_ALL + w + DEFAULT_ORDER|;
  }

  /** The widths of the VARCHAR columns: first_name and last_name
      VARCHAR(50), email VARCHAR(100), phone VARCHAR(15). */
  const NAME_WIDTH: nat := 50
  const EMAIL_WIDTH: nat := 100
  const PHONE_WIDTH: nat := 15

  /** Every text value fits its column, so the row can be stored as sent. */
  predicate ColumnsFit(s: Student) {
    && |s.firstName| <= NAME_WIDTH && |s.lastName| <= NAME_WIDTH
    && |s.email| <= EMAIL_WIDTH
    && (s.phone.Some? ==> |s.phone.value| <= PHONE_WIDTH)
  }

  /** The first column, in the statement's column order, whose width the
      value exceeds; None when every value fits. */
  function TooLongColumn(s: Student): (c: Option<string>)
    ensures c.None? <==> ColumnsFit(s)
    ensures c.Some? ==> c.value in ["first_name", "last_name", "email", "phone"]
    ensures c == Some("first_name") <==> |s.firstName| > NAME_WIDTH
  {
    if |s.firstName| > NAME_WIDTH then Some("first_name")
    else if |s.lastName| > NAME_WIDTH then Some("last_name")
    else if |s.email| > EMAIL_WIDTH then Some("email")
    else if s.phone.Some? && |s.phone.value| > PHONE_WIDTH then Some("phone")
    else None
  }

  /** The driver's message for a value wider than its column, which the
      handlers pass on as the 500 body. */
  function TooLongMessage(column: string): string {
    "Data too long for column '" + column + "' at row 1"
  }

  /** Every stored row fits the columns. */
  ghost predicate AllFit(t: Table<Student>) {
    forall k :: k in t.rows ==> ColumnsFit(t.rows[k])
  }

  /** Some other row holds this email. */
  predicate EmailTaken(t: Table<Student>, email: string, except: Option<Id>) {
    exists k :: k in t.rows && t.rows[k].email == email && Some(k) != except
  }

  /** No two students share an email: the unique index. */
  ghost predicate UniqueEmails(t: Table<Student>) {
    forall a, b :: a in t.rows && b in t.rows && a != b ==> t.rows[a].email != t.rows[b].email
  }

  /** createStudent: the schema's first error as 400, before any query; a
      value wider than its column as 500 with the driver's message and
      nothing stored (the value is refused before the row is written, so no
      AUTO_INCREMENT value is drawn); a taken email as 400 "Email already
      exists" with nothing stored, though the INSERT the unique index
      refuses has already drawn its AUTO_INCREMENT value, so the counter
      moves on; otherwise one new row under a fresh key, returned with its
      key. */
  function CreateStudent(t: Table<Student>, s: Student, schemaError: Option<string>): (out: (Table<Student>, Reply<Keyed<Student>>))
    requires t.Valid()
    ensures out.0.Valid()
    ensures schemaError.Some? ==> out == (t, Fail(400, schemaError.value))
    ensures schemaError.None? && !ColumnsFit(s) ==>
              out == (t, Fail(500, TooLongMessage(TooLongColumn(s).value)))
    ensures schemaError.None? && ColumnsFit(s) && EmailTaken(t, s.email, None) ==>
              out.1 == Fail(400, "Email already exists") && out.0.rows == t.rows && out.0.next == t.next + 1
    ensures !out.1.Ok? ==> out.0.rows == t.rows
    ensures out.1.Ok? <==> schemaError.None? && ColumnsFit(s) && !EmailTaken(t, s.email, None)
    ensures out.1.Ok? ==>
      && out.1 == Ok(201, Keyed(t.next, s))
      && t.next !in t.rows
      && out.0.rows == t.rows[t.next := s]
    ensures UniqueEmails(t) ==> UniqueEmails(out.0)
    ensures AllFit(t) ==> AllFit(out.0)
  {
    if schemaError.Some? then (t, Fail(400, schemaError.value))
    else if TooLongColumn(s).Some? then (t, Fail(500, TooLongMessage(TooLongColumn(s).value)))
    else if EmailTaken(t, s.email, None) then (t.(next := t.next + 1), Fail(400, "Email already exists"))
    else (Insert(t, s), Ok(201, Keyed(t.next, s)))
  }

  /** updateStudent: the schema's first error as 400; 404 "Student not
      found" for a missing key (no row is touched, so neither a width nor a
      duplicate check arises); 500 with the driver's message for a value
      wider than its column; 400 when another row holds the email;
      otherwise the row is replaced wholesale. */
  function UpdateStudent(t: Table<Student>, id: Id, s: Student, schemaError: Option<string>): (out: (Table<Student>, Reply<Keyed<Student>>))
    requires t.Valid()
    ensures out.0.Valid()
    ensures schemaError.Some? ==> out == (t, Fail(400, schemaError.value))
    ensures schemaError.None? && id !in t.rows ==> out == (t, Fail(404, "Student not found"))
    ensures schemaError.None? && id in t.rows && !ColumnsFit(s) ==>
              out == (t, Fail(500, TooLongMessage(TooLongColumn(s).value)))
    ensures schemaError.None? && id in t.rows && ColumnsFit(s) && EmailTaken(t, s.email, Some(id)) ==>
              out == (t, Fail(400, "Email already exists"))
    ensures out.1.Ok? <==> schemaError.None? && id in t.rows && ColumnsFit(s) && !EmailTaken(t, s.email, Some(id))
    ensures out.1.Ok? ==> out.1 == Ok(200, Keyed(id, s)) && out.0.rows.Keys == t.rows.Keys
                          && out.0.rows[id] == s
                          && forall k :: k in t.rows && k != id ==> out.0.rows[k] == t.rows[k]
    ensures UniqueEmails(t) ==> UniqueEmails(out.0)
    ensures AllFit(t) ==> AllFit(out.0)
  {
    if schemaError.Some? then (t, Fail(400, schemaError.value))
    else if id !in t.rows then (t, Fail(404, "Student not found"))
    else if TooLongColumn(s).Some? then (t, Fail(500, TooLongMessage(TooLongColumn(s).value)))
    else if EmailTaken(t, s.email, Some(id)) then (t, Fail(400, "Email already exists"))
    else (t.(rows := t.rows[id := s]), Ok(200, Keyed(id, s)))
  }

  /** deleteStudent: 404 for a missing key; otherwise exactly that row goes. */
  function DeleteStudent(t: Table<Student>, id: Id): (out: (Table<Student>, Reply<string>))
    requires t.Valid()
    ensures out.0.Valid()
    ensures id !in t.rows <==> out == (t, Fail(404, "Student not found"))
    ensures out.1.Ok? || out.1.Fail?
    ensures out.1.Ok? ==> out.1 == Ok(200, "Student deleted successfully")
                          && out.0.rows.Keys == t.rows.Keys - {id}
                          && forall k :: k in out.0.rows ==> out.0.rows[k] == t.rows[k]
    ensures UniqueEmails(t) ==> UniqueEmails(out.0)
  {
    if id !in t.rows then (t, Fail(404, "Student not found"))
    else (t.(rows := t.rows - {id}), Ok(200, "Student deleted successfully"))
  }

  /** Re-saving a student's own email is not a duplicate: an update that
      changes only other fields succeeds. */
  lemma UpdateKeepingEmail(t: Table<Student>, id: Id, s: Student)
    requires t.Valid() && UniqueEmails(t) && id in t.rows && s.email == t.rows[id].email
    ensures ColumnsFit(s) ==> UpdateStudent(t, id, s, None).1 == Ok(200, Keyed(id, s))
    ensures !ColumnsFit(s) ==> UpdateStudent(t, id, s, None).1.Code() == 500
  {
  }

  /** A first name one character wider than its column passes a schema
      with no maximum length but is refused by the table: 500, nothing
      stored, and no key used up. */
  lemma LongFirstNameRefused(t: Table<Student>, s: Student)
    requires t.Valid() && |s.firstName| == NAME_WIDTH + 1
    ensures CreateStudent(t, s, None) == (t, Fail(500, "Data too long for column 'first_name' at row 1"))
  {
    assert TooLongMessage("first_name") == "Data too long for column 'first_name' at row 1";
  }

  /** Creating twice with the same email stores one row and refuses the
      second, which still uses up a key: the next student created gets the
      key after it, leaving a gap. */
  lemma CreateTwiceRefused(t: Table<Student>, s: Student, s': Student)
    requires t.Valid() && s'.email == s.email
    requires CreateStudent(t, s, None).1.Ok?
    ensures var once := CreateStudent(t, s, None).0;
            var twice := CreateStudent(once, s', None);
            && twice.0.rows == once.rows
            && (ColumnsFit(s') ==> twice.1 == Fail(400, "Email already exists") && twice.0.next == t.next + 2)
  {
    var once := CreateStudent(t, s, None).0;
    assert once.rows[t.next].email == s'.email;
  }
}
