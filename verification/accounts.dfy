/** The account handlers: register, login and profile. Password hashing and
    comparison (bcrypt) are foreign calls, passed in as `hash` and `compare`;
    an issued token is represented by the claims it signs. */
module Accounts {

  import opened Base
  import opened Http
  import opened Store
  import Validation

  /** The body of a successful register or login: `{ userId, token, role }`. */
  datatype Session = Session(userId: Id, token: Claims, role: string)

  /** The profile row: every user column except the password. */
  datatype Profile = Profile(id: Id, username: string, email: string, role: string, createdAt: int)

  /** Some user already has this username, or this email. */
  predicate Taken(db: Db, username: string, email: string) {
    exists k :: k in db.users.rows && (db.users.rows[k].username == username || db.users.rows[k].email == email)
  }

  /** Usernames are pairwise distinct, and so are emails. */
  ghost predicate UniqueLogins(db: Db) {
    forall a, b :: a in db.users.rows && b in db.users.rows && a != b ==>
      db.users.rows[a].username != db.users.rows[b].username && db.users.rows[a].email != db.users.rows[b].email
  }

  /** The role a registration stores: the one sent, or "student" when omitted. */
  function RoleOf(reg: Validation.Registration): (role: string)
    ensures reg.role.None? ==> role == STUDENT
    ensures reg.role.Some? ==> role == reg.role.value
  {
    if reg.role.Some? then reg.role.value else STUDENT
  }

  /** register: 400 and no insert when the username or the email is in use;
      otherwise one new user row under a fresh key, holding the hashed
      password and the stored role, which the reply and the token repeat. */
  function Register(db: Db, reg: Validation.Registration, now: int, hash: string -> string): (out: Step<Session>)
    requires db.Valid()
    ensures out.db.Valid()
    ensures Taken(db, reg.username, reg.email) ==> out == Step(db, Fail(400, "Username or email already exists"))
    ensures !Taken(db, reg.username, reg.email) ==>
      var id := db.users.next;
      && id !in db.users.rows
      && out.reply == Ok(201, Session(id, Claims(id, RoleOf(reg)), RoleOf(reg)))
      && out.db.users.rows.Keys == db.users.rows.Keys + {id}
      && out.db.users.rows[id] == User(reg.username, reg.email, hash(reg.password), RoleOf(reg), now)
      && (forall k :: k in db.users.rows ==> out.db.users.rows[k] == db.users.rows[k])
      && out.db.quizzes == db.quizzes && out.db.questions == db.questions && out.db.results == db.results
    ensures UniqueLogins(db) ==> UniqueLogins(out.db)
  {
    if Taken(db, reg.username, reg.email) then Step(db, Fail(400, "Username or email already exists"))
    else
      var role := RoleOf(reg);
      var id := db.users.next;
      var users := Insert(db.users, User(reg.username, reg.email, hash(reg.password), role, now));
      Step(db.(users := users), Ok(201, Session(id, Claims(id, role), role)))
  }

  /** The row `WHERE username = ? OR email = ?` matches, with `?` the one identifier. */
  predicate Identifies(u: User, identifier: string) {
    u.username == identifier || u.email == identifier
  }

  /** login: the first user whose username or email equals the identifier
      is checked against the password. The query has no ORDER BY; the model
      takes its first row to be the one with the lowest key. An unknown
      identifier and a wrong password give the same 401 "Invalid
      credentials"; success issues a token for that user's key and stored
      role. */
  function Login(db: Db, creds: Validation.Credentials, compare: (string, string) -> bool): (r: Reply<Session>)
    requires db.Valid()
    ensures r.Fail? ==> r == Fail(401, "Invalid credentials")
    ensures r.Ok? || r.Fail?
    ensures (forall k :: k in db.users.rows ==> !Identifies(db.users.rows[k], creds.username)) ==> r.Fail?
    ensures r.Ok? <==> exists k :: k in db.users.rows && Identifies(db.users.rows[k], creds.username)
                        && (forall j :: j in db.users.rows && Identifies(db.users.rows[j], creds.username) ==> k <= j)
                        && compare(creds.password, db.users.rows[k].password)
    ensures r.Ok? ==> r.status == 200 && r.body.userId in db.users.rows
                      && Identifies(db.users.rows[r.body.userId], creds.username)
                      && (forall j :: j in db.users.rows && Identifies(db.users.rows[j], creds.username) ==> r.body.userId <= j)
                      && r.body.token == Claims(r.body.userId, db.users.rows[r.body.userId].role)
                      && r.body.role == db.users.rows[r.body.userId].role
  {
    match FirstKey(db.users, u => Identifies(u, creds.username))
    case None => Fail(401, "Invalid credentials")
    case Some(id) =>
      var user := db.users.rows[id];
      if !compare(creds.password, user.password) then Fail(401, "Invalid credentials")
      else Ok(200, Session(id, Claims(id, user.role), user.role))
  }

  /** getProfile: 404 for a key with no user; otherwise that user's columns, without the password. */
  function GetProfile(db: Db, caller: Claims): (r: Reply<Profile>)
    ensures caller.userId !in db.users.rows <==> r == Fail(404, "User not found")
    ensures r.Ok? || r.Fail?
    ensures r.Ok? ==> r.status == 200 && r.body.id == caller.userId
    ensures r.Ok? ==> var u := db.users.rows[caller.userId];
                      r.body.username == u.username && r.body.email == u.email
                      && r.body.role == u.role && r.body.createdAt == u.createdAt
  {
    if caller.userId !in db.users.rows then Fail(404, "User not found")
    else
      var u := db.users.rows[caller.userId];
      Ok(200, Profile(caller.userId, u.username, u.email, u.role, u.createdAt))
  }

  /** The token a registration issues opens the new user's profile, which
      shows what was registered: the username, the email, the stored role
      and the registration time. */
  lemma RegisterThenProfile(db: Db, reg: Validation.Registration, now: int, hash: string -> string)
    requires db.Valid()
    requires !Taken(db, reg.username, reg.email)
    ensures var out := Register(db, reg, now, hash);
            && out.reply.Ok?
            && GetProfile(out.db, out.reply.body.token)
                 == Ok(200, Profile(db.users.next, reg.username, reg.email, RoleOf(reg), now))
  {
    var out := Register(db, reg, now, hash);
    assert out.reply.body.token.userId == db.users.next;
  }

  /** A user who just registered can log in with their username and password,
      and gets their own key and role back — provided no earlier user has
      that username as their email, which the uniqueness check does not rule out. */
  lemma RegisterThenLogin(db: Db, reg: Validation.Registration, now: int, hash: string -> string,
                          compare: (string, string) -> bool)
    requires db.Valid()
    requires !Taken(db, reg.username, reg.email)
    requires forall k :: k in db.users.rows ==> db.users.rows[k].email != reg.username
    requires compare(reg.password, hash(reg.password))
    ensures var out := Register(db, reg, now, hash);
            var id := db.users.next;
            Login(out.db, Validation.Credentials(reg.username, reg.password), compare)
              == Ok(200, Session(id, Claims(id, RoleOf(reg)), RoleOf(reg)))
  {
    var out := Register(db, reg, now, hash);
    var id := db.users.next;
    var p := (u: User) => Identifies(u, reg.username);
    assert forall k :: k in out.db.users.rows && p(out.db.users.rows[k]) ==> k == id;
    assert FirstKey(out.db.users, p) == Some(id);
  }

  /** The shadowing the login lemma above excludes: when an earlier user's
      email equals a new user's username, logging in with that username
      reaches the earlier user, whatever the new user's password — under the
      lowest-key-first reading of the unordered lookup; with any other row
      order the earlier user may still be reached instead of the new one. */
  lemma LoginShadowedByEmail(db: Db, reg: Validation.Registration, now: int, hash: string -> string,
                             compare: (string, string) -> bool, earlier: Id)
    requires db.Valid()
    requires !Taken(db, reg.username, reg.email)
    requires earlier in db.users.rows && db.users.rows[earlier].email == reg.username
    requires forall k :: k in db.users.rows && Identifies(db.users.rows[k], reg.username) ==> earlier <= k
    ensures var r := Login(Register(db, reg, now, hash).db, Validation.Credentials(reg.username, reg.password), compare);
            r.Ok? ==> r.body.userId == earlier
  {
    var out := Register(db, reg, now, hash);
    assert db.users.next !in db.users.rows;
    assert earlier < db.users.next;
  }
}
