/** The authentication middleware: bearer-token extraction and
    verification, and the two role gates. Token verification (signature
    and expiry) is a foreign library call and is passed in as `verify`. */
module Gate {

  import opened Base
  import opened Http
  import Text

  /** A middleware's decision: call `next` with the request's user, or answer now. */
  datatype Gate = Next(user: Claims) | Deny(status: nat, error: string)

  /** `req.headers.authorization?.split(' ')[1]`, kept only when truthy: the
      second space-separated word of the header, whatever the first word is. */
  function BearerToken(header: Option<string>): (r: Option<string>)
    ensures r.Some? ==> header.Some? && r.value != "" && ' ' !in r.value
    ensures r.Some? ==> |Text.Split(header.value, ' ')| >= 2 && r.value == Text.Split(header.value, ' ')[1]
    ensures header.Some? && |Text.Split(header.value, ' ')| >= 2 && Text.Split(header.value, ' ')[1] != "" ==> r.Some?
  {
    if header.None? then None
    else
      var words := Text.Split(header.value, ' ');
      if |words| < 2 || words[1] == "" then None else Some(words[1])
  }

  /** `<scheme> <token>` yields the token for every scheme word: the scheme is never checked. */
  lemma BearerTokenAnyScheme(scheme: string, token: string)
    requires ' ' !in scheme && ' ' !in token && token != ""
    ensures BearerToken(Some(scheme + " " + token)) == Some(token)
  {
    Text.SplitJoin([scheme, token], ' ');
    assert Text.Join([scheme, token], ' ') == scheme + " " + token by {
      assert [scheme, token][1..] == [token];
    }
  }

  /** A header without a space (a bare token, say) carries no token. */
  lemma BearerTokenNeedsSpace(header: string)
    requires ' ' !in header
    ensures BearerToken(Some(header)) == None
  {
    Text.SplitNoSep(header, ' ');
  }

  /** Two spaces after the scheme leave the second word empty, so no token is found. */
  lemma BearerTokenDoubleSpace(scheme: string, token: string)
    requires ' ' !in scheme && ' ' !in token
    ensures BearerToken(Some(scheme + "  " + token)) == None
  {
    Text.SplitJoin([scheme, "", token], ' ');
    assert Text.Join([scheme, "", token], ' ') == scheme + "  " + token by {
      assert [scheme, "", token][1..] == ["", token];
      assert ["", token][1..] == [token];
      assert Text.Join(["", token], ' ') == "" + [' '] + token;
    }
  }

  /** verifyJWT: 401 "No token provided" without a token, 401 "Invalid or
      expired token" when verification fails, otherwise `next` with the
      decoded payload as the request's user. */
  function VerifyJwt(header: Option<string>, verify: string -> Option<Claims>): (g: Gate)
    ensures g.Deny? ==> g.status == 401
    ensures BearerToken(header).None? ==> g == Deny(401, "No token provided")
    ensures g.Next? <==> BearerToken(header).Some? && verify(BearerToken(header).value).Some?
    ensures g.Next? ==> g.user == verify(BearerToken(header).value).value
    ensures BearerToken(header).Some? && verify(BearerToken(header).value).None? ==>
              g == Deny(401, "Invalid or expired token")
  {
    match BearerToken(header)
    case None => Deny(401, "No token provided")
    case Some(token) =>
      match verify(token)
      case None => Deny(401, "Invalid or expired token")
      case Some(decoded) => Next(decoded)
  }

  /** requireAdmin: 403 exactly when the role is not "admin"; otherwise the user passes unchanged. */
  function RequireAdmin(user: Claims): (g: Gate)
    ensures g.Deny? <==> user.role != ADMIN
    ensures g.Deny? ==> g == Deny(403, "Admin access required")
    ensures g.Next? ==> g.user == user
  {
    if user.role != ADMIN then Deny(403, "Admin access required") else Next(user)
  }

  /** requireStudent: 403 exactly when the role is not "student". */
  function RequireStudent(user: Claims): (g: Gate)
    ensures g.Deny? <==> user.role != STUDENT
    ensures g.Deny? ==> g == Deny(403, "Student access required")
    ensures g.Next? ==> g.user == user
  {
    if user.role != STUDENT then Deny(403, "Student access required") else Next(user)
  }
}
