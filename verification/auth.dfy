/** The `AuthenticateToken` middleware: read the second space-separated
    field of the `Authorization` header and resolve it to the first user
    holding that token. */
module Auth {
  import opened Wrappers
  import opened Text
  import opened Store
  import opened Api

  const TokenRequired := Response(401, Error("Token required"))
  const InvalidToken := Response(401, Error("Invalid token"))

  /** `header?.split(' ')[1]` taken as a token only when truthy: a missing
      header, a header without a space and an empty second field all give
      nothing. The first field (normally `Bearer`) is never inspected. */
  function BearerToken(header: Option<string>): (r: Option<string>)
    ensures r.Some? ==> r.value != [] && ' ' !in r.value
  {
    match header
    case None => None
    case Some(h) =>
      var fields := Split(h, ' ');
      if |fields| >= 2 && fields[1] != [] then Some(fields[1]) else None
  }

  /** Whatever the first field and whatever follows, the token read from
      `scheme + " " + token + rest` is `token`. */
  lemma BearerTokenOfHeader(scheme: string, token: string, rest: seq<string>)
    requires ' ' !in scheme && ' ' !in token && token != []
    requires forall i :: 0 <= i < |rest| ==> ' ' !in rest[i]
    ensures BearerToken(Some(Join([scheme, token] + rest, ' '))) == Some(token)
  {
    var fields := [scheme, token] + rest;
    forall i | 0 <= i < |fields|
      ensures ' ' !in fields[i]
    {
      if i >= 2 { assert fields[i] == rest[i - 2]; }
    }
    SplitJoin(fields, ' ');
  }

  /** The usual header `Bearer <token>`. */
  lemma BearerTokenOfBearer(token: string)
    requires ' ' !in token && token != []
    ensures BearerToken(Some("Bearer " + token)) == Some(token)
  {
    BearerTokenOfHeader("Bearer", token, []);
    assert Join(["Bearer", token], ' ') == "Bearer " + token;
  }

  /** A header with no space carries no token. */
  lemma BearerTokenNeedsSpace(h: string)
    requires ' ' !in h
    ensures BearerToken(Some(h)) == None
  {
    SplitOfField(h, ' ');
  }

  datatype AuthResult = Authenticated(user: User) | Rejected(response: Response)

  /** User `k` is the first row of `users` with token `t`. */
  predicate IsFirstWithToken(users: seq<User>, k: nat, t: string) {
    k < |users| && users[k].token == t && forall j :: 0 <= j < k ==> users[j].token != t
  }

  /** The middleware: 401 "Token required" without a token, 401 "Invalid
      token" when no user holds it, otherwise the first user holding it. */
  function AuthenticateToken(db: Db, header: Option<string>): (r: AuthResult)
    ensures BearerToken(header).None? <==> r == Rejected(TokenRequired)
    ensures r == Rejected(InvalidToken) <==>
      BearerToken(header).Some? && forall u :: u in db.users ==> u.token != BearerToken(header).value
    ensures r.Rejected? ==> r == Rejected(TokenRequired) || r == Rejected(InvalidToken)
    ensures r.Authenticated? ==>
      BearerToken(header).Some? &&
      exists k: nat :: IsFirstWithToken(db.users, k, BearerToken(header).value) && db.users[k] == r.user
  {
    match BearerToken(header)
    case None => Rejected(TokenRequired)
    case Some(t) =>
      match FindByToken(db.users, t)
      case None => Rejected(InvalidToken)
      case Some(k) => Authenticated(db.users[k])
  }
}
