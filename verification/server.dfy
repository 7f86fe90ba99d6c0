/** The route handlers of the server as pure transitions of the abstract
    store: each takes the store (and, behind `AuthenticateToken`, the
    authenticated user) and returns the new store with the response. */
module Server {
  import opened Wrappers
  import opened Text
  import opened Validation
  import opened Store
  import opened Api
  import opened Auth
  import opened Listing

  datatype Outcome = Outcome(db: Db, response: Response)

  const FieldsRequired := Response(400, Error("Email and Password required"))
  const InvalidEmailFormat := Response(400, Error("Invalid email format"))
  const WeakPassword := Response(400, Error(
    "Password must be at least 8 characters long and include uppercase, lowercase letters and numbers."))
  const EmailTaken := Response(409, Error("Email already registered"))
  const InvalidCredentials := Response(401, Error("Invalid credentials"))
  const EmptyContent := Response(400, Error("Post content cannot be empty"))
  const PostAuthorMissing := Response(400, Error("User not found"))
  const PostNotFound := Response(404, Error("Post not found"))
  const PostNotFoundOrUnauthorized := Response(404, Error("Post not found or unauthorized"))
  const AccountNotFound := Response(404, Error("User not found"))

  /** `Email.trim().toLowerCase()`. */
  function NormalizeEmail(email: string): string {
    Lower(Trim(email))
  }

  /** `Role?.trim().toLowerCase() || 'User'`: a supplied role is trimmed and
      lowered, and an absent or blank one becomes `User`. The result is
      never `Admin`. */
  function SignupRole(role: Option<string>): (r: string)
    ensures r != "Admin"
    ensures r == "User" || (r != [] && NoAsciiUpper(r))
    ensures Truthy(role) && !AllWhitespace(role.value) ==> r == Lower(Trim(role.value))
    ensures !(Truthy(role) && !AllWhitespace(role.value)) ==> r == "User"
  {
    var lowered := if role.Some? then Lower(Trim(role.value)) else [];
    if lowered == [] then "User"
    else
      assert IsAsciiUpper("Admin"[0]);
      lowered
  }

  /** `Username || null`. */
  function StoredUsername(username: Option<string>): (r: Option<string>)
    ensures r.Some? <==> Truthy(username)
    ensures r.Some? ==> r == username
  {
    if Truthy(username) then username else None
  }

  /** The checks sign-up makes before touching the store. */
  predicate SignupInputOk(email: Option<string>, password: Option<string>) {
    && Truthy(email) && Truthy(password)
    && EmailRegex(NormalizeEmail(email.value))
    && IsStrongPassword(password.value)
  }

  /** Some user has the e-mail `e`. */
  predicate EmailRegistered(users: seq<User>, e: string) {
    exists u :: u in users && u.email == e
  }

  /** POST /signup. */
  function Signup(db: Db, c: Crypto, email: Option<string>, password: Option<string>,
                  username: Option<string>, role: Option<string>): (r: Outcome)
    ensures r.response.status == 400 || r.response.status == 409 || r.response.status == 201
    ensures r.response.status != 201 ==> r.db == db
    ensures r.response.status == 400 <==> !SignupInputOk(email, password)
    ensures r.response.status == 409 <==>
      SignupInputOk(email, password) && EmailRegistered(db.users, NormalizeEmail(email.value))
    ensures r.response == FieldsRequired <==> !Truthy(email) || !Truthy(password)
    ensures r.response == InvalidEmailFormat <==>
      Truthy(email) && Truthy(password) && !EmailRegex(NormalizeEmail(email.value))
    ensures r.response == WeakPassword <==>
      && Truthy(email) && Truthy(password) && EmailRegex(NormalizeEmail(email.value))
      && !IsStrongPassword(password.value)
    ensures r.response.status == 409 ==> r.response == EmailTaken
    ensures r.response.status == 201 ==>
      var e := NormalizeEmail(email.value);
      var token := GenerateToken(c, e, password.value);
      && r.db.posts == db.posts && r.db.nextPostId == db.nextPostId
      && r.db.nextUserId == db.nextUserId + 1
      && r.db.users == db.users + [User(db.nextUserId, e, StoredUsername(username),
                                        c.bcryptHash(password.value), token, SignupRole(role))]
      && r.response.body == Credentials(token, SignupRole(role))
  {
    if !Truthy(email) || !Truthy(password) then Outcome(db, FieldsRequired)
    else
      var e := NormalizeEmail(email.value);
      var storedRole := SignupRole(role);
      if !EmailRegex(e) then Outcome(db, InvalidEmailFormat)
      else if !IsStrongPassword(password.value) then Outcome(db, WeakPassword)
      else if FindByEmail(db.users, e).Some? then Outcome(db, EmailTaken)
      else
        var token := GenerateToken(c, e, password.value);
        var user := User(db.nextUserId, e, StoredUsername(username),
                         c.bcryptHash(password.value), token, storedRole);
        Outcome(db.(users := db.users + [user], nextUserId := db.nextUserId + 1),
                Response(201, Credentials(token, storedRole)))
  }

  /** The password check of login: the first user with the e-mail exists
      and bcrypt accepts the password against its hash. */
  predicate CredentialsMatch(db: Db, c: Crypto, email: string, password: string) {
    match FindByEmail(db.users, NormalizeEmail(email))
    case None => false
    case Some(k) => c.bcryptCompare(password, db.users[k].passwordHash)
  }

  /** POST /login. Read-only; an unknown e-mail and a wrong password get
      the same 401 response; success returns the stored token and role. */
  function Login(db: Db, c: Crypto, email: Option<string>, password: Option<string>): (r: Outcome)
    ensures r.db == db
    ensures r.response.status == 400 || r.response.status == 401 || r.response.status == 200
    ensures r.response.status == 400 <==> !Truthy(email) || !Truthy(password)
    ensures r.response.status == 401 ==> r.response == InvalidCredentials
    ensures r.response.status == 200 <==>
      Truthy(email) && Truthy(password) && CredentialsMatch(db, c, email.value, password.value)
    ensures r.response.status == 200 ==>
      exists u :: u in db.users && u.email == NormalizeEmail(email.value) &&
        r.response.body == Credentials(u.token, u.role)
  {
    if !Truthy(email) || !Truthy(password) then Outcome(db, FieldsRequired)
    else
      match FindByEmail(db.users, NormalizeEmail(email.value))
      case None => Outcome(db, InvalidCredentials)
      case Some(k) =>
        var u := db.users[k];
        if !c.bcryptCompare(password.value, u.passwordHash) then Outcome(db, InvalidCredentials)
        else Outcome(db, Response(200, Credentials(u.token, u.role)))
  }

  /** GET /posts, behind authentication. */
  function GetPosts(db: Db, search: Option<string>): (r: Outcome)
    ensures r.db == db
    ensures r.response.status == 200 && r.response.body.Posts?
    ensures r.response.body.rows == ListPosts(db, search)
  {
    Outcome(db, Response(200, Posts(ListPosts(db, search))))
  }

  /** The rows `INSERT INTO posts … SELECT id, $1, now() FROM users WHERE
      token = $2` adds: one per owner, ids drawn from the sequence. */
  function InsertedPosts(owners: seq<User>, firstId: nat, content: string, now: nat): (r: seq<Post>)
    ensures |r| == |owners|
    ensures forall k :: 0 <= k < |r| ==> r[k] == Post(firstId + k, owners[k].id, content, now)
  {
    if owners == [] then []
    else [Post(firstId, owners[0].id, content, now)] + InsertedPosts(owners[1..], firstId + 1, content, now)
  }

  /** The display name in the response of POST /post: `username || 'You'`. */
  function DisplayName(username: Option<string>): string {
    if Truthy(username) then username.value else "You"
  }

  /** Some user in `users` holds `token`. */
  predicate HoldsToken(users: seq<User>, token: string) {
    exists u :: u in users && u.token == token
  }

  /** The store and answer after a successful POST /post: one post per
      holder of the caller's token, in table order, with consecutive ids
      from the sequence, the trimmed content and the clock value `now`,
      appended after the existing posts; the users are untouched; the
      answer describes the first of the new posts. */
  predicate PostsCreated(db: Db, r: Outcome, caller: User, trimmed: string, now: nat) {
    var owners := UsersWithToken(db.users, caller.token);
    && r.db.users == db.users && r.db.nextUserId == db.nextUserId
    && |r.db.posts| == |db.posts| + |owners| && r.db.posts[..|db.posts|] == db.posts
    && r.db.nextPostId == db.nextPostId + |owners|
    && |owners| >= 1
    && (forall k :: 0 <= k < |owners| ==>
          r.db.posts[|db.posts| + k] == Post(db.nextPostId + k, owners[k].id, trimmed, now))
    && r.response.body == Created(CreatedPost(db.nextPostId, trimmed, now,
                                              DisplayName(caller.username), caller.token))
  }

  /** POST /post for the authenticated `caller`: blank content is refused;
      otherwise a post with the trimmed content and the clock value `now`
      is appended for every user holding the caller's token (exactly one
      user unless tokens collide). */
  function CreatePost(db: Db, caller: User, content: Option<string>, now: nat): (r: Outcome)
    ensures r.response.status == 400 || r.response.status == 201
    ensures r.response.status != 201 ==> r.db == db
    ensures !Truthy(content) || AllWhitespace(content.value) ==> r.response == EmptyContent
    ensures r.response == PostAuthorMissing <==>
      Truthy(content) && !AllWhitespace(content.value) &&
      forall u :: u in db.users ==> u.token != caller.token
    ensures r.response.status == 201 <==>
      Truthy(content) && !AllWhitespace(content.value) && HoldsToken(db.users, caller.token)
    ensures r.response.status == 201 ==>
      Truthy(content) && !AllWhitespace(content.value) && PostsCreated(db, r, caller, Trim(content.value), now)
  {
    if !Truthy(content) || Trim(content.value) == [] then Outcome(db, EmptyContent)
    else
      var owners := UsersWithToken(db.users, caller.token);
      if owners == [] then
        assert !HoldsToken(db.users, caller.token);
        Outcome(db, PostAuthorMissing)
      else
        var r := CreatedOutcome(db, caller, Trim(content.value), now);
        CreatedOutcomeFacts(db, caller, Trim(content.value), now);
        r
  }

  /** The success branch of POST /post, once some user holds the token. */
  function CreatedOutcome(db: Db, caller: User, trimmed: string, now: nat): Outcome {
    var owners := UsersWithToken(db.users, caller.token);
    var added := InsertedPosts(owners, db.nextPostId, trimmed, now);
    Outcome(db.(posts := db.posts + added, nextPostId := db.nextPostId + |owners|),
            Response(201, Created(CreatedPost(db.nextPostId, trimmed, now,
                                              DisplayName(caller.username), caller.token))))
  }

  lemma CreatedOutcomeFacts(db: Db, caller: User, trimmed: string, now: nat)
    requires UsersWithToken(db.users, caller.token) != []
    ensures PostsCreated(db, CreatedOutcome(db, caller, trimmed, now), caller, trimmed, now)
    ensures HoldsToken(db.users, caller.token)
  {
    var owners := UsersWithToken(db.users, caller.token);
    AppendedInserted(db.posts, owners, db.nextPostId, trimmed, now);
    assert owners[0] in owners;
  }

  /** The posts table after the insertion: the old rows, then one new row
      per owner. */
  lemma AppendedInserted(posts: seq<Post>, owners: seq<User>, firstId: nat, content: string, now: nat)
    ensures var all := posts + InsertedPosts(owners, firstId, content, now);
      && |all| == |posts| + |owners| && all[..|posts|] == posts
      && forall k :: 0 <= k < |owners| ==> all[|posts| + k] == Post(firstId + k, owners[k].id, content, now)
  {
    AppendedAt(posts, InsertedPosts(owners, firstId, content, now));
  }

  lemma AppendedAt<T>(xs: seq<T>, ys: seq<T>)
    ensures (xs + ys)[..|xs|] == xs
    ensures forall k :: 0 <= k < |ys| ==> (xs + ys)[|xs| + k] == ys[k]
  {
  }

  /** The admin test of DELETE /post: case-sensitive `role === 'Admin'`. */
  predicate IsAdmin(u: User) {
    u.role == "Admin"
  }

  predicate PostExists(db: Db, postId: nat) {
    exists p :: p in db.posts && p.id == postId
  }

  /** The non-admin query `posts JOIN users … WHERE posts.id = $1 AND
      users.token = $2` finds a row: the post's owner holds `token`. */
  predicate OwnedByToken(db: Db, postId: nat, token: string) {
    exists p, u :: p in db.posts && u in db.users && p.id == postId && u.id == p.userId && u.token == token
  }

  /** `DELETE FROM posts WHERE id = $1`: every other post, in order. */
  function WithoutPost(posts: seq<Post>, postId: nat): (r: seq<Post>)
    ensures forall p :: multiset(r)[p] == if p.id == postId then 0 else multiset(posts)[p]
    ensures forall p :: p in r <==> p in posts && p.id != postId
    ensures |r| <= |posts|
    ensures |r| == |posts| <==> forall p :: p in posts ==> p.id != postId
  {
    if posts == [] then []
    else
      assert posts == [posts[0]] + posts[1..];
      (if posts[0].id == postId then [] else [posts[0]]) + WithoutPost(posts[1..], postId)
  }

  /** DELETE /post/:postId for `caller`: an admin deletes any existing post;
      anyone else only a post whose owner holds their token. A refused
      non-admin gets the same 404 whether or not the post exists. */
  function DeletePost(db: Db, caller: User, postId: nat): (r: Outcome)
    ensures r.response.status == 200 || r.response.status == 404
    ensures r.response.status == 200 <==>
      if IsAdmin(caller) then PostExists(db, postId) else OwnedByToken(db, postId, caller.token)
    ensures r.response.status == 200 ==> r.db == db.(posts := WithoutPost(db.posts, postId))
    ensures r.response.status == 404 ==> r.db == db
    ensures r.response.status == 404 ==>
      r.response == if IsAdmin(caller) then PostNotFound else PostNotFoundOrUnauthorized
  {
    if IsAdmin(caller) then
      var remaining := WithoutPost(db.posts, postId);
      if |remaining| == |db.posts| then
        Outcome(db, PostNotFound)
      else
        Outcome(db.(posts := remaining), Response(200, Message("Post deleted successfully by admin")))
    else if !OwnedByToken(db, postId, caller.token) then
      Outcome(db, PostNotFoundOrUnauthorized)
    else
      Outcome(db.(posts := WithoutPost(db.posts, postId)), Response(200, Message("Post deleted successfully")))
  }

  /** `DELETE FROM posts WHERE userid = $1`. */
  function PostsNotOwnedBy(posts: seq<Post>, userId: nat): (r: seq<Post>)
    ensures forall p :: p in r <==> p in posts && p.userId != userId
    ensures forall p :: multiset(r)[p] == if p.userId == userId then 0 else multiset(posts)[p]
  {
    if posts == [] then []
    else
      assert posts == [posts[0]] + posts[1..];
      (if posts[0].userId == userId then [] else [posts[0]]) + PostsNotOwnedBy(posts[1..], userId)
  }

  /** `DELETE FROM users WHERE id = $1`. */
  function UsersWithoutId(users: seq<User>, id: nat): (r: seq<User>)
    ensures forall u :: u in r <==> u in users && u.id != id
    ensures |r| <= |users|
    ensures |r| == |users| <==> !HasUser(users, id)
  {
    if users == [] then []
    else (if users[0].id == id then [] else [users[0]]) + UsersWithoutId(users[1..], id)
  }

  /** DELETE /delete-account for `caller`, as one transaction: delete the
      caller's posts, then the caller's row; if no row was deleted, roll
      back to the prior store and answer 404. */
  function DeleteAccount(db: Db, caller: User): (r: Outcome)
    ensures r.response.status == 200 || r.response.status == 404
    ensures r.response.status == 200 <==> HasUser(db.users, caller.id)
    ensures r.response.status == 404 ==> r == Outcome(db, AccountNotFound)
    ensures r.response.status == 200 ==>
      && (forall u :: u in r.db.users <==> u in db.users && u.id != caller.id)
      && (forall p :: p in r.db.posts <==> p in db.posts && p.userId != caller.id)
      && r.db.nextUserId == db.nextUserId && r.db.nextPostId == db.nextPostId
  {
    var posts := PostsNotOwnedBy(db.posts, caller.id);
    var users := UsersWithoutId(db.users, caller.id);
    if |db.users| - |users| == 0 then Outcome(db, AccountNotFound)
    else Outcome(db.(users := users, posts := posts), Response(200, Message("Account deleted successfully")))
  }

  /** The outcome of the operator command `ChangeUserRole`: the new store
      and the updated row, or the error it throws. */
  datatype RoleChange = RoleChange(db: Db, result: Result<User, string>)

  const RoleArgumentsRequired := "Email and NewRole are required"
  const InvalidRole := "Invalid role. Valid roles are: User, Admin"
  const RoleUserNotFound := "User not found"

  /** `UPDATE users SET role = $1 WHERE email = $2`. */
  function SetRole(users: seq<User>, email: string, role: string): (r: seq<User>)
    ensures |r| == |users|
    ensures forall i :: 0 <= i < |users| ==>
      r[i] == if users[i].email == email then users[i].(role := role) else users[i]
  {
    if users == [] then []
    else
      [if users[0].email == email then users[0].(role := role) else users[0]]
        + SetRole(users[1..], email, role)
  }

  /** `ChangeUserRole(Email, NewRole)`: the only way a role becomes `Admin`.
      It accepts exactly `User` or `Admin` after trimming, changes the role
      of the users with the normalised e-mail and nothing else, and leaves
      the store alone when it fails. */
  function ChangeUserRole(db: Db, email: Option<string>, newRole: Option<string>): (r: RoleChange)
    ensures r.result.Failure? ==> r.db == db
    ensures !Truthy(email) || !Truthy(newRole) ==> r.result == Failure(RoleArgumentsRequired)
    ensures Truthy(email) && Truthy(newRole) && Trim(newRole.value) != "User" && Trim(newRole.value) != "Admin"
      ==> r.result == Failure(InvalidRole)
    ensures r.result.Success? <==>
      && Truthy(email) && Truthy(newRole)
      && (Trim(newRole.value) == "User" || Trim(newRole.value) == "Admin")
      && exists u :: u in db.users && u.email == NormalizeEmail(email.value)
    ensures r.result.Success? ==>
      && r.db == db.(users := SetRole(db.users, NormalizeEmail(email.value), Trim(newRole.value)))
      && r.result.value in r.db.users
      && r.result.value.email == NormalizeEmail(email.value)
      && r.result.value.role == Trim(newRole.value)
  {
    if !Truthy(email) || !Truthy(newRole) then RoleChange(db, Failure(RoleArgumentsRequired))
    else
      var role := Trim(newRole.value);
      if role != "User" && role != "Admin" then RoleChange(db, Failure(InvalidRole))
      else
        var e := NormalizeEmail(email.value);
        match FindByEmail(db.users, e)
        case None => RoleChange(db, Failure(RoleUserNotFound))
        case Some(k) =>
          var users := SetRole(db.users, e, role);
          RoleChange(db.(users := users), Success(users[k]))
  }

  /** The whole HTTP API as one transition: protected routes first pass
      `AuthenticateToken` and answer its 401 without touching the store.
      `now` is the database clock at the time of the request. */
  function Handle(db: Db, c: Crypto, now: nat, req: Request): (r: Outcome)
    ensures req.LoginRequest? || req.PostsRequest? || req.RootRequest? ==> r.db == db
    ensures req.PostsRequest? || req.PostRequest? || req.DeletePostRequest? || req.DeleteAccountRequest? ==>
      match AuthenticateToken(db, req.auth)
      case Rejected(resp) => r == Outcome(db, resp)
      case Authenticated(_) => r.response.status != 401
  {
    match req
    case RootRequest => Outcome(db, Response(200, Message("Success")))
    case SignupRequest(e, p, u, role) => Signup(db, c, e, p, u, role)
    case LoginRequest(e, p) => Login(db, c, e, p)
    case PostsRequest(h, search) =>
      (match AuthenticateToken(db, h)
       case Rejected(resp) => Outcome(db, resp)
       case Authenticated(_) => GetPosts(db, search))
    case PostRequest(h, content) =>
      (match AuthenticateToken(db, h)
       case Rejected(resp) => Outcome(db, resp)
       case Authenticated(u) => CreatePost(db, u, content, now))
    case DeletePostRequest(h, postId) =>
      (match AuthenticateToken(db, h)
       case Rejected(resp) => Outcome(db, resp)
       case Authenticated(u) => DeletePost(db, u, postId))
    case DeleteAccountRequest(h) =>
      (match AuthenticateToken(db, h)
       case Rejected(resp) => Outcome(db, resp)
       case Authenticated(u) => DeleteAccount(db, u))
  }
}
