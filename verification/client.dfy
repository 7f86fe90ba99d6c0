/** The client side of the posts page: the delete-button gate of
    `PostItem`, the row mapping and search parameter of `FetchPosts`, and
    the request `AddPost` sends. The session storage (`Token`, `UserRole`)
    is passed in as values. */
module Client {
  import opened Wrappers
  import opened Text
  import opened Store
  import opened Api
  import opened Auth
  import opened Listing
  import opened Server
  import ServerProps

  /** `x || fallback` for a value that is absent or a string. */
  function OrElse(x: Option<string>, fallback: string): (r: string)
    ensures Truthy(x) ==> r == x.value
    ensures !Truthy(x) ==> r == fallback
  {
    if Truthy(x) then x.value else fallback
  }

  /** A post as the list holds it after `FetchPosts`. */
  datatype ShownPost = ShownPost(
    id: nat,
    username: string,
    content: string,
    createdAt: nat,
    ownerToken: Option<string>)

  /** The mapping of one listed row: a missing or empty username shows as
      "Unknown", an empty owner token becomes `null`. */
  function MapRow(row: PostRow): (p: ShownPost)
    ensures p.id == row.id && p.content == row.content && p.createdAt == row.createdAt
    ensures p.username != []
    ensures Truthy(row.username) ==> p.username == row.username.value
    ensures !Truthy(row.username) ==> p.username == "Unknown"
    ensures Truthy(p.ownerToken) <==> row.token != []
    ensures Truthy(p.ownerToken) ==> p.ownerToken.value == row.token
  {
    ShownPost(row.id, OrElse(row.username, "Unknown"), row.content, row.createdAt,
              if row.token != [] then Some(row.token) else None)
  }

  /** The role the page acts on: the stored `UserRole`, or "User". */
  function SessionRole(role: Option<string>): string {
    OrElse(role, "User")
  }

  /** `Token && Post.OwnerToken && (UserRole === "Admin" || Token ===
      Post.OwnerToken)`: whether `PostItem` shows the delete button. */
  predicate CanDelete(token: Option<string>, role: Option<string>, ownerToken: Option<string>) {
    && Truthy(token)
    && Truthy(ownerToken)
    && (SessionRole(role) == "Admin" || token.value == ownerToken.value)
  }

  /** Two posts with the same id in a valid store are the same post. */
  lemma SamePost(db: Db, p: Post, q: Post)
    requires Valid(db)
    requires p in db.posts && q in db.posts && p.id == q.id
    ensures p == q
  {
    var i :| 0 <= i < |db.posts| && db.posts[i] == p;
    var j :| 0 <= j < |db.posts| && db.posts[j] == q;
    assert !(i < j) && !(j < i);
  }

  /** Two users with the same id in a valid store are the same user. */
  lemma SameUser(db: Db, u: User, w: User)
    requires Valid(db)
    requires u in db.users && w in db.users && u.id == w.id
    ensures u == w
  {
    var i :| 0 <= i < |db.users| && db.users[i] == u;
    var j :| 0 <= j < |db.users| && db.users[j] == w;
    assert !(i < j) && !(j < i);
  }

  /** For a joined row, the server's non-admin gate (some owner of the
      post holds the caller's token) is the client's comparison of the
      caller's token with the row's token. */
  lemma OwnedByRowToken(db: Db, row: PostRow, token: string)
    requires Valid(db)
    requires row in JoinRows(db.posts, db.users)
    ensures OwnedByToken(db, row.id, token) <==> row.token == token
  {
    var p, u :| p in db.posts && u in db.users && u.id == p.userId && row == RowOf(p, u);
    if OwnedByToken(db, row.id, token) {
      var p', u' :| p' in db.posts && u' in db.users && p'.id == row.id && u'.id == p'.userId && u'.token == token;
      SamePost(db, p, p');
      SameUser(db, u, u');
    }
  }

  /** The delete button is shown exactly for the posts the server lets the
      session's user delete: a session holding the token and role of the
      user the server authenticates, on a joined row (every listed row is
      one), with every stored token non-empty (SHA-256 digests are). */
  lemma DeleteButtonMatchesServer(db: Db, caller: User, row: PostRow)
    requires Valid(db)
    requires caller in db.users
    requires forall u :: u in db.users ==> u.token != []
    requires row in JoinRows(db.posts, db.users)
    ensures CanDelete(Some(caller.token), Some(caller.role), MapRow(row).ownerToken)
      <==> DeletePost(db, caller, row.id).response.status == 200
  {
    JoinedRowFacts(db, row);
    OwnedByRowToken(db, row, caller.token);
  }

  /** A listed row comes from an existing post, and carries its owner's
      token. */
  lemma JoinedRowFacts(db: Db, row: PostRow)
    requires forall u :: u in db.users ==> u.token != []
    requires row in JoinRows(db.posts, db.users)
    ensures PostExists(db, row.id) && row.token != []
  {
    var p, u :| p in db.posts && u in db.users && u.id == p.userId && row == RowOf(p, u);
  }

  /** The `search` query parameter `FetchPosts` sends: the trimmed term,
      left out when it is blank. */
  function SearchParam(term: string): (r: Option<string>)
    ensures r.None? <==> AllWhitespace(term)
    ensures r.Some? ==> r.value == Trim(term) && r.value != []
  {
    if Trim(term) != [] then Some(Trim(term)) else None
  }

  /** Trimming on the client changes nothing on the server: the listing for
      the parameter sent is the listing for the raw term. */
  lemma SearchParamListsSame(db: Db, term: string)
    ensures ListPosts(db, SearchParam(term)) == ListPosts(db, Some(term))
  {
    TrimIdempotent(term);
    assert SearchTerm(SearchParam(term)) == SearchTerm(Some(term));
  }

  /** The request `AddPost` sends: none for blank content or without a
      stored token, otherwise `POST /post` with the bearer header and the
      trimmed content. */
  function AddPostRequest(content: string, token: Option<string>): (r: Option<Request>)
    ensures r.Some? <==> !AllWhitespace(content) && Truthy(token)
    ensures r.Some? ==> r.value == PostRequest(Some("Bearer " + token.value), Some(Trim(content)))
  {
    if Trim(content) == [] then None
    else if !Truthy(token) then None
    else Some(PostRequest(Some("Bearer " + token.value), Some(Trim(content))))
  }

  /** Trimming non-blank content leaves non-blank content that a second
      trim does not change. */
  lemma TrimmedNotBlank(content: string)
    requires !AllWhitespace(content)
    ensures !AllWhitespace(Trim(content)) && Trim(Trim(content)) == Trim(content)
  {
    TrimIdempotent(content);
  }

  /** The request `AddPost` sends for a user who alone holds their token
      creates exactly one post, owned by that user, holding the trimmed
      content. */
  lemma AddPostCreatesOnePost(db: Db, c: Crypto, now: nat, caller: User, content: string)
    requires Valid(db)
    requires caller in db.users
    requires forall u :: u in db.users && u.token == caller.token ==> u == caller
    requires caller.token != [] && ' ' !in caller.token
    requires !AllWhitespace(content)
    ensures var req := AddPostRequest(content, Some(caller.token)).value;
      var r := Handle(db, c, now, req);
      && r.response.status == 201
      && r.db.posts == db.posts + [Post(db.nextPostId, caller.id, Trim(content), now)]
  {
    var req := AddPostRequest(content, Some(caller.token)).value;
    assert req == PostRequest(Some("Bearer " + caller.token), Some(Trim(content)));
    TrimmedNotBlank(content);
    SoleHolderPosts(db, c, now, caller, Trim(content));
  }

  /** POST /post with the bearer token of a user alone with it, and content
      already trimmed, adds exactly that user's post. */
  lemma SoleHolderPosts(db: Db, c: Crypto, now: nat, caller: User, t: string)
    requires Valid(db)
    requires caller in db.users
    requires forall u :: u in db.users && u.token == caller.token ==> u == caller
    requires caller.token != [] && ' ' !in caller.token
    requires !AllWhitespace(t) && Trim(t) == t
    ensures var r := Handle(db, c, now, PostRequest(Some("Bearer " + caller.token), Some(t)));
      && r.response.status == 201
      && r.db.posts == db.posts + [Post(db.nextPostId, caller.id, t, now)]
  {
    AuthenticatesSoleHolder(db, caller);
    HandleAuthenticatedPost(db, c, now, Some("Bearer " + caller.token), caller, t);
    ServerProps.CreatePostBySoleHolder(db, caller, t, now);
  }

  lemma HandleAuthenticatedPost(db: Db, c: Crypto, now: nat, header: Option<string>, caller: User, content: string)
    requires AuthenticateToken(db, header) == Authenticated(caller)
    ensures Handle(db, c, now, PostRequest(header, Some(content))) == CreatePost(db, caller, Some(content), now)
  {
  }

  /** A user who alone holds their token is who the middleware
      authenticates for it. */
  lemma AuthenticatesSoleHolder(db: Db, caller: User)
    requires caller in db.users
    requires forall u :: u in db.users && u.token == caller.token ==> u == caller
    requires caller.token != [] && ' ' !in caller.token
    ensures AuthenticateToken(db, Some("Bearer " + caller.token)) == Authenticated(caller)
  {
    BearerTokenOfBearer(caller.token);
    var r := AuthenticateToken(db, Some("Bearer " + caller.token));
    assert r.Authenticated?;
    var k: nat :| IsFirstWithToken(db.users, k, caller.token) && db.users[k] == r.user;
    assert db.users[k] in db.users;
  }
}
