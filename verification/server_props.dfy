/** Properties of the server that relate several handlers or hold over
    every request: the store stays well formed, sign-up and login agree,
    no request creates an administrator, deletion is gated, account
    deletion is all-or-nothing, and what non-unique tokens lead to. */
module ServerProps {
  import opened Wrappers
  import opened Text
  import opened Validation
  import opened Store
  import opened Api
  import opened Auth
  import opened Listing
  import opened Server

  /** The empty store; both id sequences start at 1. */
  const EmptyDb := Db([], [], 1, 1)

  /** A request together with the database clock when it runs. */
  datatype Step = Step(now: nat, req: Request)

  /** The store after serving `steps` one after the other. */
  function Run(db: Db, c: Crypto, steps: seq<Step>): Db
    decreases |steps|
  {
    if steps == [] then db
    else Run(Handle(db, c, steps[0].now, steps[0].req).db, c, steps[1..])
  }

  // Uniqueness of post ids survives removing posts.

  lemma PostIdsUniqueCons(x: Post, rest: seq<Post>)
    requires PostIdsUnique(rest)
    requires forall q :: q in rest ==> q.id != x.id
    ensures PostIdsUnique([x] + rest)
  {
    var s := [x] + rest;
    forall i, j | 0 <= i < j < |s|
      ensures s[i].id != s[j].id
    {
      assert s[j] == rest[j - 1] && s[j] in rest;
      if i > 0 {
        assert s[i] == rest[i - 1];
      }
    }
  }

  lemma PostIdsUniqueTail(posts: seq<Post>)
    requires PostIdsUnique(posts) && posts != []
    ensures PostIdsUnique(posts[1..])
    ensures forall q :: q in posts[1..] ==> q.id != posts[0].id
  {
    forall q | q in posts[1..]
      ensures q.id != posts[0].id
    {
      var j :| 0 <= j < |posts[1..]| && posts[1..][j] == q;
      assert posts[j + 1] == q;
    }
  }

  lemma {:induction false} WithoutPostKeepsIdsUnique(posts: seq<Post>, postId: nat)
    requires PostIdsUnique(posts)
    ensures PostIdsUnique(WithoutPost(posts, postId))
  {
    if posts != [] {
      PostIdsUniqueTail(posts);
      WithoutPostKeepsIdsUnique(posts[1..], postId);
      var rest := WithoutPost(posts[1..], postId);
      if posts[0].id == postId {
        assert WithoutPost(posts, postId) == [] + rest;
      } else {
        PostIdsUniqueCons(posts[0], rest);
      }
    }
  }

  lemma {:induction false} PostsNotOwnedByKeepsIdsUnique(posts: seq<Post>, userId: nat)
    requires PostIdsUnique(posts)
    ensures PostIdsUnique(PostsNotOwnedBy(posts, userId))
  {
    if posts != [] {
      PostIdsUniqueTail(posts);
      PostsNotOwnedByKeepsIdsUnique(posts[1..], userId);
      var rest := PostsNotOwnedBy(posts[1..], userId);
      if posts[0].userId == userId {
        assert PostsNotOwnedBy(posts, userId) == [] + rest;
      } else {
        PostIdsUniqueCons(posts[0], rest);
      }
    }
  }

  /** Removing users keeps e-mails and ids unique. */
  lemma {:induction false} UsersWithoutIdKeepsUnique(users: seq<User>, id: nat)
    requires EmailsUnique(users) && UserIdsUnique(users)
    ensures EmailsUnique(UsersWithoutId(users, id)) && UserIdsUnique(UsersWithoutId(users, id))
  {
    if users != [] {
      var tail := users[1..];
      assert EmailsUnique(tail) && UserIdsUnique(tail) by {
        forall i, j | 0 <= i < j < |tail|
          ensures tail[i].email != tail[j].email && tail[i].id != tail[j].id
        {
          assert tail[i] == users[i + 1] && tail[j] == users[j + 1];
        }
      }
      UsersWithoutIdKeepsUnique(tail, id);
      var rest := UsersWithoutId(tail, id);
      if users[0].id == id {
        assert UsersWithoutId(users, id) == [] + rest;
      } else {
        forall w | w in rest
          ensures w.email != users[0].email && w.id != users[0].id
        {
          var j :| 0 <= j < |tail| && tail[j] == w;
          assert users[j + 1] == w;
        }
        UsersUniqueCons(users[0], rest);
      }
    }
  }

  lemma UsersUniqueCons(x: User, rest: seq<User>)
    requires EmailsUnique(rest) && UserIdsUnique(rest)
    requires forall w :: w in rest ==> w.email != x.email && w.id != x.id
    ensures EmailsUnique([x] + rest) && UserIdsUnique([x] + rest)
  {
    var s := [x] + rest;
    forall i, j | 0 <= i < j < |s|
      ensures s[i].email != s[j].email && s[i].id != s[j].id
    {
      assert s[j] == rest[j - 1] && s[j] in rest;
      if i > 0 {
        assert s[i] == rest[i - 1];
      }
    }
  }

  // Every handler keeps the store well formed.

  /** Appending a user with a fresh e-mail and the next id keeps the store
      well formed. */
  lemma AppendUserValid(db: Db, u: User)
    requires Valid(db)
    requires u.id == db.nextUserId
    requires forall w :: w in db.users ==> w.email != u.email
    ensures Valid(db.(users := db.users + [u], nextUserId := db.nextUserId + 1))
  {
    var users := db.users + [u];
    var n := |db.users|;
    forall i, j | 0 <= i < j < |users|
      ensures users[i].email != users[j].email && users[i].id != users[j].id
    {
      assert users[i] == db.users[i] && db.users[i] in db.users;
      if j < n {
        assert users[j] == db.users[j];
      }
    }
    forall p | p in db.posts
      ensures HasUser(users, p.userId)
    {
      var w :| w in db.users && w.id == p.userId;
      assert w in users;
    }
  }

  lemma SignupPreservesValid(db: Db, c: Crypto, email: Option<string>, password: Option<string>,
                             username: Option<string>, role: Option<string>)
    requires Valid(db)
    ensures Valid(Signup(db, c, email, password, username, role).db)
  {
    var r := Signup(db, c, email, password, username, role);
    if r.response.status == 201 {
      var u := r.db.users[|db.users|];
      AppendUserValid(db, u);
      assert r.db == db.(users := db.users + [u], nextUserId := db.nextUserId + 1);
    }
  }

  /** Appending posts with fresh consecutive ids and existing owners keeps
      the store well formed. */
  lemma AppendPostsValid(db: Db, added: seq<Post>)
    requires Valid(db)
    requires forall k :: 0 <= k < |added| ==> added[k].id == db.nextPostId + k
    requires forall k :: 0 <= k < |added| ==> HasUser(db.users, added[k].userId)
    ensures Valid(db.(posts := db.posts + added, nextPostId := db.nextPostId + |added|))
  {
    var n := |db.posts|;
    var posts := db.posts + added;
    forall i, j | 0 <= i < j < |posts|
      ensures posts[i].id != posts[j].id
    {
      if j < n {
        assert posts[i] == db.posts[i] && posts[j] == db.posts[j];
      } else if i < n {
        assert posts[i] == db.posts[i] && db.posts[i] in db.posts;
        assert posts[j] == added[j - n];
      } else {
        assert posts[i] == added[i - n] && posts[j] == added[j - n];
      }
    }
    forall p | p in posts
      ensures p.id < db.nextPostId + |added| && HasUser(db.users, p.userId)
    {
      if p !in db.posts {
        var k :| 0 <= k < |added| && added[k] == p;
      }
    }
  }

  lemma CreatePostPreservesValid(db: Db, caller: User, content: Option<string>, now: nat)
    requires Valid(db)
    ensures Valid(CreatePost(db, caller, content, now).db)
  {
    if Truthy(content) && Trim(content.value) != [] && UsersWithToken(db.users, caller.token) != [] {
      CreatedOutcomeValid(db, caller, Trim(content.value), now);
    }
  }

  /** The success branch of POST /post keeps the store well formed: the new
      ids come fresh from the sequence and every new post has its owner. */
  lemma CreatedOutcomeValid(db: Db, caller: User, trimmed: string, now: nat)
    requires Valid(db)
    ensures Valid(CreatedOutcome(db, caller, trimmed, now).db)
  {
    var owners := UsersWithToken(db.users, caller.token);
    var added := InsertedPosts(owners, db.nextPostId, trimmed, now);
    forall k | 0 <= k < |added|
      ensures HasUser(db.users, added[k].userId)
    {
      assert owners[k] in owners;
    }
    AppendPostsValid(db, added);
  }

  lemma DeletePostPreservesValid(db: Db, caller: User, postId: nat)
    requires Valid(db)
    ensures Valid(DeletePost(db, caller, postId).db)
  {
    WithoutPostKeepsIdsUnique(db.posts, postId);
  }

  lemma DeleteAccountPreservesValid(db: Db, caller: User)
    requires Valid(db)
    ensures Valid(DeleteAccount(db, caller).db)
  {
    var r := DeleteAccount(db, caller);
    if r.response.status == 200 {
      PostsNotOwnedByKeepsIdsUnique(db.posts, caller.id);
      UsersWithoutIdKeepsUnique(db.users, caller.id);
      forall p | p in r.db.posts
        ensures HasUser(r.db.users, p.userId)
      {
        var w :| w in db.users && w.id == p.userId;
        assert w in r.db.users;
      }
    }
  }

  /** Changing roles touches no e-mail and no id. */
  lemma SetRolePreservesValid(db: Db, email: string, role: string)
    requires Valid(db)
    ensures Valid(db.(users := SetRole(db.users, email, role)))
  {
    SameKeysValid(db, SetRole(db.users, email, role));
  }

  /** Rewriting user rows without touching their ids or e-mails keeps the
      store well formed. */
  lemma SameKeysValid(db: Db, users: seq<User>)
    requires Valid(db)
    requires |users| == |db.users|
    requires forall i :: 0 <= i < |users| ==> users[i].email == db.users[i].email && users[i].id == db.users[i].id
    ensures Valid(db.(users := users))
  {
    forall u | u in users
      ensures u.id < db.nextUserId
    {
      var i :| 0 <= i < |users| && users[i] == u;
      assert db.users[i] in db.users;
    }
    forall p | p in db.posts
      ensures HasUser(users, p.userId)
    {
      var w :| w in db.users && w.id == p.userId;
      var i :| 0 <= i < |db.users| && db.users[i] == w;
      assert users[i] in users;
    }
  }


  lemma ChangeUserRolePreservesValid(db: Db, email: Option<string>, newRole: Option<string>)
    requires Valid(db)
    ensures Valid(ChangeUserRole(db, email, newRole).db)
  {
    var r := ChangeUserRole(db, email, newRole);
    if r.result.Success? {
      SetRolePreservesValid(db, NormalizeEmail(email.value), Trim(newRole.value));
    }
  }

  /** Every request keeps the store well formed: e-mails unique, ids
      unique, no orphan posts. */
  lemma HandlePreservesValid(db: Db, c: Crypto, now: nat, req: Request)
    requires Valid(db)
    ensures Valid(Handle(db, c, now, req).db)
  {
    if req.SignupRequest? {
      SignupPreservesValid(db, c, req.email, req.password, req.username, req.role);
    } else if req.PostRequest? || req.DeletePostRequest? || req.DeleteAccountRequest? {
      var a := AuthenticateToken(db, req.auth);
      if a.Authenticated? {
        if req.PostRequest? {
          CreatePostPreservesValid(db, a.user, req.content, now);
        } else if req.DeletePostRequest? {
          DeletePostPreservesValid(db, a.user, req.postId);
        } else {
          DeleteAccountPreservesValid(db, a.user);
        }
      }
    }
  }

  /** Any sequence of requests from a well-formed store, in particular from
      the empty one, ends in a well-formed store. */
  lemma {:induction false} RunPreservesValid(db: Db, c: Crypto, steps: seq<Step>)
    requires Valid(db)
    ensures Valid(Run(db, c, steps))
    decreases |steps|
  {
    if steps != [] {
      HandlePreservesValid(db, c, steps[0].now, steps[0].req);
      RunPreservesValid(Handle(db, c, steps[0].now, steps[0].req).db, c, steps[1..]);
    }
  }

  // The role-elevation path is closed.

  /** No HTTP request produces a user with role `Admin` that was not
      already in the store. */
  lemma HandleCreatesNoAdmin(db: Db, c: Crypto, now: nat, req: Request)
    ensures forall u :: u in Handle(db, c, now, req).db.users && IsAdmin(u) ==> u in db.users
  {
    match req
    case SignupRequest(e, p, name, role) =>
      SignupCreatesNoAdmin(db, c, e, p, name, role);
    case DeleteAccountRequest(h) =>
      if AuthenticateToken(db, h).Authenticated? {
        DeleteAccountKeepsUsers(db, AuthenticateToken(db, h).user);
      }
    case PostRequest(h, content) =>
      if AuthenticateToken(db, h).Authenticated? {
        assert CreatePost(db, AuthenticateToken(db, h).user, content, now).db.users == db.users;
      }
    case _ =>
  }

  /** Sign-up adds at most one user, and never an administrator. */
  lemma SignupCreatesNoAdmin(db: Db, c: Crypto, email: Option<string>, password: Option<string>,
                             username: Option<string>, role: Option<string>)
    ensures forall u :: u in Signup(db, c, email, password, username, role).db.users && IsAdmin(u) ==> u in db.users
  {
    var r := Signup(db, c, email, password, username, role);
    if r.response.status == 201 {
      var e := NormalizeEmail(email.value);
      AppendedNonAdmin(db.users, User(db.nextUserId, e, StoredUsername(username), c.bcryptHash(password.value),
                                      GenerateToken(c, e, password.value), SignupRole(role)));
    }
  }

  lemma AppendedNonAdmin(users: seq<User>, added: User)
    requires !IsAdmin(added)
    ensures forall u :: u in users + [added] && IsAdmin(u) ==> u in users
  {
  }

  /** Account deletion only removes users. */
  lemma DeleteAccountKeepsUsers(db: Db, caller: User)
    ensures forall u :: u in DeleteAccount(db, caller).db.users ==> u in db.users
  {
  }

  /** Starting from the empty store, no sequence of HTTP requests ever
      yields an administrator: only `ChangeUserRole` can. */
  lemma {:induction false} RunCreatesNoAdmin(db: Db, c: Crypto, steps: seq<Step>)
    requires forall u :: u in db.users ==> !IsAdmin(u)
    ensures forall u :: u in Run(db, c, steps).users ==> !IsAdmin(u)
    decreases |steps|
  {
    if steps != [] {
      HandleCreatesNoAdmin(db, c, steps[0].now, steps[0].req);
      RunCreatesNoAdmin(Handle(db, c, steps[0].now, steps[0].req).db, c, steps[1..]);
    }
  }

  /** The operator command does make an administrator, and only the user
      with the given e-mail changes. */
  lemma ChangeUserRolePromotes(db: Db, email: string, newRole: string, k: nat)
    requires EmailsUnique(db.users)
    requires email != [] && Trim(newRole) == "Admin"
    requires k < |db.users| && db.users[k].email == NormalizeEmail(email)
    ensures var r := ChangeUserRole(db, Some(email), Some(newRole));
      && r.result.Success?
      && r.db.users[k] == db.users[k].(role := "Admin")
      && forall i :: 0 <= i < |db.users| && i != k ==> r.db.users[i] == db.users[i]
  {
    assert newRole != [];
    assert db.users[k] in db.users;
    var r := ChangeUserRole(db, Some(email), Some(newRole));
    assert r.result.Success?;
    assert r.db.users == SetRole(db.users, NormalizeEmail(email), "Admin");
    SetRoleOfUniqueEmail(db.users, k, "Admin");
  }

  /** With unique e-mails, setting the role by e-mail changes one row. */
  lemma SetRoleOfUniqueEmail(users: seq<User>, k: nat, role: string)
    requires EmailsUnique(users) && k < |users|
    ensures var r := SetRole(users, users[k].email, role);
      && r[k] == users[k].(role := role)
      && forall i :: 0 <= i < |users| && i != k ==> r[i] == users[i]
  {
    forall i | 0 <= i < |users| && i != k
      ensures users[i].email != users[k].email
    {
      if i < k {
        assert users[i].email != users[k].email;
      } else {
        assert users[k].email != users[i].email;
      }
    }
  }

  // Sign-up and login.

  /** After a successful sign-up with `email` and `password`, logging in
      with any e-mail that normalises to the same address and the same
      password returns the token derived at sign-up and the stored role,
      and changes nothing. */
  lemma SignupThenLogin(db: Db, c: Crypto, email: string, password: string,
                        username: Option<string>, role: Option<string>, loginEmail: string)
    requires BcryptSound(c)
    requires Signup(db, c, Some(email), Some(password), username, role).response.status == 201
    requires NormalizeEmail(loginEmail) == NormalizeEmail(email)
    ensures var db' := Signup(db, c, Some(email), Some(password), username, role).db;
      Login(db', c, Some(loginEmail), Some(password)) ==
        Outcome(db', Response(200, Credentials(GenerateToken(c, NormalizeEmail(email), password),
                                               SignupRole(role))))
  {
    var s := Signup(db, c, Some(email), Some(password), username, role);
    var e := NormalizeEmail(email);
    var n := |db.users|;
    var u := s.db.users[n];
    assert s.db.users == db.users + [u];
    assert SignupInputOk(Some(email), Some(password));
    NormalizedNonEmpty(loginEmail, e);
    FindByEmailAppended(db.users, u, e);
    assert c.bcryptCompare(password, u.passwordHash);
    LoginOfStoredUser(s.db, c, loginEmail, password, n);
  }

  /** Login succeeds with the row its e-mail lookup finds when bcrypt
      accepts the password, and returns that row's token and role. */
  lemma LoginOfStoredUser(db: Db, c: Crypto, email: string, password: string, k: nat)
    requires email != [] && password != []
    requires FindByEmail(db.users, NormalizeEmail(email)) == Some(k)
    requires c.bcryptCompare(password, db.users[k].passwordHash)
    ensures Login(db, c, Some(email), Some(password)) ==
      Outcome(db, Response(200, Credentials(db.users[k].token, db.users[k].role)))
  {
  }

  /** An address that passes the e-mail check came from a non-empty input. */
  lemma NormalizedNonEmpty(input: string, e: string)
    requires NormalizeEmail(input) == e && EmailRegex(e)
    ensures input != []
  {
  }

  lemma FindByEmailAppended(users: seq<User>, u: User, e: string)
    requires forall w :: w in users ==> w.email != e
    requires u.email == e
    ensures FindByEmail(users + [u], e) == Some(|users|)
  {
    var s := users + [u];
    assert s[|users|].email == e;
    assert forall j :: 0 <= j < |users| ==> s[j] == users[j] && users[j] in users;
  }

  /** A second sign-up with an address that normalises to a registered one
      is refused with 409 and changes nothing. */
  lemma SecondSignupConflicts(db: Db, c: Crypto, email: string, password: string,
                              username: Option<string>, role: Option<string>,
                              email2: string, password2: string,
                              username2: Option<string>, role2: Option<string>)
    requires Signup(db, c, Some(email), Some(password), username, role).response.status == 201
    requires NormalizeEmail(email2) == NormalizeEmail(email)
    requires IsStrongPassword(password2)
    ensures var db' := Signup(db, c, Some(email), Some(password), username, role).db;
      Signup(db', c, Some(email2), Some(password2), username2, role2) == Outcome(db', EmailTaken)
  {
    var s := Signup(db, c, Some(email), Some(password), username, role);
    var e := NormalizeEmail(email);
    assert SignupInputOk(Some(email), Some(password));
    NormalizedNonEmpty(email2, e);
    var u := s.db.users[|db.users|];
    assert u in s.db.users && u.email == e;
    assert SignupInputOk(Some(email2), Some(password2));
  }

  // Deletion of posts.

  /** When the caller is the only user holding its token, a post deletion
      succeeds exactly for an administrator and an existing post, or for
      the post's owner. */
  lemma DeleteGatedOnOwnerOrAdmin(db: Db, caller: User, postId: nat)
    requires Valid(db)
    requires caller in db.users
    requires forall u :: u in db.users && u.token == caller.token ==> u == caller
    ensures DeletePost(db, caller, postId).response.status == 200 <==>
      || (IsAdmin(caller) && PostExists(db, postId))
      || exists p :: p in db.posts && p.id == postId && p.userId == caller.id
  {
    if p :| p in db.posts && p.id == postId && p.userId == caller.id {
      assert OwnedByToken(db, postId, caller.token);
    }
    if OwnedByToken(db, postId, caller.token) {
      var p, u :| p in db.posts && u in db.users && p.id == postId && u.id == p.userId && u.token == caller.token;
      assert u == caller;
    }
  }

  /** A refused non-administrator cannot tell an existing post from a
      missing one: both answers, and both stores, are the same. */
  lemma RefusalLooksLikeMissing(db: Db, caller: User, postId: nat, missingId: nat)
    requires !IsAdmin(caller)
    requires !OwnedByToken(db, postId, caller.token)
    requires !PostExists(db, missingId)
    ensures DeletePost(db, caller, postId) == DeletePost(db, caller, missingId)
  {
  }

  /** Removing an id no post carries changes nothing. */
  lemma {:induction false} WithoutAbsentPost(posts: seq<Post>, postId: nat)
    requires forall p :: p in posts ==> p.id != postId
    ensures WithoutPost(posts, postId) == posts
  {
    if posts != [] {
      HeadAndTail(posts);
      WithoutAbsentPost(posts[1..], postId);
    }
  }

  lemma HeadAndTail<T>(xs: seq<T>)
    requires xs != []
    ensures xs[0] in xs && (forall x :: x in xs[1..] ==> x in xs) && [xs[0]] + xs[1..] == xs
  {
  }

  /** With unique ids, removing the id of post `i` removes that post alone
      and keeps the others in order. */
  lemma {:induction false} WithoutUniquePost(posts: seq<Post>, i: nat)
    requires PostIdsUnique(posts) && i < |posts|
    ensures WithoutPost(posts, posts[i].id) == posts[..i] + posts[i + 1..]
  {
    var postId := posts[i].id;
    var tail := posts[1..];
    if i == 0 {
      PostIdsUniqueTail(posts);
      WithoutAbsentPost(tail, postId);
      assert WithoutPost(posts, postId) == [] + tail;
    } else {
      assert PostIdsUnique(tail) && tail[i - 1] == posts[i] && posts[0].id != postId by {
        PostIdsUniqueTail(posts);
      }
      WithoutUniquePost(tail, i - 1);
      assert WithoutPost(posts, postId) == [posts[0]] + WithoutPost(tail, postId);
      ConsSplice(posts, i);
    }
  }

  lemma ConsSplice<T>(xs: seq<T>, i: nat)
    requires 0 < i < |xs|
    ensures [xs[0]] + (xs[1..][..i - 1] + xs[1..][i..]) == xs[..i] + xs[i + 1..]
  {
    assert xs[1..][..i - 1] == xs[1..i] && xs[1..][i..] == xs[i + 1..];
    assert [xs[0]] + xs[1..i] == xs[..i];
  }

  /** A successful deletion in a well-formed store removes exactly one
      post, the one with that id, and keeps the others in order. */
  lemma DeletePostRemovesOne(db: Db, caller: User, postId: nat)
    requires Valid(db)
    requires DeletePost(db, caller, postId).response.status == 200
    ensures exists i :: (0 <= i < |db.posts| && db.posts[i].id == postId &&
      DeletePost(db, caller, postId).db.posts == db.posts[..i] + db.posts[i + 1..])
  {
    var i := DeletedPostIndex(db, caller, postId);
    WithoutUniquePost(db.posts, i);
  }

  /** A deletion that answers 200 found its post at some index. */
  lemma DeletedPostIndex(db: Db, caller: User, postId: nat) returns (i: nat)
    requires DeletePost(db, caller, postId).response.status == 200
    ensures i < |db.posts| && db.posts[i].id == postId
    ensures DeletePost(db, caller, postId).db.posts == WithoutPost(db.posts, postId)
  {
    assert PostExists(db, postId);
    var p :| p in db.posts && p.id == postId;
    i :| 0 <= i < |db.posts| && db.posts[i] == p;
  }

  // Account deletion.

  /** Account deletion is all-or-nothing: either the caller's row and every
      post it owns are gone and everything else is kept, or nothing
      changes. */
  lemma DeleteAccountAllOrNothing(db: Db, caller: User)
    requires Valid(db)
    ensures var r := DeleteAccount(db, caller);
      || (&& r.response.status == 200
          && Valid(r.db)
          && !HasUser(r.db.users, caller.id)
          && (forall p :: p in r.db.posts ==> p.userId != caller.id)
          && (forall u :: u in db.users && u.id != caller.id ==> u in r.db.users)
          && (forall p :: p in db.posts && p.userId != caller.id ==> p in r.db.posts))
      || (r.response.status == 404 && r.db == db)
  {
    DeleteAccountPreservesValid(db, caller);
  }

  /** Served through the middleware, an account deletion never reaches the
      roll-back branch: the authenticated caller is in the store. */
  lemma AuthenticatedAccountDeletionSucceeds(db: Db, c: Crypto, now: nat, header: Option<string>)
    requires AuthenticateToken(db, header).Authenticated?
    ensures Handle(db, c, now, DeleteAccountRequest(header)).response.status == 200
  {
    var t := BearerToken(header).value;
    var k: nat :| IsFirstWithToken(db.users, k, t) && db.users[k] == AuthenticateToken(db, header).user;
    assert db.users[k] in db.users;
  }

  // Creating posts.

  lemma {:induction false} UsersWithTokenSingle(users: seq<User>, token: string, caller: User)
    requires UserIdsUnique(users)
    requires caller in users
    requires forall u :: u in users && u.token == token ==> u == caller
    requires caller.token == token
    ensures UsersWithToken(users, token) == [caller]
  {
    if users[0] == caller {
      forall u | u in users[1..]
        ensures u.token != token
      {
        var j :| 0 <= j < |users[1..]| && users[1..][j] == u;
        assert users[0].id != users[j + 1].id;
      }
      UsersWithTokenNone(users[1..], token);
      assert UsersWithToken(users, token) == [caller] + [];
    } else {
      assert users[0].token != token;
      assert caller in users[1..] by {
        var k :| 0 <= k < |users| && users[k] == caller;
        assert users[1..][k - 1] == caller;
      }
      assert forall u :: u in users[1..] ==> u in users;
      assert UserIdsUnique(users[1..]) by {
        forall i, j | 0 <= i < j < |users[1..]|
          ensures users[1..][i].id != users[1..][j].id
        {
          assert users[1..][i] == users[i + 1] && users[1..][j] == users[j + 1];
        }
      }
      UsersWithTokenSingle(users[1..], token, caller);
      assert UsersWithToken(users, token) == [] + [caller];
    }
  }

  lemma {:induction false} UsersWithTokenNone(users: seq<User>, token: string)
    requires forall u :: u in users ==> u.token != token
    ensures UsersWithToken(users, token) == []
  {
    if users != [] {
      assert users[0] in users;
      assert forall u :: u in users[1..] ==> u in users;
      UsersWithTokenNone(users[1..], token);
    }
  }

  /** When the caller alone holds its token, a post with non-blank content
      adds exactly one post: the trimmed content, owned by the caller,
      stamped with the clock, every existing post untouched. */
  lemma CreatePostBySoleHolder(db: Db, caller: User, content: string, now: nat)
    requires Valid(db)
    requires caller in db.users
    requires forall u :: u in db.users && u.token == caller.token ==> u == caller
    requires !AllWhitespace(content)
    ensures var r := CreatePost(db, caller, Some(content), now);
      && r.response.status == 201
      && r.db.posts == db.posts + [Post(db.nextPostId, caller.id, Trim(content), now)]
  {
    UsersWithTokenSingle(db.users, caller.token, caller);
    CreatePostInserts(db, caller, content, now, [caller]);
    InsertedOne(caller, db.nextPostId, Trim(content), now);
  }

  /** Non-blank content sent with a token some users hold appends the
      posts of those users. */
  lemma CreatePostInserts(db: Db, caller: User, content: string, now: nat, owners: seq<User>)
    requires !AllWhitespace(content) && owners == UsersWithToken(db.users, caller.token) && owners != []
    ensures var r := CreatePost(db, caller, Some(content), now);
      && r.response.status == 201
      && r.db.posts == db.posts + InsertedPosts(owners, db.nextPostId, Trim(content), now)
  {
    assert content != [];
    assert CreatePost(db, caller, Some(content), now) == CreatedOutcome(db, caller, Trim(content), now);
  }

  lemma InsertedOne(u: User, firstId: nat, content: string, now: nat)
    ensures InsertedPosts([u], firstId, content, now) == [Post(firstId, u.id, content, now)]
  {
    assert [u][1..] == [];
  }

  lemma InsertedTwo(a: User, b: User, firstId: nat, content: string, now: nat)
    ensures InsertedPosts([a, b], firstId, content, now)
      == [Post(firstId, a.id, content, now), Post(firstId + 1, b.id, content, now)]
  {
    assert [a, b][1..] == [b] && [b][1..] == [];
  }

  // What a shared token does.

  /** Moving the last character of the e-mail to the front of the password
      leaves the hashed input, and so the token, unchanged: the two parts
      are concatenated with no separator. */
  lemma TokensCollideOnShift(c: Crypto, email: string, ch: char, password: string)
    ensures GenerateToken(c, email + [ch], password) == GenerateToken(c, email, [ch] + password)
  {
    assert (email + [ch]) + password == email + ([ch] + password);
  }

  const FirstEmail := "a@b.cox"
  const FirstPassword := "Abcdefg1"
  const SecondEmail := "a@b.co"
  const SecondPassword := "xAbcdefg1"

  /** Two different sign-ups that both pass validation receive the same
      token whatever SHA-256 is. */
  lemma TokenInputsCollide(c: Crypto)
    ensures SignupInputOk(Some(FirstEmail), Some(FirstPassword))
    ensures SignupInputOk(Some(SecondEmail), Some(SecondPassword))
    ensures NormalizeEmail(FirstEmail) == FirstEmail && NormalizeEmail(SecondEmail) == SecondEmail
    ensures FirstEmail != SecondEmail
    ensures GenerateToken(c, FirstEmail, FirstPassword) == GenerateToken(c, SecondEmail, SecondPassword)
  {
    FirstInputOk();
    SecondInputOk();
    ExampleTokensEqual(c);
  }

  lemma FirstInputOk()
    ensures SignupInputOk(Some(FirstEmail), Some(FirstPassword))
    ensures NormalizeEmail(FirstEmail) == FirstEmail
  {
    FirstEmailOk();
    FirstPasswordOk();
  }

  lemma SecondInputOk()
    ensures SignupInputOk(Some(SecondEmail), Some(SecondPassword))
    ensures NormalizeEmail(SecondEmail) == SecondEmail
  {
    SecondEmailOk();
    SecondPasswordOk();
  }

  lemma ExampleTokensEqual(c: Crypto)
    ensures GenerateToken(c, FirstEmail, FirstPassword) == GenerateToken(c, SecondEmail, SecondPassword)
  {
    TokensCollideOnShift(c, SecondEmail, 'x', FirstPassword);
    assert SecondEmail + "x" == FirstEmail;
    assert "x" + FirstPassword == SecondPassword;
  }

  lemma FirstEmailOk()
    ensures EmailRegex(FirstEmail) && NormalizeEmail(FirstEmail) == FirstEmail
  {
    PlainAddress(FirstEmail, 1, 3);
  }

  lemma SecondEmailOk()
    ensures EmailRegex(SecondEmail) && NormalizeEmail(SecondEmail) == SecondEmail
  {
    PlainAddress(SecondEmail, 1, 3);
  }

  lemma FirstPasswordOk()
    ensures IsStrongPassword(FirstPassword)
  {
    StrongExample(FirstPassword, 1, 0, 7);
  }

  lemma SecondPasswordOk()
    ensures IsStrongPassword(SecondPassword)
  {
    StrongExample(SecondPassword, 0, 1, 8);
  }

  lemma PrintableNotWhitespace(c: char)
    requires '!' <= c <= '~'
    ensures !IsWhitespace(c)
  {
  }

  /** A printable, lower-case address with a single `@` at `at` and a dot
      at `dot` inside the domain passes the check and is its own normal
      form. */
  lemma PlainAddress(s: string, at: nat, dot: nat)
    requires forall i :: 0 <= i < |s| ==> '!' <= s[i] <= '~' && !IsAsciiUpper(s[i])
    requires 0 < at < |s| && s[at] == '@'
    requires forall j :: 0 <= j < |s| && j != at ==> s[j] != '@'
    requires at + 1 < dot < |s| - 1 && s[dot] == '.'
    ensures EmailRegex(s) && NormalizeEmail(s) == s
  {
    forall i | 0 <= i < |s|
      ensures !IsWhitespace(s[i])
    {
      PrintableNotWhitespace(s[i]);
    }
    assert FirstIndex(s, IsAtSign) == Some(at);
    NormalizedAddress(s);
  }

  lemma NormalizedAddress(s: string)
    requires s != [] && !IsWhitespace(s[0]) && !IsWhitespace(s[|s| - 1])
    requires NoAsciiUpper(s)
    ensures NormalizeEmail(s) == s
  {
    TrimOfPadded([], s, []);
    assert [] + s + [] == s;
    LowerFixedPoints(s);
  }

  lemma StrongExample(p: string, lower: nat, upper: nat, digit: nat)
    requires |p| >= 8 && forall j :: 0 <= j < |p| ==> !IsLineTerminator(p[j])
    requires lower < |p| && IsAsciiLower(p[lower])
    requires upper < |p| && IsAsciiUpper(p[upper])
    requires digit < |p| && IsAsciiDigit(p[digit])
    ensures IsStrongPassword(p)
  {
  }

  lemma UsersWithTokenPair(a: User, b: User)
    requires a.token == b.token
    ensures UsersWithToken([a, b], a.token) == [a, b]
  {
    assert [a, b][1..] == [b] && [b][1..] == [];
  }

  /** With two accounts sharing a token, a post sent with it is inserted
      once for each of the two accounts. */
  lemma SharedTokenDoublesPosts(db: Db, a: User, b: User, content: string, now: nat)
    requires db.users == [a, b] && a.token == b.token
    requires !AllWhitespace(content)
    ensures var r := CreatePost(db, a, Some(content), now);
      && r.response.status == 201
      && r.db.posts == db.posts + [Post(db.nextPostId, a.id, Trim(content), now),
                                   Post(db.nextPostId + 1, b.id, Trim(content), now)]
  {
    UsersWithTokenPair(a, b);
    CreatePostForTwoHolders(db, a, b, content, now);
  }

  lemma CreatePostForTwoHolders(db: Db, a: User, b: User, content: string, now: nat)
    requires UsersWithToken(db.users, a.token) == [a, b]
    requires !AllWhitespace(content)
    ensures var r := CreatePost(db, a, Some(content), now);
      && r.response.status == 201
      && r.db.posts == db.posts + [Post(db.nextPostId, a.id, Trim(content), now),
                                   Post(db.nextPostId + 1, b.id, Trim(content), now)]
  {
    InsertedTwo(a, b, db.nextPostId, Trim(content), now);
    CreatePostInserts(db, a, content, now, [a, b]);
  }

  /** The same token authenticates only as the first of the two rows in
      table order. */
  lemma SharedTokenAuthenticatesFirst(db: Db, a: User, b: User)
    requires db.users == [a, b] && a.token == b.token && a.token != [] && ' ' !in a.token
    ensures AuthenticateToken(db, Some("Bearer " + a.token)) == Authenticated(a)
  {
    BearerTokenOfBearer(a.token);
    assert db.users[0] == a;
    var r := AuthenticateToken(db, Some("Bearer " + a.token));
    assert r.Authenticated?;
    var k: nat :| IsFirstWithToken(db.users, k, a.token) && db.users[k] == r.user;
    assert k == 0;
  }

  /** Sign-up of valid input with an address not yet registered succeeds
      and appends one user holding the normalised address and its token. */
  lemma SignupOfFreshAddress(db: Db, c: Crypto, email: string, password: string,
                             username: Option<string>, role: Option<string>) returns (u: User)
    requires SignupInputOk(Some(email), Some(password))
    requires forall w :: w in db.users ==> w.email != NormalizeEmail(email)
    ensures var r := Signup(db, c, Some(email), Some(password), username, role);
      && r.response.status == 201
      && r.db.users == db.users + [u]
      && u.email == NormalizeEmail(email)
      && u.token == GenerateToken(c, NormalizeEmail(email), password)
  {
    var r := Signup(db, c, Some(email), Some(password), username, role);
    u := r.db.users[|db.users|];
  }

  /** Two valid sign-ups with different addresses but equal hashed input,
      like the pair in `TokenInputsCollide`, both succeed one after the
      other on an empty store and leave two accounts with one token. */
  lemma CollidingSignups(c: Crypto, e1: string, p1: string, e2: string, p2: string)
    requires SignupInputOk(Some(e1), Some(p1)) && SignupInputOk(Some(e2), Some(p2))
    requires NormalizeEmail(e1) != NormalizeEmail(e2)
    requires GenerateToken(c, NormalizeEmail(e1), p1) == GenerateToken(c, NormalizeEmail(e2), p2)
    ensures var db1 := Signup(EmptyDb, c, Some(e1), Some(p1), None, None).db;
      var db2 := Signup(db1, c, Some(e2), Some(p2), None, None).db;
      && |db2.users| == 2
      && db2.users[0].token == db2.users[1].token
      && db2.users[0].email != db2.users[1].email
  {
    var u1 := FirstSignup(c, e1, p1);
    var db1 := Signup(EmptyDb, c, Some(e1), Some(p1), None, None).db;
    SignupAfterOne(c, db1, u1, e2, p2);
  }

  lemma FirstSignup(c: Crypto, email: string, password: string) returns (u: User)
    requires SignupInputOk(Some(email), Some(password))
    ensures var db1 := Signup(EmptyDb, c, Some(email), Some(password), None, None).db;
      && db1.users == [u]
      && u.email == NormalizeEmail(email)
      && u.token == GenerateToken(c, NormalizeEmail(email), password)
  {
    u := SignupOfFreshAddress(EmptyDb, c, email, password, None, None);
  }

  lemma SignupAfterOne(c: Crypto, db1: Db, u1: User, email: string, password: string)
    requires db1.users == [u1] && u1.email != NormalizeEmail(email)
    requires SignupInputOk(Some(email), Some(password))
    ensures var db2 := Signup(db1, c, Some(email), Some(password), None, None).db;
      && |db2.users| == 2 && db2.users[0] == u1
      && db2.users[1].email == NormalizeEmail(email)
      && db2.users[1].token == GenerateToken(c, NormalizeEmail(email), password)
  {
    OtherAddress(db1.users, u1, NormalizeEmail(email));
    var u2 := SignupOfFreshAddress(db1, c, email, password, None, None);
    var users2 := Signup(db1, c, Some(email), Some(password), None, None).db.users;
    PairOfRows(users2, u1, u2);
  }

  lemma OtherAddress(users: seq<User>, u1: User, email: string)
    requires users == [u1] && u1.email != email
    ensures forall w :: w in users ==> w.email != email
  {
  }

  lemma PairOfRows(users: seq<User>, u1: User, u2: User)
    requires users == [u1] + [u2]
    ensures |users| == 2 && users[0] == u1 && users[1] == u2
  {
  }

  // Listing.

  /** A search term that is blank after trimming is the same as none. */
  lemma BlankSearchIsNoSearch(db: Db, term: string)
    requires AllWhitespace(term)
    ensures ListPosts(db, Some(term)) == ListPosts(db, None)
  {
  }

  /** In a well-formed store, every listed row is a post whose author
      exists, carrying that author's username and token. */
  lemma ListedRowsHaveAuthors(db: Db, search: Option<string>)
    ensures forall x :: x in ListPosts(db, search) ==>
      exists p, u :: p in db.posts && u in db.users && u.id == p.userId &&
        x == PostRow(p.id, p.content, p.createdAt, u.username, u.token)
  {
  }
}
