/** The abstract Postgres store of the server: the `users` and `posts`
    tables as sequences of rows, the serial counters that hand out ids, the
    foreign cryptography as uninterpreted functions, and the well-formedness
    the handlers maintain. */
module Store {
  import opened Wrappers
  import opened Text

  /** A row of `users`. `username` is nullable; `role` is free text. */
  datatype User = User(
    id: nat,
    email: string,
    username: Option<string>,
    passwordHash: string,
    token: string,
    role: string)

  /** A row of `posts`. `createdAt` is the server clock at insertion. */
  datatype Post = Post(id: nat, userId: nat, content: string, createdAt: nat)

  /** Both tables, in row order, with the next value of each id sequence. */
  datatype Db = Db(users: seq<User>, posts: seq<Post>, nextUserId: nat, nextPostId: nat)

  /** SHA-256 (hex digest) and bcrypt's hash and compare, which the model
      does not look inside. */
  datatype Crypto = Crypto(
    sha256Hex: string -> string,
    bcryptHash: string -> string,
    bcryptCompare: (string, string) -> bool)

  /** The one fact about bcrypt the model uses: a password matches its own
      hash. */
  ghost predicate BcryptSound(c: Crypto) {
    forall p :: c.bcryptCompare(p, c.bcryptHash(p))
  }

  /** The bearer token: the SHA-256 of the e-mail and the password
      concatenated with no separator. */
  function GenerateToken(c: Crypto, email: string, password: string): string {
    c.sha256Hex(email + password)
  }

  predicate HasUser(users: seq<User>, id: nat) {
    exists u :: u in users && u.id == id
  }

  predicate EmailsUnique(users: seq<User>) {
    forall i, j :: 0 <= i < j < |users| ==> users[i].email != users[j].email
  }

  predicate UserIdsUnique(users: seq<User>) {
    forall i, j :: 0 <= i < j < |users| ==> users[i].id != users[j].id
  }

  predicate PostIdsUnique(posts: seq<Post>) {
    forall i, j :: 0 <= i < j < |posts| ==> posts[i].id != posts[j].id
  }

  /** No post outlives its owner. */
  predicate NoOrphans(db: Db) {
    forall p :: p in db.posts ==> HasUser(db.users, p.userId)
  }

  /** What the schema and the handlers keep true of the store: unique
      e-mails, ids unique and below their sequence, and no orphan posts.
      Tokens are NOT required to be unique. */
  predicate Valid(db: Db) {
    && EmailsUnique(db.users)
    && UserIdsUnique(db.users)
    && (forall u :: u in db.users ==> u.id < db.nextUserId)
    && PostIdsUnique(db.posts)
    && (forall p :: p in db.posts ==> p.id < db.nextPostId)
    && NoOrphans(db)
  }

  /** `SELECT * FROM users WHERE email = $1`, first row. */
  function FindByEmail(users: seq<User>, email: string): Option<nat> {
    FirstIndex(users, (u: User) => u.email == email)
  }

  /** `SELECT … FROM users WHERE token = $1`, first row. */
  function FindByToken(users: seq<User>, token: string): Option<nat> {
    FirstIndex(users, (u: User) => u.token == token)
  }

  /** The users whose token is `token`, in table order. */
  function UsersWithToken(users: seq<User>, token: string): (r: seq<User>)
    ensures forall u :: u in r <==> u in users && u.token == token
    ensures |r| <= |users|
  {
    if users == [] then []
    else (if users[0].token == token then [users[0]] else []) + UsersWithToken(users[1..], token)
  }
}
