/** The query behind `GET /posts`: posts joined with their authors,
    optionally filtered by a case-insensitive search term on content or
    username, newest first, at most 500 rows. */
module Listing {
  import opened Wrappers
  import opened Text
  import opened Store
  import opened Api

  /** The `LIMIT` of the listing query. */
  const MaxPosts: nat := 500

  function RowOf(p: Post, u: User): PostRow {
    PostRow(p.id, p.content, p.createdAt, u.username, u.token)
  }

  /** The join rows of one post: one per user whose id is its `userid`. */
  function RowsFor(p: Post, users: seq<User>): (rows: seq<PostRow>)
    ensures forall r :: r in rows <==> exists u :: u in users && u.id == p.userId && r == RowOf(p, u)
  {
    if users == [] then []
    else
      var rest := RowsFor(p, users[1..]);
      assert forall u :: u in users[1..] ==> u in users;
      assert forall u :: u in users ==> u == users[0] || u in users[1..];
      (if users[0].id == p.userId then [RowOf(p, users[0])] else []) + rest
  }

  /** `posts JOIN users ON posts.userid = users.id`, in post order. A post
      whose owner is missing contributes no row. */
  function JoinRows(posts: seq<Post>, users: seq<User>): (rows: seq<PostRow>)
    ensures forall r :: r in rows <==>
      exists p, u :: p in posts && u in users && u.id == p.userId && r == RowOf(p, u)
  {
    if posts == [] then []
    else
      var rest := JoinRows(posts[1..], users);
      assert forall p :: p in posts[1..] ==> p in posts;
      assert forall p :: p in posts ==> p == posts[0] || p in posts[1..];
      RowsFor(posts[0], users) + rest
  }

  /** `row` is `p` joined with one of its owners in `users`. */
  predicate JoinedWithOwner(row: PostRow, p: Post, users: seq<User>) {
    exists u :: u in users && u.id == p.userId && row == RowOf(p, u)
  }

  /** With unique user ids, a post joins to one row if its owner exists and
      to none otherwise. */
  lemma {:induction false} RowsForCount(p: Post, users: seq<User>)
    requires UserIdsUnique(users)
    ensures |RowsFor(p, users)| == if HasUser(users, p.userId) then 1 else 0
  {
    if users != [] {
      var tail := users[1..];
      assert UserIdsUnique(tail) by {
        forall i, j | 0 <= i < j < |tail|
          ensures tail[i].id != tail[j].id
        {
          assert tail[i] == users[i + 1] && tail[j] == users[j + 1];
        }
      }
      RowsForCount(p, tail);
      assert users == [users[0]] + tail;
      if users[0].id == p.userId {
        assert !HasUser(tail, p.userId) by {
          forall u | u in tail
            ensures u.id != p.userId
          {
            var m :| 0 <= m < |tail| && tail[m] == u;
            assert u == users[m + 1];
          }
        }
        assert HasUser(users, p.userId) by { assert users[0] in users; }
      } else {
        assert HasUser(users, p.userId) <==> HasUser(tail, p.userId) by {
          assert forall u :: u in users <==> u == users[0] || u in tail;
        }
      }
    }
  }

  /** With unique user ids and no orphan post, the join has exactly one row
      per post, in post order: the post with its owner. */
  lemma {:induction false} JoinRowsOnePerPost(posts: seq<Post>, users: seq<User>)
    requires UserIdsUnique(users)
    requires forall p :: p in posts ==> HasUser(users, p.userId)
    ensures |JoinRows(posts, users)| == |posts|
    ensures forall k :: 0 <= k < |posts| ==> JoinedWithOwner(JoinRows(posts, users)[k], posts[k], users)
  {
    if posts != [] {
      OwnedHeadAndTail(posts, users);
      JoinRowsOnePerPost(posts[1..], users);
      RowsForOfOwned(posts[0], users);
      JoinRowsStep(posts, users);
    }
  }

  lemma OwnedHeadAndTail(posts: seq<Post>, users: seq<User>)
    requires posts != []
    requires forall p :: p in posts ==> HasUser(users, p.userId)
    ensures HasUser(users, posts[0].userId)
    ensures forall p :: p in posts[1..] ==> HasUser(users, p.userId)
  {
    assert posts[0] in posts;
    assert forall p :: p in posts[1..] ==> p in posts;
  }

  /** A post whose owner exists, among users with unique ids, joins to
      exactly one row: itself with that owner. */
  lemma RowsForOfOwned(p: Post, users: seq<User>)
    requires UserIdsUnique(users) && HasUser(users, p.userId)
    ensures |RowsFor(p, users)| == 1 && JoinedWithOwner(RowsFor(p, users)[0], p, users)
  {
    RowsForCount(p, users);
    assert RowsFor(p, users)[0] in RowsFor(p, users);
  }

  /** One row for the first post, then one per later post, gives one row
      per post. */
  lemma JoinRowsStep(posts: seq<Post>, users: seq<User>)
    requires posts != []
    requires |RowsFor(posts[0], users)| == 1 && JoinedWithOwner(RowsFor(posts[0], users)[0], posts[0], users)
    requires |JoinRows(posts[1..], users)| == |posts[1..]|
    requires forall k :: 0 <= k < |posts[1..]| ==> JoinedWithOwner(JoinRows(posts[1..], users)[k], posts[1..][k], users)
    ensures |JoinRows(posts, users)| == |posts|
    ensures forall k :: 0 <= k < |posts| ==> JoinedWithOwner(JoinRows(posts, users)[k], posts[k], users)
  {
    JoinRowsCons(posts, users);
    ShiftedOwners(RowsFor(posts[0], users), JoinRows(posts[1..], users), posts, users);
  }

  lemma JoinRowsCons(posts: seq<Post>, users: seq<User>)
    requires posts != []
    ensures JoinRows(posts, users) == RowsFor(posts[0], users) + JoinRows(posts[1..], users)
  {
  }

  lemma ShiftedOwners(head: seq<PostRow>, rest: seq<PostRow>, posts: seq<Post>, users: seq<User>)
    requires posts != [] && |head| == 1 && JoinedWithOwner(head[0], posts[0], users)
    requires |rest| == |posts| - 1
    requires forall k :: 0 <= k < |posts[1..]| ==> JoinedWithOwner(rest[k], posts[1..][k], users)
    ensures forall k :: 0 <= k < |posts| ==> JoinedWithOwner((head + rest)[k], posts[k], users)
  {
    forall k | 1 <= k < |posts|
      ensures JoinedWithOwner((head + rest)[k], posts[k], users)
    {
      assert (head + rest)[k] == rest[k - 1] && posts[k] == posts[1..][k - 1];
    }
  }

  /** In a well-formed store the listing join loses no post and invents
      none. */
  lemma JoinRowsOfValid(db: Db)
    requires Valid(db)
    ensures |JoinRows(db.posts, db.users)| == |db.posts|
    ensures forall k :: 0 <= k < |db.posts| ==> JoinedWithOwner(JoinRows(db.posts, db.users)[k], db.posts[k], db.users)
  {
    JoinRowsOnePerPost(db.posts, db.users);
  }

  /** `hay ILIKE '%' || term || '%'`, the term taken literally. */
  predicate ILikeContains(hay: string, term: string) {
    Contains(Lower(hay), Lower(term))
  }

  /** `posts.content ILIKE $1 OR users.username ILIKE $1`; a null username
      never matches. */
  predicate RowMatches(row: PostRow, term: string) {
    || ILikeContains(row.content, term)
    || (row.username.Some? && ILikeContains(row.username.value, term))
  }

  /** The rows that match, each as often as in the input. */
  function FilterRows(rows: seq<PostRow>, term: string): (r: seq<PostRow>)
    ensures forall x :: multiset(r)[x] == if RowMatches(x, term) then multiset(rows)[x] else 0
    ensures forall x :: x in r <==> x in rows && RowMatches(x, term)
  {
    if rows == [] then []
    else
      var rest := FilterRows(rows[1..], term);
      assert rows == [rows[0]] + rows[1..];
      (if RowMatches(rows[0], term) then [rows[0]] else []) + rest
  }

  /** `ORDER BY createdat DESC`. */
  predicate NewestFirst(rows: seq<PostRow>) {
    forall i, j :: 0 <= i < j < |rows| ==> rows[i].createdAt >= rows[j].createdAt
  }

  /** Insertion of one row into a newest-first sequence. */
  function InsertNewestFirst(x: PostRow, rows: seq<PostRow>): (r: seq<PostRow>)
    requires NewestFirst(rows)
    ensures NewestFirst(r)
    ensures |r| == |rows| + 1
    ensures r[0] == x || (rows != [] && r[0] == rows[0])
  {
    if rows == [] || x.createdAt >= rows[0].createdAt then
      ConsNewestFirst(x, rows);
      [x] + rows
    else
      var rest := InsertNewestFirst(x, rows[1..]);
      ConsNewestFirst(rows[0], rest);
      [rows[0]] + rest
  }

  /** Insertion adds the row and loses none. */
  lemma {:induction false} InsertNewestFirstPermutes(x: PostRow, rows: seq<PostRow>)
    requires NewestFirst(rows)
    ensures multiset(InsertNewestFirst(x, rows)) == multiset(rows) + multiset{x}
  {
    if rows != [] && x.createdAt < rows[0].createdAt {
      InsertNewestFirstPermutes(x, rows[1..]);
      MultisetOfCons(rows);
    }
  }

  /** A row no older than the head of a newest-first sequence can go in
      front of it. */
  lemma ConsNewestFirst(y: PostRow, rest: seq<PostRow>)
    requires NewestFirst(rest)
    requires rest == [] || y.createdAt >= rest[0].createdAt
    ensures NewestFirst([y] + rest)
  {
    var s := [y] + rest;
    forall i, j | 0 <= i < j < |s|
      ensures s[i].createdAt >= s[j].createdAt
    {
      if i == 0 {
        assert s[j] == rest[j - 1];
      } else {
        assert s[i] == rest[i - 1] && s[j] == rest[j - 1];
      }
    }
  }

  /** An ordering of the rows, newest first. Rows with equal timestamps
      come in some order; Postgres promises none either. */
  function SortNewestFirst(rows: seq<PostRow>): (r: seq<PostRow>)
    ensures NewestFirst(r)
    ensures |r| == |rows|
  {
    if rows == [] then []
    else InsertNewestFirst(rows[0], SortNewestFirst(rows[1..]))
  }

  /** Sorting is a permutation. */
  lemma {:induction false} SortNewestFirstPermutes(rows: seq<PostRow>)
    ensures multiset(SortNewestFirst(rows)) == multiset(rows)
  {
    if rows != [] {
      var sorted := SortNewestFirst(rows[1..]);
      SortNewestFirstPermutes(rows[1..]);
      InsertNewestFirstPermutes(rows[0], sorted);
      MultisetOfCons(rows);
    }
  }

  lemma MultisetOfCons<T>(xs: seq<T>)
    requires xs != []
    ensures multiset(xs) == multiset(xs[1..]) + multiset{xs[0]}
  {
    assert xs == [xs[0]] + xs[1..];
  }

  /** `Request.query.search || ''`, trimmed: the effective search term. */
  function SearchTerm(search: Option<string>): string {
    Trim(search.GetOr(""))
  }

  /** The rows the query selects before ordering and limiting: all joined
      rows for a blank term, the matching ones otherwise. */
  function Candidates(db: Db, term: string): (r: seq<PostRow>)
    ensures forall x :: x in r ==> x in JoinRows(db.posts, db.users)
    ensures forall x :: x in r && term != [] ==> RowMatches(x, term)
    ensures term == [] ==> r == JoinRows(db.posts, db.users)
    ensures term != [] ==>
      forall x :: multiset(r)[x] == if RowMatches(x, term) then multiset(JoinRows(db.posts, db.users))[x] else 0
  {
    var rows := JoinRows(db.posts, db.users);
    if term == [] then rows else FilterRows(rows, term)
  }

  /** What `ORDER BY createdat DESC LIMIT 500` promises of the rows `r` it
      returns from `rows`: exactly min(|rows|, 500) of them, newest first;
      all of them when there are at most 500; and every row left out is no
      newer than every row kept. */
  predicate NewestSelection(r: seq<PostRow>, rows: seq<PostRow>) {
    && |r| == (if |rows| <= MaxPosts then |rows| else MaxPosts)
    && NewestFirst(r)
    && multiset(r) <= multiset(rows)
    && (|rows| <= MaxPosts ==> multiset(r) == multiset(rows))
    && (forall x :: x in rows && x !in r ==>
          forall i :: 0 <= i < |r| ==> x.createdAt <= r[i].createdAt)
  }

  /** `ORDER BY createdat DESC LIMIT 500` over `rows`. */
  function NewestLimited(rows: seq<PostRow>): (r: seq<PostRow>)
    ensures NewestSelection(r, rows)
    ensures forall x :: x in r ==> x in rows
  {
    var sorted := SortNewestFirst(rows);
    var n := if |sorted| <= MaxPosts then |sorted| else MaxPosts;
    SortNewestFirstPermutes(rows);
    PrefixOfNewestFirst(sorted, n);
    SameElements(rows, sorted);
    sorted[..n]
  }

  /** Sequences with the same multiset have the same elements. */
  lemma SameElements(a: seq<PostRow>, b: seq<PostRow>)
    requires multiset(a) == multiset(b)
    ensures forall x :: x in a <==> x in b
  {
    forall x
      ensures x in a <==> x in b
    {
      assert x in a <==> x in multiset(a);
      assert x in b <==> x in multiset(b);
    }
  }

  /** A prefix of a newest-first sequence is newest-first, holds part of
      its rows, and no row after it is newer than a row in it. */
  lemma PrefixOfNewestFirst(sorted: seq<PostRow>, n: nat)
    requires NewestFirst(sorted) && n <= |sorted|
    ensures NewestFirst(sorted[..n])
    ensures multiset(sorted[..n]) <= multiset(sorted)
    ensures n == |sorted| ==> sorted[..n] == sorted
    ensures forall x :: x in sorted && x !in sorted[..n] ==>
      forall i :: 0 <= i < n ==> x.createdAt <= sorted[i].createdAt
  {
    assert sorted == sorted[..n] + sorted[n..];
    assert multiset(sorted) == multiset(sorted[..n]) + multiset(sorted[n..]);
    assert forall j :: 0 <= j < n ==> sorted[j] in sorted[..n] by {
      forall j | 0 <= j < n
        ensures sorted[j] in sorted[..n]
      {
        assert sorted[..n][j] == sorted[j];
      }
    }
    forall x | x in sorted && x !in sorted[..n]
      ensures forall i :: 0 <= i < n ==> x.createdAt <= sorted[i].createdAt
    {
      var j :| 0 <= j < |sorted| && sorted[j] == x;
    }
  }

  /** The listing: the newest (at most 500) of the candidate rows. Every
      row returned is a joined row and, for a non-blank term, matches it. */
  function ListPosts(db: Db, search: Option<string>): (r: seq<PostRow>)
    ensures NewestSelection(r, Candidates(db, SearchTerm(search)))
    ensures forall x :: x in r ==> x in JoinRows(db.posts, db.users)
    ensures forall x :: x in r && SearchTerm(search) != [] ==> RowMatches(x, SearchTerm(search))
  {
    var candidates := Candidates(db, SearchTerm(search));
    var r := NewestLimited(candidates);
    assert forall x :: x in r ==> x in candidates;
    r
  }
}
