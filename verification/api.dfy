/** The HTTP surface of the server as data: requests with their
    already-parsed inputs and responses with a status and a body. */
module Api {
  import opened Wrappers

  /** A row of the listing query: post columns joined with the author's
      `username` and `token`. */
  datatype PostRow = PostRow(
    id: nat,
    content: string,
    createdAt: nat,
    username: Option<string>,
    token: string)

  /** The `Post` object returned by `POST /post`. */
  datatype CreatedPost = CreatedPost(
    id: nat,
    content: string,
    createdAt: nat,
    username: string,
    ownerToken: string)

  datatype Body =
    | Error(message: string)
    | Credentials(token: string, role: string)
    | Posts(rows: seq<PostRow>)
    | Created(post: CreatedPost)
    | Message(text: string)

  datatype Response = Response(status: nat, body: Body)

  /** One request per route. Body fields and the query parameter are
      absent (`None`) or strings; `auth` is the `Authorization` header. */
  datatype Request =
    | RootRequest
    | SignupRequest(email: Option<string>, password: Option<string>, username: Option<string>, role: Option<string>)
    | LoginRequest(email: Option<string>, password: Option<string>)
    | PostsRequest(auth: Option<string>, search: Option<string>)
    | PostRequest(auth: Option<string>, content: Option<string>)
    | DeletePostRequest(auth: Option<string>, postId: nat)
    | DeleteAccountRequest(auth: Option<string>)
}
