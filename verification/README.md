# Posts board: server handlers and post helpers in Dafny

This project models the logic of a small posts board.

- **The Express server** (`server/App.js`). The Postgres store becomes an immutable value `Db`: the `users` and `posts` tables as sequences of rows, plus the two serial counters. Each route handler is a pure transition `Outcome(db', response)`:
  - `POST /signup` and `POST /login`;
  - the `AuthenticateToken` middleware;
  - `GET /posts`, `POST /post` and `DELETE /post/:postId`;
  - `DELETE /delete-account`;
  - the operator function `ChangeUserRole`.

  `Server.Handle` puts all routes behind one entry point. `ServerProps.Run` folds it over a sequence of requests. The sign-up checks `EmailRegex` and `IsStrongPassword` are character-level predicates, each proved equal to the language of its regular expression. SHA-256 and bcrypt are function-valued fields of a `Crypto` value. The only fact about bcrypt the model uses is that a password matches its own hash (`BcryptSound`), and it enters as a hypothesis.
- **The client helpers of the posts page** (`client/src/Modules/Posts.jsx`):
  - `ExtractUrls` is a left-to-right scanner. It comes with a declarative description of the matches and a proof that the scanner is the only solution of that description.
  - The part-splitting loop of `EmbedLinksWithImageCheck` is a method with loop invariants. It is proved to reproduce the content and to alternate text and URL parts exactly as the matches dictate.
  - Also modelled: the classification of parts when rendering, the delete-button gate `CanDelete` of `PostItem`, the row mapping and search parameter of `FetchPosts`, and the request `AddPost` builds.

Modules: `Wrappers` (Option/Result), `Text` (ECMAScript whitespace, `trim`, ASCII `toLowerCase`, `indexOf`, `split`), `Validation`, `Store`, `Api`, `Auth`, `Listing`, `Server`, `ServerProps`, `Urls`, `Segments`, `Client`.

Some behaviour of the code is modelled as written:

- **Tokens are not unique.** The token is the SHA-256 of e-mail and password concatenated with no separator, so two valid sign-ups can share one. The middleware then authenticates the first row in table order that holds the token. `POST /post` inserts one post for every user holding the caller's token. The non-admin delete gate asks whether some owner of the post holds the caller's token. `ServerProps` proves these consequences.
- **Roles are free text.** `ServerProps` shows that no HTTP request can create an `Admin`.
- **Line terminators in passwords.** The code's password regex rejects any password containing a line terminator, because `.` does not match one. A description that only asks for length and the three character classes would accept such a password. The model follows the code.

## Model

| member | source | states |
|---|---|---|
| Text.Trim | server/App.js:203 | `trim` returns a slice of the input with only whitespace before and after it; the slice is empty exactly for an all-whitespace input, and otherwise neither starts nor ends with whitespace |
| Text.TrimOfPadded | server/App.js:203 | trimming a string padded on both sides with whitespace gives back the unpadded string, when that string itself neither starts nor ends with whitespace |
| Text.TrimIdempotent | client/src/Modules/Posts.jsx:42 | trimming twice is trimming once, so re-trimming an already trimmed search term on the server changes nothing |
| Text.Lower | server/App.js:203 | `toLowerCase` keeps the length, lowers each ASCII capital by 32 code points, leaves every other character alone, and leaves no ASCII capital |
| Text.LowerFixedPoints | server/App.js:204 | lowering leaves a string unchanged exactly when it has no ASCII capital, and lowering twice is lowering once |
| Text.IndexOf | client/src/Modules/Posts.jsx:180 | `indexOf(sub, from)` returns the first occurrence at or after the clamped start, or -1 exactly when no occurrence starts there |
| Text.FirstIndex | server/App.js:50 | returns the first position whose element satisfies the predicate, and none exactly when no element does |
| Text.Split | client/src/Modules/Posts.jsx:168 | `split("\n")` yields at least one field and no field contains the separator |
| Text.JoinSplit | client/src/Modules/Posts.jsx:192 | joining the fields of a split with the separator gives back the original string |
| Text.SplitJoin | client/src/Modules/Posts.jsx:192 | splitting the join of separator-free fields gives back the fields |
| Validation.EmailRegexCorrect | server/App.js:23 | the direct e-mail check accepts exactly the strings of the form field `@` field `.` field, each field a non-empty run of characters that are neither whitespace nor `@` |
| Validation.EmailOfFields | server/App.js:23 | any three such fields joined with `@` and `.` pass the e-mail check |
| Validation.EmailRejectsSecondAt | server/App.js:23 | any string holding two `@` signs fails the e-mail check |
| Validation.StrongPasswordCorrect | server/App.js:25-28 | the direct password check accepts exactly what the three lookaheads and `.{8,}$` accept |
| Validation.LineBreakMakesPasswordWeak | server/App.js:26 | a password containing a line terminator is never strong |
| Store.UsersWithToken | server/App.js:100 | the users selected by `WHERE token = $2` are exactly the users holding that token |
| Auth.BearerToken | server/App.js:34 | the second space-separated field of the header, when present, is non-empty and contains no space |
| Auth.BearerTokenOfBearer | server/App.js:34 | the header `Bearer <t>` yields `t` for any non-empty `t` without spaces |
| Auth.BearerTokenNeedsSpace | server/App.js:34-37 | a header without a space yields no token, so the middleware answers "Token required" |
| Auth.AuthenticateToken | server/App.js:33-56 | "Token required" exactly when the header has no second field; "Invalid token" exactly when no user holds the token; otherwise the first user holding it |
| Listing.JoinRows | server/App.js:64-66 | the joined rows are exactly one row per pair of a post and a user with that post's `userid`, carrying the user's username and token |
| Listing.JoinRowsOnePerPost | server/App.js:64-66 | with unique user ids and every post's owner present, the join has exactly one row per post, in post order, and row k is post k joined with its owner |
| Listing.JoinRowsOfValid | server/App.js:64-66 | in a well-formed store the join loses no post and invents none: one row per post, in post order, each the post with its owner |
| Listing.FilterRows | server/App.js:70-73 | keeps exactly the rows whose content or username contains the term, ignoring ASCII case, with their multiplicities; a null username never matches |
| Listing.SortNewestFirst | server/App.js:75 | the result is ordered by creation time, newest first, and has the input's length |
| Listing.SortNewestFirstPermutes | server/App.js:75 | the sorted rows are a permutation of the input |
| Listing.InsertNewestFirst | server/App.js:75 | inserting into a newest-first list keeps it newest-first and adds one row |
| Listing.NewestLimited | server/App.js:75 | exactly min(n, 500) of the n candidate rows, newest first, a sub-multiset of the candidates, all of them when there are at most 500, and every row left out is no newer than every row kept |
| Listing.Candidates | server/App.js:63-73 | with a blank term the candidates are exactly the joined rows, in order; otherwise they are the joined rows that match the term, each as often as in the join |
| Listing.ListPosts | server/App.js:59-87 | the listing has exactly min(n, 500) of the n candidate joined rows, newest first, each matching a non-blank term, and drops only rows no newer than those it keeps |
| Server.SignupRole | server/App.js:204 | the stored role is the trimmed, lowered supplied role, or `User` when absent or blank, and is never `Admin` |
| Server.StoredUsername | server/App.js:230 | `Username \|\| null`: the username is stored exactly when it is present and non-empty |
| Server.Signup | server/App.js:196-242 | 400 exactly when the input is bad, with "Email and Password required" exactly when a field is missing or empty, "Invalid email format" exactly when both are present and the normalised e-mail fails the pattern, and the weak-password message exactly when both are present, the e-mail passes and the password fails its check; 409 "Email already registered" exactly when the input is good and the normalised e-mail is taken; otherwise 201 appending one user with the derived token and role; the store is unchanged unless 201 |
| Server.Login | server/App.js:245-276 | never changes the store; 400 for a missing field; 200 exactly when a user has the normalised e-mail and bcrypt accepts the password, returning that user's token and role; otherwise the one 401 "Invalid credentials" |
| Server.GetPosts | server/App.js:59-87 | answers 200 with the listing for the search term and changes nothing |
| Server.InsertedPosts | server/App.js:98-103 | one new post per selected user, with consecutive ids, the trimmed content and the clock |
| Server.CreatePost | server/App.js:90-123 | 400 "Post content cannot be empty" for absent or blank content; 400 "User not found" exactly when no user holds the caller's token; 201 exactly when the content is not blank and some user holds the token, and then one post per such user is appended with consecutive ids, the trimmed content and the clock, the users untouched, and the answer describes the first new post; the store is unchanged unless 201 |
| Server.WithoutPost | server/App.js:132 | removes exactly the posts with that id and keeps the others with their multiplicities |
| Server.DeletePost | server/App.js:126-162 | 200 exactly when the post exists and the caller is `Admin` or the post's owner holds the caller's token, and then only that post is removed; otherwise 404 with the store unchanged |
| Server.PostsNotOwnedBy | server/App.js:170 | keeps exactly the posts of other users, with their multiplicities |
| Server.UsersWithoutId | server/App.js:172-175 | keeps exactly the users with another id, and shrinks exactly when the id is present |
| Server.DeleteAccount | server/App.js:166-190 | 200 exactly when the caller's row exists, removing that row and all its posts; otherwise 404 with the store as before the transaction |
| Server.SetRole | server/App.js:287-290 | sets the role of exactly the users with that e-mail and leaves everyone else unchanged |
| Server.ChangeUserRole | server/App.js:278-295 | fails with no change for a missing argument, for a role other than `User` or `Admin` after trimming, or when no user has the normalised e-mail; on success only that user's role changes |
| Server.Handle | server/App.js:33-242 | login, listing and the root route never change the store; a protected route rejected by the middleware answers its 401 and changes nothing, and once past it never answers 401 |
| ServerProps.HandlePreservesValid | server/App.js:59-242 | every request keeps e-mails unique, ids unique and below their counters, and every post's owner present |
| ServerProps.RunPreservesValid | server/App.js:59-242 | any sequence of requests from a well-formed store ends in a well-formed store |
| ServerProps.HandleCreatesNoAdmin | server/App.js:204 | no HTTP request produces an `Admin` user that was not already stored |
| ServerProps.RunCreatesNoAdmin | server/App.js:130 | from a store without administrators, no sequence of HTTP requests creates one |
| ServerProps.ChangeUserRolePromotes | server/App.js:278-295 | `ChangeUserRole` with `Admin` on a registered e-mail succeeds and changes only that user, to `Admin` |
| ServerProps.SignupThenLogin | server/App.js:226 | after a successful sign-up, logging in with any e-mail that normalises the same way and the same password returns the sign-up token and role and changes nothing |
| ServerProps.SecondSignupConflicts | server/App.js:218-222 | a second sign-up with a strong password whose e-mail normalises to a registered one gets 409 "Email already registered" and changes nothing (the password check comes first) |
| ServerProps.DeleteGatedOnOwnerOrAdmin | server/App.js:130-154 | for a caller alone with its token, deletion succeeds exactly for an `Admin` on an existing post or for the post's owner |
| ServerProps.RefusalLooksLikeMissing | server/App.js:150-151 | a refused non-admin gets the same answer and store for an existing post as for a missing one |
| ServerProps.DeletePostRemovesOne | server/App.js:126-156 | a successful deletion in a well-formed store removes exactly one post, keeping the others in order |
| ServerProps.DeleteAccountAllOrNothing | server/App.js:166-182 | account deletion either removes the caller and all its posts and keeps every other row, or changes nothing |
| ServerProps.AuthenticatedAccountDeletionSucceeds | server/App.js:172-180 | through the middleware the roll-back branch is never taken |
| ServerProps.CreatePostBySoleHolder | server/App.js:93-103 | for a caller alone with its token and non-blank content, exactly one post is appended: the trimmed content, owned by the caller, stamped with the clock |
| ServerProps.TokensCollideOnShift | server/App.js:30-31 | moving the last e-mail character to the front of the password keeps the token |
| ServerProps.TokenInputsCollide | server/App.js:30-31 | two different sign-ups that both pass validation share a token whatever the hash is |
| ServerProps.CollidingSignups | server/App.js:218-231 | two such sign-ups both succeed on an empty store and leave two accounts with one token |
| ServerProps.SharedTokenDoublesPosts | server/App.js:98-103 | with two accounts sharing a token, one post request inserts the post once for each of them |
| ServerProps.SharedTokenAuthenticatesFirst | server/App.js:50 | with two accounts sharing a token, the token authenticates the first row in table order |
| ServerProps.BlankSearchIsNoSearch | server/App.js:70 | a search term blank after trimming lists the same as no term |
| ServerProps.ListedRowsHaveAuthors | server/App.js:64-66 | every listed row is a stored post joined with its existing author's username and token |
| Urls.NextWhitespace | client/src/Modules/Posts.jsx:124 | the greedy `[^\s]+` ends at the first whitespace or at the end of the string |
| Urls.ScanIsValid | client/src/Modules/Posts.jsx:123-126 | the scanner's matches satisfy the declarative description: each starts at the first later position where the pattern matches and spans the maximal non-whitespace run |
| Urls.ValidScanUnique | client/src/Modules/Posts.jsx:123-126 | the description has only one solution, the scanner's |
| Urls.ValidScanSpans | client/src/Modules/Posts.jsx:123-126 | every match starts where `https?://` and a non-whitespace character occur, ends where the run ends, and matches are in order and do not overlap |
| Urls.ValidScanCovers | client/src/Modules/Posts.jsx:123-126 | every position where the pattern matches lies inside some match |
| Urls.ExtractUrls | client/src/Modules/Posts.jsx:123-126 | every extracted string is `http://` or `https://`, at least one more character, and no whitespace; the list is empty exactly when the pattern matches nowhere |
| Segments.PartsFromConcat | client/src/Modules/Posts.jsx:176-186 | concatenating the parts gives back the content |
| Segments.PartsFromUrls | client/src/Modules/Posts.jsx:176-186 | the URL parts, in order, are the extracted URLs |
| Segments.PartsFromKinds | client/src/Modules/Posts.jsx:176-186 | text parts are non-empty and never a whole URL; URL parts always are |
| Segments.IndexOfNextMatch | client/src/Modules/Posts.jsx:180 | `indexOf(Url, LastIndex)` lands on the start of the next match, never on an earlier copy of its text |
| Segments.PlaceUrl | client/src/Modules/Posts.jsx:180-183 | one step of the `forEach` pushes the gap text and the URL and moves `LastIndex` to the end of that match |
| Segments.SplitParts | client/src/Modules/Posts.jsx:176-186 | the loop builds exactly the parts the matches dictate, and their concatenation is the content |
| Segments.ShownText | client/src/Modules/Posts.jsx:192-197 | a text rendered as lines shows the text followed by one break, because every line, the last one included, is followed by `<br />`; between the breaks its lines are the text's own |
| Segments.RenderedPart | client/src/Modules/Posts.jsx:188-199 | a part renders as an embed exactly when it is a URL part; a URL part shows as itself and a text part shows as its text plus one trailing break |
| Segments.EmbedLinks | client/src/Modules/Posts.jsx:163-201 | nothing for empty content; the lines of the whole content when there is no URL, shown as the content plus one break; otherwise one rendering per part, an embed exactly for URL parts, each URL part shown as itself and each text part as its text plus one break; dropping the break after each rendering's last line gives back the content |
| Client.OrElse | client/src/Modules/Posts.jsx:53 | `x \|\| fallback` is the value when present and non-empty, the fallback otherwise |
| Client.MapRow | client/src/Modules/Posts.jsx:51-57 | id, content and time carry over; the username is the row's when that is present and non-empty and "Unknown" otherwise; the owner token is present exactly when the row's token is non-empty, and is that token |
| Client.OwnedByRowToken | client/src/Modules/Posts.jsx:208 | for a joined row, the server's ownership test for a token is the client's comparison with the row's token |
| Client.DeleteButtonMatchesServer | client/src/Modules/Posts.jsx:206-208 | for a session holding a user's token and role, the delete button shows exactly when the server would delete the post for that user |
| Client.SearchParam | client/src/Modules/Posts.jsx:42 | the parameter is absent exactly for a blank term; otherwise it is the trimmed, non-empty term |
| Client.SearchParamListsSame | client/src/Modules/Posts.jsx:42 | the listing for the sent parameter is the listing for the raw term |
| Client.AddPostRequest | client/src/Modules/Posts.jsx:7-21 | a request is sent exactly when the content is not blank and a token is stored, with the bearer header and the trimmed content |
| Client.AddPostCreatesOnePost | client/src/Modules/Posts.jsx:4-28 | the request `AddPost` sends for a user alone with its token creates exactly one post with the trimmed content |

## Left out

- Infrastructure failures are not modelled: the 500 answers of every handler and the `ROLLBACK` in the `catch` of account deletion.
- Concurrency is not modelled. The model is sequential, so the racy check-then-insert of sign-up and check-then-delete of post deletion cannot show. The atomicity of account deletion also holds only in this sequential model: `BEGIN`/`COMMIT` go through a pool that may use different connections.
- SHA-256 and bcrypt are uninterpreted functions, and salting is not modelled. `BcryptSound` (a password matches its own hash) is a hypothesis of the lemmas that need it.
- Listing.FilterRows: the search term is matched literally. ILIKE's wildcards `%` and `_` and its escape `\` are not modelled.
- Text.Lower: `toLowerCase` and ILIKE's case folding are modelled for ASCII letters only.
- Lengths are counted in characters, not UTF-16 code units.
- Rows read without `ORDER BY` come back in the model's table order: the user `AuthenticateToken` picks (server/App.js:42-50), the posts the `INSERT … SELECT` of `POST /post` creates (:100) and the `rows[0]` its 201 reports (:112-114). That order is insertion order, and updates such as `ChangeUserRole` (:288) keep a row in place. PostgreSQL promises no such order, so which of several holders of one token is picked is the model's choice.
- Listing.SortNewestFirst: rows with equal creation times come out in one fixed order. `ORDER BY createdat DESC` leaves that order to the database.
- Ids are natural numbers. A non-numeric `:postId`, which makes the query fail with 500, is not modelled. Serial counters never reuse an id.
- The database clock `now()` is a parameter of the request.
- The readline operator console (server/App.js:297-331) is I/O. Only `ChangeUserRole` itself is modelled.
- Express, CORS, dotenv and the pool setup are not modelled.
- UI is not modelled: React components, hooks, polling, image probing in `ImageOrLink` (whether a URL embeds as an image or a link), date formatting and the `typeof SetPosts` guards. `Segments.EmbedLinks` stops at the embed/text decision and the text with its breaks. Each `<br />` is written as a newline.
- The session storage is not modelled. `Token` and `UserRole` are passed in as values.
- `Client.DeleteButtonMatchesServer` assumes the stored role is the role of the user the server authenticates.
- The client's `DeletePost` and the reaction of every helper to the fetch response are forwarding only and are not modelled. Nor is the URL encoding of the search parameter.
- Request bodies whose fields are not strings (JSON numbers, objects) are not modelled, and neither is a `search` query parameter that is not a string. A field or parameter is absent or a string. A repeated parameter such as `?search=a&search=b` arrives as an array, `.trim()` then throws inside the `try` and `GET /posts` answers 500 "Failed to fetch posts" (server/App.js:60-86); the model has no such answer.
- The model does not assume that tokens are unique. The schema of the `users` table is not part of this model, so a `UNIQUE` constraint on `users.token` cannot be seen. The code never checks uniqueness before inserting (server/App.js:226-231). If the schema does declare the column unique, a colliding sign-up fails with 500 instead of succeeding, and the shared-token lemmas (`ServerProps.CollidingSignups`, `ServerProps.SharedTokenDoublesPosts`, `ServerProps.SharedTokenAuthenticatesFirst`) describe stores that cannot arise.
