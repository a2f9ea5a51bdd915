# Social network backend: a verified model of the request handlers

This project models the request handlers of a small social network backend
written for Express and MongoDB. It covers the post, comment and user
controllers and the bearer-token middleware. Each handler becomes a pure
function from a database, a caller and a request to a new database and an
HTTP response. The properties come in two kinds:

- Contracts on each handler state its order of checks, its status codes and
  messages, and the rule that nothing but the intended document changes.
- Lemmas relate several handlers: round trips, the like toggle, the delete
  cascade, and the agreement between the feed, the ranking and the
  single-post views.

The database is an immutable `Store` with three sequences: users, posts and
comments. A `nextId` counter stands in for the ids the driver generates.
`Valid(s)` is the invariant that every mutating handler preserves:

- ids are distinct within each collection;
- e-mail addresses are distinct;
- every id is below the counter;
- no like list holds an id twice.

Library calls are parameters of the handlers:

- `safeObjectId` / `new ObjectId` becomes an `IdParser` (`string -> Option<ObjectId>`).
- `bcrypt.hash` becomes a `PasswordHasher`.
- `bcrypt.compare` becomes a `PasswordChecker`.
- `jwt.verify` becomes a `TokenVerifier`.

The clock is a `now: nat` argument. The caller that the middleware attaches
to the request (`req.userId`, `req.user`) is an `Option<Principal>`.

Files and modules:

| file | module | contents |
|---|---|---|
| wrappers.dfy | Wrappers | `Option` |
| text.dfy | Text | `String.prototype.trim` and `split(' ')`, with their characterisations |
| collections.dfy | Collections | first match, removal at an index, filter, key distinctness |
| sorting.dfy | Sorting | stable sort on a descending two-part key, and `$limit` |
| documents.dfy | Documents | the documents, the store, its invariant, lookups |
| enrichment.dfy | Enrichment | the `$lookup`/`$unwind`/`$addFields` joins and counters |
| http.dfy | Http | status codes, response bodies, replies |
| auth.dfy | Auth | the middleware and the caller it produces |
| posts.dfy | Posts | the post controller |
| comments.dfy | Comments | the comment controller |
| users.dfy | Users | the user controller |
| lifecycle.dfy | Lifecycle | properties relating several handlers |

The model follows the code, including these behaviours a reader may not
expect:

- Editing and deleting a post is for its author only. No admin exception
  exists (src/controllers/postController.js:226, :258).
- `updatePost` checks the content before it looks the post up. A caller
  who may not edit a post still gets 400 for blank content.
- `addComment` never checks that the post exists. A request without
  `post_id` is not refused either: `new ObjectId(undefined)` generates an
  id, and the comment is filed under it.
- `getPostComments` never checks that the post exists. An id with no post
  gets whatever comments are filed under it.
- `registerUser` and `loginUser` answer 500 when the password is missing,
  because bcrypt throws on it.
- `loginUser` returns the user's id and name, not a token.
- `getUserStats` answers 500 on a malformed id, because `new ObjectId`
  throws. It answers 200 with no user for an unknown id, rather than 404.

## Model

| member | source | states |
|---|---|---|
| Auth.Authenticate | src/middleware/auth.js:4-21 | A missing header, a first space-separated part other than `Bearer`, or an empty second part gives 401 "missing token". A token the verifier refuses gives 401 "invalid token". Success happens exactly when the scheme is `Bearer`, the token is non-empty and it verifies. The caller then carries the payload as `user` and its `userId` as `userId`. |
| Auth.BearerHeaderReachesVerifier | src/middleware/auth.js:5-19 | For a token without spaces, `Bearer <token>` passes exactly that token to the verifier. The verifier's answer decides between 401 and a caller built from the payload. |
| Auth.DoubleSpaceIsMissingToken | src/middleware/auth.js:6-9 | `Bearer  x`, with two spaces, splits to an empty second part. It gets 401 "missing token" whatever the verifier would say. |
| Auth.TrailingPartsIgnored | src/middleware/auth.js:6 | Only the second space-separated part is the token. Text after a further space does not change the outcome. |
| Auth.BearerCallerCarriesPayload | src/middleware/auth.js:13-17 | A request sent with `Bearer <token>` whose token verifies to a payload has a caller. Its id is the parse of the payload's `userId`. It counts as an admin exactly when the payload's role is "admin". It signs comments with the payload's username, or "User" when that is empty. |
| Auth.AuthorName | src/controllers/commentController.js:30 | The comment's author name is the token's username when that is non-empty, and "User" otherwise. It is never empty. |
| Auth.OtherSchemeRefused | src/middleware/auth.js:8-9 | Any scheme other than exactly `Bearer`, such as `bearer` or `Basic`, gets 401 before the verifier is consulted. |
| Text.Trim | src/controllers/postController.js:184 | The trimmed text is empty exactly when the input is all white space. A non-empty result neither starts nor ends with white space. |
| Text.TrimOfPadded | src/controllers/postController.js:184 | `trim` strips any white space around a text that has no white space at its ends, and gives back exactly that text. |
| Text.TrimIdempotent | src/controllers/postController.js:184 | Trimming twice is trimming once. |
| Text.Split | src/middleware/auth.js:6 | `split(' ')` gives at least one part. No part contains a space. Joining the parts with spaces gives back the input. |
| Text.SplitJoin | src/middleware/auth.js:6 | The converse round trip: splitting the space-join of space-free parts gives back those parts. |
| Text.SplitAtFirst | src/middleware/auth.js:6 | The first part of a split ends at the first space. The rest is the split of what follows. |
| Sorting.Sort | src/controllers/postController.js:18 | The result is a permutation of the input, ordered by the key, descending. |
| Sorting.Take | src/controllers/postController.js:75 | `$limit` keeps min(n, length) elements, and they are a prefix of the input. |
| Sorting.TakeKeepsBest | src/controllers/postController.js:74-75 | After a sort and a `$limit`, no element left out has a strictly larger key than one kept. |
| Enrichment.Enrich | src/controllers/postController.js:20-48 | The joined comments are exactly the comments whose `post_id` is the post's id. `commentsCount` is their number. `likesCount` is the length of `likes` when it is an array, and 0 otherwise. The author is a stored user with the post's `user_id`, and it is absent exactly when no user has that id. |
| Enrichment.AuthorOf | src/controllers/postController.js:28-40 | The author is the user with the post's `user_id`. When there is none, the post is kept with no author rather than dropped. |
| Enrichment.LikesCountIsLikers | src/controllers/postController.js:44-47 | For a like list without repeats, `likesCount` equals the number of distinct users who liked. |
| Posts.Feed | src/controllers/postController.js:17-50 | Every post appears exactly once, newest first. Each entry carries that post's joins and counters. |
| Posts.GetAllPosts | src/controllers/postController.js:13-56 | Always 200. The list holds every stored post exactly once, newest first, each with its comments, author and counters. |
| Posts.Top | src/controllers/postController.js:66-90 | Returns min(5, number of posts) posts, drawn from the stored posts. They are ordered by `likesCount`, then `created_at`, both descending. Each carries its like count and author. |
| Posts.TopOmitsNothingBetter | src/controllers/postController.js:74-75 | No post left out of the top five ranks strictly above one that is in it. |
| Posts.GetTopPosts | src/controllers/postController.js:62-96 | Always 200. The list holds min(5, number of posts) stored posts, most liked first and newest first among equally liked ones, each with its like count and author. |
| Posts.GetPostById | src/controllers/postController.js:105-143 | 400 on a malformed id, 404 when no post has the id, 200 exactly otherwise. A 200 response carries the stored post with that id, with its joins and counters. |
| Posts.CommentsOldestFirst | src/controllers/postController.js:159-162 | Exactly the comments whose `post_id` is the id, each as often as stored, ascending by `created_at`. |
| Posts.GetPostComments | src/controllers/postController.js:156-164 | 400 on a malformed id. Otherwise 200 with exactly the comments filed under the id, each as often as stored, oldest first. Whether a post has the id is not checked. |
| Posts.CreatePost | src/controllers/postController.js:176-195 | 401 without a caller id. 400 when the content is blank after trimming. Each failure leaves the store unchanged. Success appends exactly one post, with the caller as `user_id`, the trimmed content, an empty `likes` and a new id. Users and comments are untouched. |
| Posts.UpdatePost | src/controllers/postController.js:207-233 | Checks in this order: 400 malformed id, 401 no caller, 400 blank content, 404 no post, 403 not the author. Success changes only that post's content. Failures change nothing. The invariant is kept. |
| Posts.DeletePost | src/controllers/postController.js:242-264 | Checks in this order: 400, 401, 404, 403 (author only). On success no comment on the post remains, the post list is the stored one with exactly the found post removed, and every other post and comment survives unchanged. The invariant is kept. |
| Posts.RemoveCommentsOn | src/controllers/postController.js:261 | `deleteMany({post_id})` removes exactly the comments on the post and keeps every other comment as often as it was stored. |
| Posts.RemovePostAt | src/controllers/postController.js:262 | `deleteOne({_id})` removes exactly that one post. |
| Posts.Cascade | src/controllers/postController.js:260-262 | The two deletes together remove every comment on the post, keep every other comment as often as stored, keep every other post and add none, and leave one post fewer: the post list is the stored one with exactly that post removed. From a valid store the result is valid and no longer holds the id. |
| Posts.CascadeKeepsValid | src/controllers/postController.js:260-262 | Removing a post's comments and then the post keeps the store invariant, and the id is gone afterwards. |
| Posts.Pull | src/controllers/postController.js:292-297 | `$pull` leaves a list that no longer holds the caller. Every other id keeps its count. |
| Posts.AddToSet | src/controllers/postController.js:300-303 | `$addToSet` appends the caller once. The set of likers gains exactly the caller. |
| Posts.LikePost | src/controllers/postController.js:273-305 | Checks in this order: 400, 401, 404. A caller already in `likes` is removed (`liked: false`). Anyone else is added once (`liked: true`). An absent `likes` counts as empty. Only that post's `likes` changes. Like lists stay free of repeats. |
| Posts.PullKeepsDistinct | src/controllers/postController.js:293-296 | `$pull` never introduces a repeated id. |
| Posts.AddToSetKeepsDistinct | src/controllers/postController.js:300-303 | `$addToSet` of an id not yet present keeps the list free of repeats. |
| Comments.AddComment | src/controllers/commentController.js:14-44 | Checks in this order: 400 malformed `post_id`, 401 no caller, 400 blank text. Whether the post exists is never checked. A missing `post_id` files the comment under a newly generated id that no post has. Success appends exactly one comment, with the caller as `user_id`, the trimmed text, and the token's username or "User" as author name. |
| Comments.DeleteComment | src/controllers/commentController.js:49-76 | Checks in this order: 400, 401, 404, 403. Deletion is allowed exactly when the caller wrote the comment or is an admin. Success removes exactly that comment. |
| Comments.UpdateComment | src/controllers/commentController.js:82-116 | Checks in this order: 400 id, 401, 400 blank text, 404, 403, with the same owner-or-admin rule. Success changes only that comment's text. |
| Users.RegisterUser | src/controllers/userController.js:7-36 | An e-mail already in use gives 400 and changes nothing. A missing password then gives 500, because bcrypt throws, and changes nothing. Success happens exactly when no user has the e-mail and a password is given. It appends one user with role "user", an empty bio, the default avatar and the hash of the password. Posts and comments are untouched. |
| Users.LoginUser | src/controllers/userController.js:39-65 | An unknown e-mail gives 400 "User not found". A missing password then gives 500, because bcrypt throws. A password the checker rejects gives 400 "Invalid password". Success happens exactly when the checker accepts the password for the user with the e-mail, and reports the id and name of the first user with that e-mail. |
| Users.PostStats | src/controllers/userController.js:73-90 | `totalPosts` is the number of posts whose `user_id` is the id. `totalLikesReceived` is the sum of their `metrics.likes_count`, where a missing metric adds 0. With no such posts, both totals are 0. |
| Users.GetUserStats | src/controllers/userController.js:68-95 | 500 on a malformed id. Otherwise 200 with the post count of that id, the sum of those posts' like metrics, and the first user with the id, without the password hash, or no user when none has the id. |
| Documents.PublicHidesOnlyHash | src/controllers/userController.js:85 | Two users have the same public view exactly when they differ at most in their hash. |
| Users.PostStatsAppend | src/controllers/userController.js:76-79 | The statistics of two runs of posts add up. |
| Users.PostStatsReadOwnerAndMetric | src/controllers/userController.js:74-79 | The statistics depend only on each post's owner and `metrics.likes_count`, never on the `likes` arrays. |
| Lifecycle.PullThenAdd | src/controllers/postController.js:292-303 | Unliking and liking again restores who likes the post. |
| Lifecycle.AddThenPull | src/controllers/postController.js:292-303 | Liking and unliking again restores the like list itself. |
| Lifecycle.LikeStep | src/controllers/postController.js:283-305 | A permitted toggle reports `liked` exactly when the caller was not among the likers, and replaces only that post's `likes`, by `$pull` of the caller when present and by `$addToSet` otherwise. |
| Lifecycle.LikeKeepsPostPosition | src/controllers/postController.js:283-287 | A successful toggle leaves the post where the lookup finds it. |
| Lifecycle.LikeTwiceRestoresLikers | src/controllers/postController.js:283-305 | Two toggles by the same caller flip `liked` and restore who likes the post. Nothing else changes. When `likes` was an array without the caller, the whole store is restored. |
| Lifecycle.CreateThenDeletePost | src/controllers/postController.js:176-264 | A created post that its author deletes leaves the store as it was, apart from the id counter, provided no comment already points at the new post's id: `addComment` accepts any `post_id`, and the delete's cascade would remove such a comment too. |
| Lifecycle.AddThenDeleteComment | src/controllers/commentController.js:14-76 | A comment that its author deletes leaves the store as it was, apart from the id counter. That counter moved on by two when the request had no `post_id`. |
| Lifecycle.RegisterThenLogin | src/controllers/userController.js:7-65 | A new account can log in with the password it registered with. The login reports that account's id and name. |
| Lifecycle.RegisterTwiceRefused | src/controllers/userController.js:13-16 | A second registration with the same e-mail gets 400 and changes nothing. |
| Lifecycle.AdminCannotChangeOthersPost | src/controllers/postController.js:226 | An admin who did not write a post gets 403 on editing or deleting it. |
| Lifecycle.BlankContentBeforeOwnership | src/controllers/postController.js:217-226 | Blank content gets 400 before existence or ownership is looked at. |
| Lifecycle.AdminModeratesAnyComment | src/controllers/commentController.js:66-69 | An admin may delete or edit any existing comment. |
| Lifecycle.PostAuthorCannotModerateComments | src/controllers/commentController.js:102-105 | Writing the post grants nothing. A non-admin gets 403 on someone else's comment under their own post. |
| Lifecycle.DeletePostCreatesNoOrphans | src/controllers/postController.js:260-262 | Neither the cascade's first step nor its end leaves a comment pointing at a missing post that was not already orphaned. |
| Lifecycle.CascadeCreatesNoOrphans | src/controllers/postController.js:260-262 | Every comment orphaned after the whole cascade was already orphaned before it. |
| Lifecycle.PostFirstWouldOrphan | src/controllers/postController.js:260-262 | Deleting the post before its comments would orphan each of them. |
| Lifecycle.AddCommentMayOrphan | src/controllers/commentController.js:19-38 | A comment on an id with no post is still added, and is orphaned. |
| Lifecycle.MissingPostIdOrphans | src/controllers/commentController.js:17-38 | A request without `post_id` from an authenticated caller with non-blank text gets 201. The comment it adds is orphaned from the start. |
| Lifecycle.CommentsListedWithoutPost | src/controllers/postController.js:156-162 | Every comment filed under an id is listed for that id, whether or not a post has it. |
| Lifecycle.CreatePostCountsForAuthor | src/controllers/userController.js:74-79 | A new post adds one to its author's post count and nothing to the likes total. |
| Lifecycle.LikesLeaveStatsAlone | src/controllers/userController.js:79 | Liking or unliking leaves every user's statistics unchanged. |
| Lifecycle.PostByIdMatchesFeed | src/controllers/postController.js:108-143 | The entry for a single post is the entry the feed shows for it. |
| Lifecycle.CommentsCountMatchesCommentList | src/controllers/postController.js:134 | `commentsCount` shown with a post is the length of its comment list. |
| Lifecycle.AdminDeletesLikedAndCommentedPost | src/controllers/postController.js:242-264 | In a walk over any post text and any comment text without surrounding white space, Alice (an admin) posts, and Bob likes the post and comments on it. The post shows one like and one comment. Bob gets 403 on deleting it. Alice deletes it, after which it gives 404 and has no comments. |

## Left out

- I/O, connection handling and the 500 `catch` paths of store failures. The store never fails here.
- Concurrency. The read-then-write race in `likePost` cannot arise in a sequential model.
- `avgViews` in `getUserStats`: a floating-point average.
- Routes and middleware chaining (src/routes). The caller is an explicit argument of each handler.
- `ObjectId` parsing, bcrypt and JWT verification are parameters, not models. The bcrypt salt is folded into the hashing function.
- A missing `req.userId` is modelled as 401, as the code intends. `new ObjectId(undefined)` in the driver would instead generate a fresh id.
- Request bodies whose fields are not strings. `content`, `text`, `post_id` and `password` are optional strings, each handled as its handler handles a missing one. `username` and `email` are always present strings.
- Sorting ties: the model's sort is stable. MongoDB leaves the order of equal keys unspecified.
- `likePost` on a `likes` field that exists but is not an array: the handler treats it as empty, but `$addToSet` then fails in the database. The model answers 500 and changes nothing.
- Enrichment.AuthorOf: joins the first user with the post's `user_id`. With two users under one id, the pipeline's `$unwind` would repeat the post instead. The store invariant rules out such duplicates.
- The author joined into the feed is the whole user document, including the password hash, as the pipelines do not project it away.
