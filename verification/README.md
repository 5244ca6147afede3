# merng-server in Dafny

A model of the decision logic of the merng-server GraphQL back end, a small social-post
service. Users register and log in and get a JSON Web Token. With the token, sent as an
`Authorization: Bearer <token>` header, they create and delete posts, like and unlike posts,
and comment on posts. Every post returned by the API carries two counters derived from it:
`likeCount` and `commentCount`.

The MongoDB collections become in-memory stores:

- `Posts.PostStore` is a class holding a map from post id to a `Post` value. Each post embeds
  its `comments` and `likes` as sequences. The store also keeps a log of published
  subscription events.
- `Users.UserStore` is a class holding the sequence of users.

The resolvers that change a store are methods. `CreatePost`, `DeletePost` and `LikePost` belong
to `PostStore`, and `Register` to `UserStore`. `Comments.CreateComment` and
`Comments.DeleteComment` are module-level methods that take the `PostStore` they edit.
`GetPosts` is a `PostStore` method too, because its sort is a loop. `GetPost` and `Login` only
read, so they are functions that read their store. Each contract says which error the
resolver raises, what the store holds afterwards, and that nothing else changed. Each resolver
runs atomically.

Some inputs come in as parameters:

- the request's `authorization` header;
- the current time, `new Date().toISOString()`;
- the ids the database would generate.

Foreign calls are passed in as functions:

- bcrypt `hash`/`compare`;
- jsonwebtoken `sign`/`verify`, with `verify` as a partial function;
- the two input validators.

Modules, one per file, in dependency order:

| file | module | models |
|---|---|---|
| outcomes.dfy | Outcomes | `Option` (for `undefined`/`null`) and `Result` (for a thrown error) |
| domain.dfy | Domain | the Post, Comment, Like and User documents, the token payload, the error kinds |
| text.dfy | Text | JavaScript `trim`, `indexOf`, `split` with a non-empty separator, and the string order a sort on `createdAt` uses |
| checkauth.dfy | Auth | the bearer-header guard in `utils/checkAuth.js` |
| posts.dfy | Posts | `getPosts`, `getPost`, `createPost`, `deletePost`, `likePost` |
| comments.dfy | Comments | `createComment`, `deleteComment` |
| resolvers.dfy | Resolvers | the `Post.likeCount`/`Post.commentCount` fields and the root resolver map |
| users.dfy | Users | `generateToken`, `register`, `login` |

Behaviour worth knowing:

- `deletePost` on a post id that does not exist (graphql/resolvers/posts.js:70-73) raises no
  "Post not found" error. `Post.findById`
  yields `null` and the ownership test reads `post.username` on it. The resulting TypeError is
  caught and re-thrown, so the model answers `UndefinedProperty`, with the store unchanged.
- `deleteComment` with a comment id that matches nothing (graphql/resolvers/comments.js:43-47)
  raises no "not found" error either. `findIndex` gives -1 and `post.comments[-1].username` reads a property of `undefined`. The
  model answers `UndefinedProperty`, with the post unchanged.
- An empty `Authorization` header (utils/checkAuth.js:9-10) is falsy in JavaScript. It is
  refused with the same error as a missing header.
- The token is whatever `split('Bearer ')[1]` gives (utils/checkAuth.js:14): the text between
  the first and the second occurrence of `Bearer `. `Bearer ` need not start the header.

## Model

| member | source | states |
|---|---|---|
| Text.LexLess | graphql/resolvers/posts.js:13 | the string order `sort` applies to `createdAt` never ranks a string before itself |
| Text.IndexOf | utils/checkAuth.js:14 | a position `indexOf` reports leaves room for the whole separator |
| Text.Split | utils/checkAuth.js:14 | `split` with a non-empty separator always yields at least one piece |
| Text.Trim | graphql/resolvers/posts.js:41 | `trim()` is empty exactly when the body is all ECMAScript whitespace; otherwise it neither starts nor ends with whitespace, and a body with non-blank ends is returned unchanged |
| Text.IndexOfIsFirst | utils/checkAuth.js:14 | `indexOf` reports the first occurrence of the separator, and reports none exactly when the separator does not occur |
| Text.SplitPiecesFree | utils/checkAuth.js:14 | no piece of `split(sep)` contains `sep`, and there is a single piece exactly when `sep` does not occur |
| Text.JoinSplit | utils/checkAuth.js:14 | joining the pieces of `split(sep)` with `sep` gives back the original header, so the split loses nothing |
| Text.LexLessTotal | graphql/resolvers/posts.js:13 | any two `createdAt` strings are equal or ordered one way or the other, so the sort order is total |
| Text.LexLessTransitive | graphql/resolvers/posts.js:13 | the string order on `createdAt` is transitive |
| Text.NotLessTransitive | graphql/resolvers/posts.js:13 | "not older than" is transitive, the relation a newest-first listing keeps between every pair |
| Auth.CheckAuth | utils/checkAuth.js:7-27 | a missing or empty header fails with the "header must be provided" error; a header whose `split('Bearer ')[1]` is undefined or empty fails with the "must be 'Bearer [token]'" error; a token `verify` rejects fails with "Invalid/Expired token"; otherwise the result is exactly the payload `verify` decoded; the guard reads only the header |
| Auth.BearerToken | utils/checkAuth.js:14 | `split('Bearer ')[1]` is defined exactly when `Bearer ` occurs in the header, and the token never contains `Bearer ` |
| Auth.BearerTokenBetweenOccurrences | utils/checkAuth.js:14 | the token is the text after the first `Bearer ` up to the next one or to the end |
| Auth.BearerHeaderYieldsToken | utils/checkAuth.js:14 | the header `Bearer <token>` yields the token, for any token without a space |
| Auth.BearerNeedNotBePrefix | utils/checkAuth.js:14 | text before the first `Bearer ` is ignored: `<prefix>Bearer <token>` yields the token whenever `Bearer ` occurs neither in the token nor before the intended one |
| Auth.WellFormedHeaderAuthenticates | utils/checkAuth.js:14-19 | a `Bearer <token>` header whose token verifies authenticates as exactly the decoded payload |
| Auth.BareBearerIsMalformed | utils/checkAuth.js:14-24 | the header `Bearer ` alone is refused as malformed |
| Auth.HeaderWithoutBearerIsMalformed | utils/checkAuth.js:14-24 | a non-empty header that never contains `Bearer ` is refused as malformed |
| Posts.FindLikeBy | graphql/resolvers/posts.js:91 | `likes.find` succeeds exactly when some like has that username, and returns such a like |
| Posts.WithoutLikesBy | graphql/resolvers/posts.js:95 | the `filter` never lengthens the likes |
| Posts.WithoutLikesByMembers | graphql/resolvers/posts.js:95 | after the `filter`, no like by that user is left and every like by someone else is kept |
| Posts.WithoutLikesByAppend | graphql/resolvers/posts.js:95 | the filter distributes over concatenation, so the kept likes stay in their original order |
| Posts.ToggleLike | graphql/resolvers/posts.js:91-101 | when the caller already likes the post, none of their likes remain and every other like is kept; otherwise the likes are unchanged except for one `Like(caller, now)` pushed at the end |
| Posts.ToggleLikeFlips | graphql/resolvers/posts.js:91-101 | the like toggle flips whether the caller likes the post and leaves every other user's likes as they were |
| Posts.ToggleLikeKeepsUnique | graphql/resolvers/posts.js:91-101 | if each user has at most one like before the toggle, the same holds after it |
| Posts.LikeTwiceRestores | graphql/resolvers/posts.js:91-101 | for a caller who had not liked the post, liking twice restores the likes sequence exactly |
| Posts.UnlikeRemovesOne | graphql/resolvers/posts.js:95 | where likes are unique, an unlike removes exactly the caller's one like and keeps the rest in order |
| Posts.InsertKeepsNewestFirst | graphql/resolvers/posts.js:13 | putting a post before the first strictly older one keeps a listing newest-first |
| Posts.SortNewestFirst | graphql/resolvers/posts.js:13 | `find().sort({ createdAt: -1 })` lists every stored post, each exactly once, in order of `createdAt` descending |
| Posts.PostStore.GetPosts | graphql/resolvers/posts.js:11-18 | getPosts returns every stored post exactly once, and no post is older than one after it |
| Posts.PostStore.GetPost | graphql/resolvers/posts.js:22-33 | getPost returns the stored post when the id exists and otherwise fails with "Post not found" |
| Posts.PostStore.CreatePost | graphql/resolvers/posts.js:38-63 | after the auth guard, a blank body fails with "Post body must not be empty", leaving the store and the event log unchanged; otherwise exactly one post is added, with the given body, the caller's id and username, the given time and no comments or likes, and exactly one `NEW_POST` event carrying it is published |
| Posts.PostStore.DeletePost | graphql/resolvers/posts.js:66-84 | the post is removed, with "Post deleted successfully", exactly when the caller's username equals the post's; a foreign post fails with "Action not allowed" and a missing one with a TypeError; on failure the store is unchanged |
| Posts.PostStore.LikePost | graphql/resolvers/posts.js:86-109 | a missing post fails with "Post not found"; otherwise the post's likes become the toggle of the caller's like, the rest of the post and store are unchanged, and likes stay unique per user |
| Comments.FindCommentIndex | graphql/resolvers/comments.js:43 | `findIndex` gives the first comment with the id, or -1 exactly when no comment has it |
| Comments.RemoveAt | graphql/resolvers/comments.js:48 | `splice(i, 1)` removes exactly index `i` and keeps every other comment in order |
| Comments.RemoveNewestRestores | graphql/resolvers/comments.js:22-48 | a comment just put in front is the first with its id, and deleting it restores the comments |
| Comments.CreateComment | graphql/resolvers/comments.js:8-32 | after the guard, a blank body fails with `errors.body`; a missing post fails with "Post not found"; otherwise the new comment by the caller is at index 0, the old comments follow in order, and the length grows by one; on failure the store is unchanged |
| Comments.DeleteComment | graphql/resolvers/comments.js:34-57 | a missing post fails with "Post not found"; the first comment with the id is removed when the caller wrote it; another author's comment fails with "Action not allowed"; no match fails with a TypeError; on failure the store is unchanged |
| Resolvers.ResolvePost | graphql/resolvers/index.js:8-13 | every returned post carries `likeCount`, the length of its likes, and `commentCount`, the length of its comments; neither is stored |
| Resolvers.LikeCountIsLikers | graphql/resolvers/index.js:9-11 | with at most one like per user, `likeCount` is the number of distinct users who like the post |
| Resolvers.ToggleLikeCount | graphql/resolvers/index.js:9-11 | where likes are unique, likePost lowers `likeCount` by one on an unlike and raises it by one on a like |
| Resolvers.Spread | graphql/resolvers/index.js:14-24 | an object spread holds every key of both maps, and a key in both takes the later map's resolver |
| Resolvers.Root | graphql/resolvers/index.js:14-24 | the Query and Subscription maps are exactly the posts file's, and Mutation answers exactly the fields the users, posts and comments files define mutations for |
| Resolvers.MutationNamesDisjoint | graphql/resolvers/index.js:17-21 | the users, posts and comments files define their mutations under disjoint names |
| Resolvers.MutationIsUnion | graphql/resolvers/index.js:17-21 | the Mutation map is the union of the three files' mutations, and each name keeps its own file's resolver |
| Users.GenerateToken | graphql/resolvers/users.js:9-15 | the token signs exactly the user's id, email and username, with expiry "1h", at the given issue time |
| Users.IssuedTokenAuthenticates | graphql/resolvers/users.js:9-15 | a token from generateToken, sent back as `Bearer <token>`, authenticates as exactly that user's id, email and username, provided `verify` accepts what `sign` produced |
| Users.FindByUsername | graphql/resolvers/users.js:26 | `User.findOne({ username })` finds a stored user with that username, or nothing exactly when no stored user has it |
| Users.FindsStoredUser | graphql/resolvers/users.js:26 | where usernames are unique, looking up a stored user's username finds that very user |
| Users.UserStore.Register | graphql/resolvers/users.js:52-95 | invalid input fails with the validator's errors; a taken username fails with `errors.username`; on failure the store is unchanged; otherwise exactly one user is added, with the given username and email, the stored password is `hash(password, 12)`, not the `password` argument, and a token for that user is returned; usernames stay unique |
| Users.UserStore.Login | graphql/resolvers/users.js:19-46 | invalid input fails before any lookup; an unknown username fails with `errors.general = 'User not found'`; a password `compare` rejects fails with `errors.general = 'Wrong credentials'` and no token; otherwise the stored user and a token for it issued at the given time; login only reads the store |
| Users.RegisteredUserLogsIn | graphql/resolvers/users.js:19-46 | a stored user whose password hash is that of the given password logs in and receives its token |
| Users.RegisteredUserFound | graphql/resolvers/users.js:65-86 | adding a user whose username is free keeps usernames unique, and a later lookup of that username finds the new user |

## Left out

- The subscription stream (`pubsub.asyncIterator('NEW_POST')`): it is asynchronous fan-out to live connections. Publishing is modelled as an append to `PostStore.events`.
- Interleaving at `await` points, and the lost updates it allows between concurrent `likePost`/`createComment` calls on the same post: every resolver is modelled as one atomic step.
- Server bootstrap, the MongoDB connection, the Apollo server, and the Mongoose document machinery (`save`, `_doc`, `_id`, id generation). Ids and timestamps are parameters, and the stores are a map and a sequence.
- bcrypt, jsonwebtoken and the validators in `utils/validators.js`. utils/validators.js is not part of this model; all of these are function parameters. `SECRET_KEY` is folded into `sign` and `verify`, expiry checking into `verify`, and bcrypt's random salt into `hash`. The issue time `jwt.sign` reads from the clock is a parameter of `sign`; `Register` passes it the same `now` it stores as `createdAt`, while the code reads the clock twice.
- The exact wording of error messages and the `new Error(err)` re-wrapping in getPosts, getPost and deletePost: only the error kind is modelled. The messages are kept as comments on `Domain.Error`.
- Errors the database itself raises, such as a malformed ObjectId in `findById` or a failed `save`.
- The `id` of each embedded like, which Mongoose generates and no resolver reads. The schema in graphql/typeDefs.js still exposes it to clients.
- JavaScript strings are UTF-16 and Dafny's are code points. Comparison, `trim`, `indexOf` and `split` agree on both for the characters involved; surrogate pairs are not modelled.
- Posts.PostStore.GetPosts: posts with equal `createdAt` come in an order the model leaves unspecified, as the database does.
- graphql/typeDefs.js, the transport schema, is not part of this model.
- Fresh ids: `Register`, `CreatePost` and `CreateComment` require the id the database would generate to differ from the ids already stored beside it; id generation itself is not modelled.
