/**
 * The root resolver map: the `Post` type's derived counters, and the Query, Mutation and
 * Subscription maps assembled by spreading the per-file resolver maps.
 */
module Resolvers {
  import opened Domain
  import opened Posts

  // ---------------------------------------------------------------------------------------
  // the Post type's derived fields

  /** A post as the API returns it: the stored document plus the two counters derived from it. */
  datatype PostView = PostView(post: Post, likeCount: nat, commentCount: nat)

  /**
   * The `Post` field resolvers, applied to every post any query, mutation or subscription
   * returns: `likeCount` and `commentCount` are the lengths of the embedded arrays.
   */
  function ResolvePost(p: Post): (v: PostView)
    ensures v.post == p
    ensures v.likeCount == |p.likes| && v.commentCount == |p.comments|
  {
    PostView(p, |p.likes|, |p.comments|)
  }

  /** The users who like a post. */
  function Likers(likes: seq<Like>): set<string> {
    if likes == [] then {} else {likes[0].username} + Likers(likes[1..])
  }

  lemma {:induction false} LikersAreLikeAuthors(likes: seq<Like>, username: string)
    ensures username in Likers(likes) <==> HasLikeBy(likes, username)
  {
    if likes != [] {
      LikersAreLikeAuthors(likes[1..], username);
      if HasLikeBy(likes[1..], username) {
        var i :| 0 <= i < |likes[1..]| && likes[1..][i].username == username;
        assert likes[i + 1].username == username;
      }
      if HasLikeBy(likes, username) && likes[0].username != username {
        var i :| 0 <= i < |likes| && likes[i].username == username;
        assert likes[1..][i - 1].username == username;
      }
    }
  }

  /** With at most one like per user, `likeCount` is the number of distinct users who like the post. */
  lemma {:induction false} LikeCountIsLikers(p: Post)
    requires UniqueLikers(p.likes)
    ensures ResolvePost(p).likeCount == |Likers(p.likes)|
  {
    DistinctLikers(p.likes);
  }

  lemma {:induction false} DistinctLikers(likes: seq<Like>)
    requires UniqueLikers(likes)
    ensures |Likers(likes)| == |likes|
  {
    if likes != [] {
      var rest := likes[1..];
      assert UniqueLikers(rest) by {
        forall i, j | 0 <= i < j < |rest|
          ensures rest[i].username != rest[j].username
        {
          assert rest[i] == likes[i + 1] && rest[j] == likes[j + 1];
        }
      }
      DistinctLikers(rest);
      LikersAreLikeAuthors(rest, likes[0].username);
      forall i | 0 <= i < |rest|
        ensures rest[i].username != likes[0].username
      {
        assert rest[i] == likes[i + 1];
      }
    }
  }

  /** Where likes are unique, likePost moves `likeCount` by exactly one: down on an unlike, up on a like. */
  lemma ToggleLikeCount(p: Post, username: string, now: string)
    requires UniqueLikers(p.likes)
    ensures var after := ResolvePost(p.(likes := ToggleLike(p.likes, username, now))).likeCount;
      && (HasLikeBy(p.likes, username) ==> after == ResolvePost(p).likeCount - 1)
      && (!HasLikeBy(p.likes, username) ==> after == ResolvePost(p).likeCount + 1)
  {
    if HasLikeBy(p.likes, username) {
      var i :| 0 <= i < |p.likes| && p.likes[i].username == username;
      UnlikeRemovesOne(p.likes, username, i, now);
    }
  }

  // ---------------------------------------------------------------------------------------
  // the resolver maps

  /** The resolver files whose maps are merged. */
  datatype ResolverFile = PostsFile | UsersFile | CommentsFile

  /** The fields of the root operation types, by their GraphQL names. */
  datatype Field =
    | GetPosts | GetPost | NewPost
    | CreatePost | DeletePost | LikePost
    | Login | Register
    | CreateComment | DeleteComment

  /** A resolver: the file that defines it and the field it answers. */
  datatype Handler = Handler(file: ResolverFile, field: Field)

  type ResolverMap = map<Field, Handler>

  const PostsQuery: ResolverMap :=
    map[GetPosts := Handler(PostsFile, GetPosts), GetPost := Handler(PostsFile, GetPost)]
  const PostsMutation: ResolverMap :=
    map[CreatePost := Handler(PostsFile, CreatePost), DeletePost := Handler(PostsFile, DeletePost),
        LikePost := Handler(PostsFile, LikePost)]
  const PostsSubscription: ResolverMap := map[NewPost := Handler(PostsFile, NewPost)]
  const UsersMutation: ResolverMap :=
    map[Login := Handler(UsersFile, Login), Register := Handler(UsersFile, Register)]
  const CommentsMutation: ResolverMap :=
    map[CreateComment := Handler(CommentsFile, CreateComment),
        DeleteComment := Handler(CommentsFile, DeleteComment)]

  /** `{ ...a, ...b }`: every key of either object, a key of both taking `b`'s value. */
  function Spread(a: ResolverMap, b: ResolverMap): (m: ResolverMap)
    ensures m.Keys == a.Keys + b.Keys
    ensures forall k :: k in b ==> m[k] == b[k]
    ensures forall k :: k in a && k !in b ==> m[k] == a[k]
  {
    a + b
  }

  /** The three root operation maps. */
  datatype RootMaps = RootMaps(query: ResolverMap, mutation: ResolverMap, subscription: ResolverMap)

  /**
   * The root map of index.js: Query and Subscription are exactly the posts file's maps, and
   * Mutation answers every field the users, posts or comments file defines a mutation for.
   */
  function Root(): (root: RootMaps)
    ensures root.query == PostsQuery && root.subscription == PostsSubscription
    ensures root.mutation.Keys == UsersMutation.Keys + PostsMutation.Keys + CommentsMutation.Keys
  {
    SpreadOntoEmpty(PostsQuery);
    SpreadOntoEmpty(PostsSubscription);
    RootMaps(
      Spread(map[], PostsQuery),
      Spread(Spread(Spread(map[], UsersMutation), PostsMutation), CommentsMutation),
      Spread(map[], PostsSubscription))
  }

  /** Spreading one map into an empty object copies it. */
  lemma SpreadOntoEmpty(b: ResolverMap)
    ensures Spread(map[], b) == b
  {
    assert map[] + b == b;
  }

  /** The three files define mutations under disjoint names, so no spread shadows another. */
  lemma MutationNamesDisjoint()
    ensures UsersMutation.Keys !! PostsMutation.Keys
    ensures UsersMutation.Keys !! CommentsMutation.Keys
    ensures PostsMutation.Keys !! CommentsMutation.Keys
  {
    assert UsersMutation.Keys == {Login, Register};
    assert PostsMutation.Keys == {CreatePost, DeletePost, LikePost};
    assert CommentsMutation.Keys == {CreateComment, DeleteComment};
  }

  /**
   * The Mutation map is the union of the users, posts and comments mutations, and each name
   * keeps the resolver its own file defines.
   */
  lemma MutationIsUnion()
    ensures Root().mutation.Keys == UsersMutation.Keys + PostsMutation.Keys + CommentsMutation.Keys
    ensures forall k :: k in UsersMutation ==> Root().mutation[k] == UsersMutation[k]
    ensures forall k :: k in PostsMutation ==> Root().mutation[k] == PostsMutation[k]
    ensures forall k :: k in CommentsMutation ==> Root().mutation[k] == CommentsMutation[k]
  {
    MutationNamesDisjoint();
  }
}
