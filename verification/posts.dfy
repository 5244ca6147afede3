/**
 * The post resolvers: the two queries (all posts newest first, one post by id) and the
 * createPost, deletePost and likePost mutations over an in-memory post collection. Publishing
 * to the `NEW_POST` subscription topic is an append to an event log.
 */
module Posts {
  import opened Outcomes
  import opened Domain
  import opened Text
  import opened Auth

  /** The subscription trigger a new post is published under. */
  const NewPostTopic: string := "NEW_POST"

  /** One `pubsub.publish(topic, { newPost })` call. */
  datatype Event = Event(topic: string, newPost: Post)

  // ---------------------------------------------------------------------------------------
  // likes

  /** Some like in `likes` was given by `username`. */
  ghost predicate HasLikeBy(likes: seq<Like>, username: string) {
    exists i :: 0 <= i < |likes| && likes[i].username == username
  }

  /** `likes.find(like => like.username === username)`: the first like by `username`. */
  function FindLikeBy(likes: seq<Like>, username: string): (r: Option<Like>)
    ensures r.Some? <==> HasLikeBy(likes, username)
    ensures r.Some? ==> r.value in likes && r.value.username == username
  {
    if likes == [] then None
    else if likes[0].username == username then Some(likes[0])
    else
      var r := FindLikeBy(likes[1..], username);
      assert HasLikeBy(likes[1..], username) ==> HasLikeBy(likes, username) by {
        if HasLikeBy(likes[1..], username) {
          var i :| 0 <= i < |likes[1..]| && likes[1..][i].username == username;
          assert likes[i + 1] == likes[1..][i];
        }
      }
      assert HasLikeBy(likes, username) ==> HasLikeBy(likes[1..], username) by {
        if HasLikeBy(likes, username) {
          var i :| 0 <= i < |likes| && likes[i].username == username;
          assert i > 0 && likes[1..][i - 1] == likes[i];
        }
      }
      r
  }

  /** `likes.filter(like => like.username !== username)`. */
  function WithoutLikesBy(likes: seq<Like>, username: string): (r: seq<Like>)
    ensures |r| <= |likes|
  {
    if likes == [] then []
    else if likes[0].username == username then WithoutLikesBy(likes[1..], username)
    else [likes[0]] + WithoutLikesBy(likes[1..], username)
  }

  /** The filter keeps exactly the likes by other users. */
  lemma {:induction false} WithoutLikesByMembers(likes: seq<Like>, username: string)
    ensures !HasLikeBy(WithoutLikesBy(likes, username), username)
    ensures forall l :: l in WithoutLikesBy(likes, username) <==> l in likes && l.username != username
  {
    if likes != [] {
      WithoutLikesByMembers(likes[1..], username);
      var rest := WithoutLikesBy(likes[1..], username);
      assert forall l :: l in likes <==> l == likes[0] || l in likes[1..] by {
        assert likes == [likes[0]] + likes[1..];
      }
      if likes[0].username != username {
        var r := [likes[0]] + rest;
        forall i | 0 <= i < |r|
          ensures r[i].username != username
        {
          if i > 0 {
            assert r[i] == rest[i - 1];
          }
        }
      }
    }
  }

  /** Filtering distributes over concatenation, so the kept likes stay in their original order. */
  lemma {:induction false} WithoutLikesByAppend(a: seq<Like>, b: seq<Like>, username: string)
    ensures WithoutLikesBy(a + b, username) == WithoutLikesBy(a, username) + WithoutLikesBy(b, username)
  {
    if a == [] {
      assert a + b == b;
    } else {
      assert (a + b)[0] == a[0] && (a + b)[1..] == a[1..] + b;
      WithoutLikesByAppend(a[1..], b, username);
    }
  }

  /** Filtering out a user who has not liked leaves the likes exactly as they were. */
  lemma {:induction false} WithoutLikesByAbsent(likes: seq<Like>, username: string)
    requires !HasLikeBy(likes, username)
    ensures WithoutLikesBy(likes, username) == likes
  {
    if likes != [] {
      assert likes[0].username != username;
      assert !HasLikeBy(likes[1..], username) by {
        forall i | 0 <= i < |likes| - 1
          ensures likes[1..][i].username != username
        {
          assert likes[1..][i] == likes[i + 1];
        }
      }
      WithoutLikesByAbsent(likes[1..], username);
      assert likes == [likes[0]] + likes[1..];
    }
  }

  /** At most one like per username: the uniqueness the toggle keeps. */
  predicate UniqueLikers(likes: seq<Like>) {
    forall i, j :: 0 <= i < j < |likes| ==> likes[i].username != likes[j].username
  }

  lemma {:induction false} WithoutLikesByKeepsUnique(likes: seq<Like>, username: string)
    requires UniqueLikers(likes)
    ensures UniqueLikers(WithoutLikesBy(likes, username))
  {
    if likes != [] {
      WithoutLikesByKeepsUnique(likes[1..], username);
      WithoutLikesByMembers(likes[1..], username);
      var rest := WithoutLikesBy(likes[1..], username);
      if likes[0].username != username {
        assert forall k :: 0 <= k < |rest| ==> rest[k].username != likes[0].username by {
          forall k | 0 <= k < |rest|
            ensures rest[k].username != likes[0].username
          {
            assert rest[k] in likes[1..];
            var m :| 0 <= m < |likes[1..]| && likes[1..][m] == rest[k];
            assert likes[m + 1] == rest[k];
          }
        }
        var r := [likes[0]] + rest;
        forall i, j | 0 <= i < j < |r|
          ensures r[i].username != r[j].username
        {
          assert r[j] == rest[j - 1];
          if i > 0 {
            assert r[i] == rest[i - 1];
          }
        }
      }
    }
  }

  /**
   * The like toggle of likePost: a user who already likes the post has every one of their
   * likes removed; anyone else gets exactly one new like appended.
   */
  function ToggleLike(likes: seq<Like>, username: string, now: string): (r: seq<Like>)
    ensures HasLikeBy(likes, username) ==>
      !HasLikeBy(r, username) && forall l :: l in r <==> l in likes && l.username != username
    ensures !HasLikeBy(likes, username) ==>
      |r| == |likes| + 1 && r[..|likes|] == likes && r[|likes|] == Like(username, now)
  {
    if FindLikeBy(likes, username).Some? then
      WithoutLikesByMembers(likes, username);
      WithoutLikesBy(likes, username)
    else likes + [Like(username, now)]
  }

  /** Toggling flips whether the user likes the post and leaves everyone else's likes alone. */
  lemma ToggleLikeFlips(likes: seq<Like>, username: string, now: string)
    ensures HasLikeBy(ToggleLike(likes, username, now), username) <==> !HasLikeBy(likes, username)
    ensures forall l: Like :: l.username != username ==> (l in ToggleLike(likes, username, now) <==> l in likes)
  {
    if !HasLikeBy(likes, username) {
      var r := likes + [Like(username, now)];
      assert r[|likes|].username == username;
    } else {
      WithoutLikesByMembers(likes, username);
    }
  }

  /** The toggle keeps at most one like per user. */
  lemma ToggleLikeKeepsUnique(likes: seq<Like>, username: string, now: string)
    requires UniqueLikers(likes)
    ensures UniqueLikers(ToggleLike(likes, username, now))
  {
    if HasLikeBy(likes, username) {
      WithoutLikesByKeepsUnique(likes, username);
    }
  }

  /** Liking and then liking again, by a user who did not like the post, restores its likes exactly. */
  lemma LikeTwiceRestores(likes: seq<Like>, username: string, now1: string, now2: string)
    requires !HasLikeBy(likes, username)
    ensures ToggleLike(ToggleLike(likes, username, now1), username, now2) == likes
  {
    var liked := likes + [Like(username, now1)];
    assert liked[|likes|].username == username;
    WithoutLikesByAppend(likes, [Like(username, now1)], username);
    WithoutLikesByAbsent(likes, username);
    assert WithoutLikesBy([Like(username, now1)], username) == [];
  }

  /** No like in `likes[lo..hi]` is by `username` when none of those positions is. */
  lemma AbsentFromSlice(likes: seq<Like>, username: string, lo: nat, hi: nat)
    requires lo <= hi <= |likes|
    requires forall k :: lo <= k < hi ==> likes[k].username != username
    ensures !HasLikeBy(likes[lo..hi], username)
  {
    var part := likes[lo..hi];
    forall k | 0 <= k < |part|
      ensures part[k].username != username
    {
      assert part[k] == likes[lo + k];
    }
  }

  /** Filtering out the author of the one like between two like-free runs leaves just the two runs. */
  lemma WithoutLikesByAroundOne(before: seq<Like>, x: Like, after: seq<Like>)
    requires !HasLikeBy(before, x.username) && !HasLikeBy(after, x.username)
    ensures WithoutLikesBy(before + [x] + after, x.username) == before + after
  {
    WithoutLikesByAppend(before + [x], after, x.username);
    WithoutLikesByAppend(before, [x], x.username);
    WithoutLikesByAbsent(before, x.username);
    WithoutLikesByAbsent(after, x.username);
    assert WithoutLikesBy([x], x.username) == [];
  }

  /** Where likes are unique, an unlike removes exactly the one like by that user, keeping the rest in order. */
  lemma UnlikeRemovesOne(likes: seq<Like>, username: string, i: nat, now: string)
    requires UniqueLikers(likes)
    requires i < |likes| && likes[i].username == username
    ensures ToggleLike(likes, username, now) == likes[..i] + likes[i + 1..]
  {
    assert HasLikeBy(likes, username);
    AbsentFromSlice(likes, username, 0, i);
    AbsentFromSlice(likes, username, i + 1, |likes|);
    assert likes[0..i] == likes[..i] && likes[i + 1..|likes|] == likes[i + 1..];
    WithoutLikesByAroundOne(likes[..i], likes[i], likes[i + 1..]);
    assert likes == likes[..i] + [likes[i]] + likes[i + 1..];
  }

  // ---------------------------------------------------------------------------------------
  // newest-first order of getPosts

  /** `sort({ createdAt: -1 })`: no post is older than one after it. */
  predicate NewestFirst(s: seq<Post>) {
    forall i, j :: 0 <= i < j < |s| ==> !LexLess(s[i].createdAt, s[j].createdAt)
  }

  /** Where `p` goes in a newest-first sequence: before the first strictly older post. */
  function InsertionPoint(s: seq<Post>, p: Post): (k: nat)
    ensures k <= |s|
    ensures forall i :: 0 <= i < k ==> !LexLess(s[i].createdAt, p.createdAt)
    ensures k < |s| ==> LexLess(s[k].createdAt, p.createdAt)
  {
    if s == [] || LexLess(s[0].createdAt, p.createdAt) then 0
    else 1 + InsertionPoint(s[1..], p)
  }

  /** No post from the insertion point on is newer than the inserted one. */
  lemma InsertionPointBoundsRest(s: seq<Post>, p: Post, m: nat)
    requires NewestFirst(s)
    requires InsertionPoint(s, p) <= m < |s|
    ensures !LexLess(p.createdAt, s[m].createdAt)
  {
    var k := InsertionPoint(s, p);
    if m > k {
      LexLessTotal(s[k].createdAt, s[m].createdAt);
      if s[k].createdAt != s[m].createdAt {
        LexLessTransitive(s[m].createdAt, s[k].createdAt, p.createdAt);
      }
    }
    LexLessAsymmetric(s[m].createdAt, p.createdAt);
  }

  /** Inserting at the insertion point keeps a sequence newest-first. */
  lemma InsertKeepsNewestFirst(s: seq<Post>, p: Post)
    requires NewestFirst(s)
    ensures NewestFirst(s[..InsertionPoint(s, p)] + [p] + s[InsertionPoint(s, p)..])
  {
    var k := InsertionPoint(s, p);
    var t := s[..k] + [p] + s[k..];
    forall i, j | 0 <= i < j < |t|
      ensures !LexLess(t[i].createdAt, t[j].createdAt)
    {
      if j < k {
        assert t[i] == s[i] && t[j] == s[j];
      } else if j == k {
        assert t[i] == s[i];
      } else if i < k {
        assert t[i] == s[i] && t[j] == s[j - 1];
        InsertionPointBoundsRest(s, p, j - 1);
        NotLessTransitive(s[i].createdAt, p.createdAt, s[j - 1].createdAt);
      } else if i == k {
        assert t[j] == s[j - 1];
        InsertionPointBoundsRest(s, p, j - 1);
      } else {
        assert t[i] == s[i - 1] && t[j] == s[j - 1];
      }
    }
  }

  /** Inserting `p` at `k`: the old posts stay, `p` joins them, and ids stay distinct when `p`'s is new. */
  lemma InsertAtFacts(s: seq<Post>, p: Post, k: nat)
    requires k <= |s|
    requires forall i, j :: 0 <= i < j < |s| ==> s[i].id != s[j].id
    requires forall i :: 0 <= i < |s| ==> s[i].id != p.id
    ensures var t := s[..k] + [p] + s[k..];
      && |t| == |s| + 1 && t[k] == p
      && (forall i :: 0 <= i < |t| ==> t[i] == p || t[i] in s)
      && (forall x :: x in s ==> x in t)
      && (forall i, j :: 0 <= i < j < |t| ==> t[i].id != t[j].id)
  {
    var t := s[..k] + [p] + s[k..];
    forall i | 0 <= i < |t|
      ensures t[i] == p || t[i] in s
      ensures i < k ==> t[i] == s[i]
      ensures i > k ==> t[i] == s[i - 1]
    {
      if i < k {
        assert t[i] == s[i];
      } else if i > k {
        assert t[i] == s[i - 1];
      }
    }
    forall x | x in s
      ensures x in t
    {
      var m :| 0 <= m < |s| && s[m] == x;
      if m < k {
        assert t[m] == x;
      } else {
        assert t[m + 1] == x;
      }
    }
  }

  /** `r` lists the posts filed under the ids in `done`, each exactly once. */
  ghost predicate ListsExactly(posts: map<Id, Post>, done: set<Id>, r: seq<Post>) {
    && |r| == |done|
    && (forall i :: 0 <= i < |r| ==> r[i].id in done && r[i].id in posts && posts[r[i].id] == r[i])
    && (forall i, j :: 0 <= i < j < |r| ==> r[i].id != r[j].id)
    && (forall id :: id in done && id in posts ==> posts[id] in r)
  }

  /** Inserting one more stored post, filed under its own id, extends the listing by that id. */
  lemma ListsExactlyStep(posts: map<Id, Post>, done: set<Id>, r: seq<Post>, id: Id, k: nat)
    requires ListsExactly(posts, done, r)
    requires id in posts && id !in done && posts[id].id == id && k <= |r|
    ensures ListsExactly(posts, done + {id}, r[..k] + [posts[id]] + r[k..])
  {
    InsertAtFacts(r, posts[id], k);
  }

  /** One insertion step of the sort: `p` placed before the first strictly older post. */
  function InsertByDate(r: seq<Post>, p: Post): seq<Post> {
    var k := InsertionPoint(r, p);
    r[..k] + [p] + r[k..]
  }

  /** An insertion step keeps the listing newest-first and extends it by the inserted post's id. */
  lemma ListingStep(posts: map<Id, Post>, done: set<Id>, r: seq<Post>, id: Id)
    requires NewestFirst(r) && ListsExactly(posts, done, r)
    requires id in posts && id !in done && posts[id].id == id
    ensures NewestFirst(InsertByDate(r, posts[id]))
    ensures ListsExactly(posts, done + {id}, InsertByDate(r, posts[id]))
  {
    InsertKeepsNewestFirst(r, posts[id]);
    ListsExactlyStep(posts, done, r, id, InsertionPoint(r, posts[id]));
  }

  /** A listing of every id lists every stored post once each. */
  lemma ListsEveryPost(posts: map<Id, Post>, r: seq<Post>)
    requires ListsExactly(posts, posts.Keys, r)
    ensures |r| == |posts|
    ensures forall i :: 0 <= i < |r| ==> r[i].id in posts && posts[r[i].id] == r[i]
    ensures forall i, j :: 0 <= i < j < |r| ==> r[i].id != r[j].id
    ensures forall id :: id in posts ==> posts[id] in r
  {
  }

  /** The state of the sort after listing the ids in `done`, with `rest` still to go. */
  ghost predicate SortedSoFar(posts: map<Id, Post>, done: set<Id>, rest: set<Id>, r: seq<Post>) {
    && done + rest == posts.Keys && done !! rest
    && NewestFirst(r) && ListsExactly(posts, done, r)
  }

  /** One step of the sort keeps its state: the listing grows by the chosen id. */
  lemma SortStep(posts: map<Id, Post>, done: set<Id>, rest: set<Id>, r: seq<Post>, id: Id)
    requires forall id :: id in posts ==> posts[id].id == id
    requires SortedSoFar(posts, done, rest, r) && id in rest
    ensures SortedSoFar(posts, done + {id}, rest - {id}, InsertByDate(r, posts[id]))
  {
    ListingStep(posts, done, r, id);
  }

  /**
   * `Post.find().sort({ createdAt: -1 })`: the stored posts, each exactly once, newest first.
   * Posts with equal `createdAt` come in an unspecified order, as they do from the database.
   */
  method SortNewestFirst(posts: map<Id, Post>) returns (r: seq<Post>)
    requires forall id :: id in posts ==> posts[id].id == id
    ensures NewestFirst(r) && ListsExactly(posts, posts.Keys, r)
  {
    var rest := posts.Keys;
    ghost var done: set<Id> := {};
    r := [];
    while rest != {}
      invariant SortedSoFar(posts, done, rest, r)
      decreases rest
    {
      var id :| id in rest;
      SortStep(posts, done, rest, r, id);
      r := InsertByDate(r, posts[id]);
      rest := rest - {id};
      done := done + {id};
    }
    assert done == posts.Keys;
  }

  // ---------------------------------------------------------------------------------------
  // the store

  /** The post collection, keyed by id, and the log of published subscription events. */
  class PostStore {
    var posts: map<Id, Post>
    var events: seq<Event>

    /** Every post is filed under its own id and is liked at most once per user. */
    ghost predicate Valid()
      reads this
    {
      forall id :: id in posts ==> posts[id].id == id && UniqueLikers(posts[id].likes)
    }

    constructor ()
      ensures Valid() && posts == map[] && events == []
    {
      posts := map[];
      events := [];
    }

    /** getPost: the stored post with that id, or "Post not found". */
    function GetPost(postId: Id): (r: Result<Post, Error>)
      reads this
      ensures r.Success? <==> postId in posts
      ensures r.Success? ==> r.value == posts[postId]
      ensures r.Failure? ==> r.error == PostNotFound
    {
      if postId in posts then Success(posts[postId]) else Failure(PostNotFound)
    }

    /** getPosts: every stored post exactly once, newest first. */
    method GetPosts() returns (r: seq<Post>)
      requires Valid()
      ensures NewestFirst(r)
      ensures |r| == |posts|
      ensures forall i :: 0 <= i < |r| ==> r[i].id in posts && posts[r[i].id] == r[i]
      ensures forall i, j :: 0 <= i < j < |r| ==> r[i].id != r[j].id
      ensures forall id :: id in posts ==> posts[id] in r
    {
      r := SortNewestFirst(posts);
      ListsEveryPost(posts, r);
    }

    /**
     * createPost: after the guard, a blank body fails; otherwise one new post owned by the caller,
     * with no comments or likes, is saved and then published under `NEW_POST`.
     */
    method CreatePost(authorization: Option<string>, verify: string -> Option<Claims>,
                      body: string, newId: Id, now: string) returns (r: Result<Post, Error>)
      requires Valid() && newId !in posts
      modifies this
      ensures Valid()
      ensures var auth := CheckAuth(authorization, verify);
        && (auth.Failure? ==> r == Failure(auth.error))
        && (auth.Success? && IsBlank(body) ==> r == Failure(EmptyPostBody))
        && (auth.Success? && !IsBlank(body) ==>
              r == Success(Post(newId, body, auth.value.username, now, [], [], auth.value.id)))
      ensures r.Failure? ==> posts == old(posts) && events == old(events)
      ensures r.Success? ==> posts == old(posts)[newId := r.value]
      ensures r.Success? ==> events == old(events) + [Event(NewPostTopic, r.value)]
    {
      var auth := CheckAuth(authorization, verify);
      if auth.Failure? {
        return Failure(auth.error);
      }
      var user := auth.value;
      if Trim(body) == "" {
        return Failure(EmptyPostBody);
      }
      var post := Post(newId, body, user.username, now, [], [], user.id);
      posts := posts[newId := post];
      events := events + [Event(NewPostTopic, post)];
      r := Success(post);
    }

    /**
     * deletePost: only the post's owner may delete it. A missing post fails too, through a
     * property read on `null`; the source raises no "not found" here.
     */
    method DeletePost(authorization: Option<string>, verify: string -> Option<Claims>,
                      postId: Id) returns (r: Result<string, Error>)
      requires Valid()
      modifies this
      ensures Valid()
      ensures var auth := CheckAuth(authorization, verify);
        && (auth.Failure? ==> r == Failure(auth.error))
        && (auth.Success? && postId !in old(posts) ==> r == Failure(UndefinedProperty))
        && (auth.Success? && postId in old(posts) && old(posts)[postId].username != auth.value.username ==>
              r == Failure(ActionNotAllowed))
        && (r.Success? <==>
              auth.Success? && postId in old(posts) && old(posts)[postId].username == auth.value.username)
      ensures r.Success? ==> r.value == "Post deleted successfully" && posts == old(posts) - {postId}
      ensures r.Failure? ==> posts == old(posts)
      ensures events == old(events)
    {
      var auth := CheckAuth(authorization, verify);
      if auth.Failure? {
        return Failure(auth.error);
      }
      var user := auth.value;
      if postId !in posts {
        return Failure(UndefinedProperty);
      }
      var post := posts[postId];
      if user.username == post.username {
        posts := posts - {postId};
        r := Success("Post deleted successfully");
      } else {
        r := Failure(ActionNotAllowed);
      }
    }

    /** likePost: toggle the caller's like on an existing post. */
    method LikePost(authorization: Option<string>, verify: string -> Option<Claims>,
                    postId: Id, now: string) returns (r: Result<Post, Error>)
      requires Valid()
      modifies this
      ensures Valid()
      ensures var auth := CheckAuth(authorization, verify);
        && (auth.Failure? ==> r == Failure(auth.error))
        && (auth.Success? && postId !in old(posts) ==> r == Failure(PostNotFound))
        && (auth.Success? && postId in old(posts) ==>
              r == Success(old(posts)[postId].(likes := ToggleLike(old(posts)[postId].likes, auth.value.username, now))))
      ensures r.Success? ==> posts == old(posts)[postId := r.value]
      ensures r.Failure? ==> posts == old(posts)
      ensures events == old(events)
    {
      var auth := CheckAuth(authorization, verify);
      if auth.Failure? {
        return Failure(auth.error);
      }
      var username := auth.value.username;
      if postId !in posts {
        return Failure(PostNotFound);
      }
      var post := posts[postId];
      if FindLikeBy(post.likes, username).Some? {
        post := post.(likes := WithoutLikesBy(post.likes, username));
      } else {
        post := post.(likes := post.likes + [Like(username, now)]);
      }
      ToggleLikeKeepsUnique(posts[postId].likes, username, now);
      posts := posts[postId := post];
      r := Success(post);
    }
  }
}
