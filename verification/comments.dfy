/**
 * The comment resolvers: createComment puts a new comment at the front of a post's comments
 * and deleteComment removes one by id, for its author only. Both work on the post collection
 * of the post store and save the edited post back under its id.
 */
module Comments {
  import opened Outcomes
  import opened Domain
  import opened Text
  import opened Auth
  import opened Posts

  /** The field error createComment attaches to a blank body. */
  const EmptyCommentErrors: FieldErrors := map["body" := "Comment body must not be empty"]

  /** `comments.findIndex(c => c.id === commentId)`: the first matching position, or -1. */
  function FindCommentIndex(comments: seq<Comment>, commentId: Id): (i: int)
    ensures -1 <= i < |comments|
    ensures i >= 0 ==> comments[i].id == commentId
    ensures i >= 0 ==> forall k :: 0 <= k < i ==> comments[k].id != commentId
    ensures i == -1 <==> forall k :: 0 <= k < |comments| ==> comments[k].id != commentId
  {
    if comments == [] then -1
    else if comments[0].id == commentId then 0
    else
      var j := FindCommentIndex(comments[1..], commentId);
      if j == -1 then -1 else j + 1
  }

  /** `s.splice(i, 1)` on a valid index: exactly position `i` goes, everything else keeps its order. */
  function RemoveAt<T>(s: seq<T>, i: nat): (r: seq<T>)
    requires i < |s|
    ensures |r| == |s| - 1
    ensures forall k :: 0 <= k < i ==> r[k] == s[k]
    ensures forall k :: i <= k < |r| ==> r[k] == s[k + 1]
  {
    s[..i] + s[i + 1..]
  }

  /** A comment just put in front is the first with its id, and removing it restores the comments. */
  lemma RemoveNewestRestores(comments: seq<Comment>, c: Comment)
    ensures FindCommentIndex([c] + comments, c.id) == 0
    ensures RemoveAt([c] + comments, 0) == comments
  {
    assert ([c] + comments)[1..] == comments;
  }

  /**
   * createComment: after the guard, a blank body fails with a `body` field error; a missing post
   * fails; otherwise the new comment by the caller goes in front of the post's comments.
   */
  method CreateComment(store: PostStore, authorization: Option<string>, verify: string -> Option<Claims>,
                       postId: Id, body: string, newCommentId: Id, now: string) returns (r: Result<Post, Error>)
    requires store.Valid()
    requires postId in store.posts ==>
      forall k :: 0 <= k < |store.posts[postId].comments| ==> store.posts[postId].comments[k].id != newCommentId
    modifies store
    ensures store.Valid()
    ensures var auth := CheckAuth(authorization, verify);
      && (auth.Failure? ==> r == Failure(auth.error))
      && (auth.Success? && IsBlank(body) ==> r == Failure(EmptyComment(EmptyCommentErrors)))
      && (auth.Success? && !IsBlank(body) && postId !in old(store.posts) ==> r == Failure(PostNotFound))
      && (r.Success? <==> auth.Success? && !IsBlank(body) && postId in old(store.posts))
      && (r.Success? ==>
            var before := old(store.posts)[postId];
            r.value == before.(comments := [Comment(newCommentId, body, auth.value.username, now)] + before.comments))
    ensures r.Success? ==>
      && |r.value.comments| == |old(store.posts)[postId].comments| + 1
      && r.value.comments[1..] == old(store.posts)[postId].comments
    ensures r.Success? ==> store.posts == old(store.posts)[postId := r.value]
    ensures r.Failure? ==> store.posts == old(store.posts)
    ensures store.events == old(store.events)
  {
    var auth := CheckAuth(authorization, verify);
    if auth.Failure? {
      return Failure(auth.error);
    }
    var username := auth.value.username;
    if Trim(body) == "" {
      return Failure(EmptyComment(EmptyCommentErrors));
    }
    if postId !in store.posts {
      return Failure(PostNotFound);
    }
    var post := store.posts[postId];
    var comment := Comment(newCommentId, body, username, now);
    post := post.(comments := [comment] + post.comments);
    assert post.comments[1..] == store.posts[postId].comments;
    store.posts := store.posts[postId := post];
    r := Success(post);
  }

  /**
   * deleteComment: after the guard, a missing post fails; the first comment with the id is
   * removed when the caller wrote it and refused otherwise. When no comment has the id, the
   * lookup reads a property of `undefined` and the call fails with the post unchanged.
   */
  method DeleteComment(store: PostStore, authorization: Option<string>, verify: string -> Option<Claims>,
                       postId: Id, commentId: Id) returns (r: Result<Post, Error>)
    requires store.Valid()
    modifies store
    ensures store.Valid()
    ensures var auth := CheckAuth(authorization, verify);
      && (auth.Failure? ==> r == Failure(auth.error))
      && (auth.Success? && postId !in old(store.posts) ==> r == Failure(PostNotFound))
      && (auth.Success? && postId in old(store.posts) ==>
            var cs := old(store.posts)[postId].comments;
            var i := FindCommentIndex(cs, commentId);
            && (i == -1 ==> r == Failure(UndefinedProperty))
            && (i >= 0 && cs[i].username != auth.value.username ==> r == Failure(ActionNotAllowed))
            && (i >= 0 && cs[i].username == auth.value.username ==>
                  r == Success(old(store.posts)[postId].(comments := RemoveAt(cs, i)))))
    ensures r.Success? ==> store.posts == old(store.posts)[postId := r.value]
    ensures r.Failure? ==> store.posts == old(store.posts)
    ensures store.events == old(store.events)
  {
    var auth := CheckAuth(authorization, verify);
    if auth.Failure? {
      return Failure(auth.error);
    }
    var username := auth.value.username;
    if postId !in store.posts {
      return Failure(PostNotFound);
    }
    var post := store.posts[postId];
    var i := FindCommentIndex(post.comments, commentId);
    if i == -1 {
      return Failure(UndefinedProperty);
    }
    if post.comments[i].username == username {
      post := post.(comments := RemoveAt(post.comments, i));
      store.posts := store.posts[postId := post];
      r := Success(post);
    } else {
      r := Failure(ActionNotAllowed);
    }
  }
}
