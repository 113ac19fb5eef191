/**
 * What each action of the feed reducer does to the state, and what sequences
 * of actions preserve.
 */
module FeedProperties {
  import opened Options
  import opened Feed

  /** The four setters change their own field and nothing else. */
  lemma SettersChangeOnlyTheirField(s: State, b: bool, ps: seq<Post>, e: Option<string>)
    ensures Reduce(s, SetLoading(b)) == State(s.posts, b, s.refreshing, s.comments, s.likes, s.error)
    ensures Reduce(s, SetRefreshing(b)) == State(s.posts, s.loading, b, s.comments, s.likes, s.error)
    ensures Reduce(s, SetPosts(ps)) == State(ps, s.loading, s.refreshing, s.comments, s.likes, s.error)
    ensures Reduce(s, SetError(e)) == State(s.posts, s.loading, s.refreshing, s.comments, s.likes, e)
  {
  }

  /** An action the reducer does not recognise returns the state itself. */
  lemma UnrecognizedIsIdentity(s: State, tag: string)
    ensures Reduce(s, Unrecognized(tag)) == s
  {
  }

  /** Only the post actions touch `posts`; only the comment actions touch
      `comments`; only the like actions touch `likes`. */
  lemma ActionsTouchOnlyTheirPart(s: State, a: Action)
    ensures !(a.SetPosts? || a.AddPost? || a.UpdatePost? || a.DeletePost?) ==> Reduce(s, a).posts == s.posts
    ensures !(a.SetComments? || a.AddComment? || a.DeleteComment?) ==> Reduce(s, a).comments == s.comments
    ensures !(a.SetLike? || a.UpdateLike?) ==> Reduce(s, a).likes == s.likes
    ensures !a.SetLoading? ==> Reduce(s, a).loading == s.loading
    ensures !a.SetRefreshing? ==> Reduce(s, a).refreshing == s.refreshing
    ensures !a.SetError? ==> Reduce(s, a).error == s.error
  {
  }

  // ---------------------------------------------------------------------
  // Posts

  /** ADD_POST puts the new post in front of the old list. */
  lemma AddPostPrepends(s: State, p: Post)
    ensures var r := Reduce(s, AddPost(p)).posts;
      |r| == |s.posts| + 1 && r[0] == p && r[1..] == s.posts
  {
  }

  /** UPDATE_POST keeps the length, the order and every id; each post with
      the payload's id becomes the payload and every other post stays. */
  lemma UpdatePostReplaces(s: State, p: Post)
    ensures var r := Reduce(s, UpdatePost(p)).posts;
      && |r| == |s.posts|
      && (forall i :: 0 <= i < |r| ==> r[i].id == s.posts[i].id)
      && (forall i :: 0 <= i < |r| && s.posts[i].id == p.id ==> r[i] == p)
      && (forall i :: 0 <= i < |r| && s.posts[i].id != p.id ==> r[i] == s.posts[i])
  {
  }

  /** UPDATE_POST of an id that is not in the feed changes nothing. */
  lemma UpdateUnknownPostIsIdentity(s: State, p: Post)
    requires forall i :: 0 <= i < |s.posts| ==> s.posts[i].id != p.id
    ensures Reduce(s, UpdatePost(p)) == s
  {
    var r := Reduce(s, UpdatePost(p)).posts;
    assert r == s.posts;
  }

  /** DELETE_POST leaves no post with the id; the other posts stay, in order,
      each as often as before. */
  lemma DeletePostRemoves(s: State, id: string)
    ensures var r := Reduce(s, DeletePost(id)).posts;
      && (forall p :: p in r ==> p.id != id && p in s.posts)
      && (forall p: Post :: p.id != id ==> multiset(r)[p] == multiset(s.posts)[p])
      && IsSubsequence(r, s.posts)
  {
  }

  /** Deleting a post twice is deleting it once. */
  lemma DeletePostIdempotent(s: State, id: string)
    ensures Reduce(Reduce(s, DeletePost(id)), DeletePost(id)) == Reduce(s, DeletePost(id))
  {
    var once := Reduce(s, DeletePost(id));
    FilterKeepsAll(once.posts, (p: Post) => p.id != id);
    assert Reduce(once, DeletePost(id)) == once.(posts := Filter(once.posts, (p: Post) => p.id != id));
  }

  // ---------------------------------------------------------------------
  // Comments

  /** ADD_COMMENT appends to the post's list (an absent list counts as empty)
      and leaves every other post's list alone. */
  lemma AddCommentAppends(s: State, postId: string, c: Comment)
    ensures var r := Reduce(s, AddComment(postId, c)).comments;
      && r.Keys == s.comments.Keys + {postId}
      && r[postId] == (if postId in s.comments then s.comments[postId] else []) + [c]
      && (forall k :: k in s.comments && k != postId ==> r[k] == s.comments[k])
  {
  }

  /** SET_COMMENTS overwrites the post's list and only that one. */
  lemma SetCommentsOverwrites(s: State, postId: string, cs: seq<Comment>)
    ensures var r := Reduce(s, SetComments(postId, cs)).comments;
      && r.Keys == s.comments.Keys + {postId}
      && r[postId] == cs
      && (forall k :: k in s.comments && k != postId ==> r[k] == s.comments[k])
  {
  }

  /** DELETE_COMMENT leaves the post's list without the comment id, keeps
      the other comments in order and with their multiplicity, creates the
      list as empty when it was absent, and leaves other posts alone. */
  lemma DeleteCommentRemoves(s: State, postId: string, commentId: string)
    ensures var r := Reduce(s, DeleteComment(postId, commentId)).comments;
      var before := if postId in s.comments then s.comments[postId] else [];
      && r.Keys == s.comments.Keys + {postId}
      && (forall c :: c in r[postId] ==> c.id != commentId && c in before)
      && (forall c: Comment :: c.id != commentId ==> multiset(r[postId])[c] == multiset(before)[c])
      && IsSubsequence(r[postId], before)
      && (postId !in s.comments ==> r[postId] == [])
      && (forall k :: k in s.comments && k != postId ==> r[k] == s.comments[k])
  {
  }

  /** Deleting a comment twice is deleting it once. */
  lemma DeleteCommentIdempotent(s: State, postId: string, commentId: string)
    ensures var once := Reduce(s, DeleteComment(postId, commentId));
      Reduce(once, DeleteComment(postId, commentId)) == once
  {
    var once := Reduce(s, DeleteComment(postId, commentId));
    FilterKeepsAll(once.comments[postId], (c: Comment) => c.id != commentId);
    assert once.comments[postId := once.comments[postId]] == once.comments;
  }

  // ---------------------------------------------------------------------
  // Likes

  /** SET_LIKE writes the entry exactly and leaves the other posts' entries. */
  lemma SetLikeOverwrites(s: State, postId: string, liked: bool, count: int)
    ensures var r := Reduce(s, SetLike(postId, liked, count)).likes;
      && r.Keys == s.likes.Keys + {postId}
      && r[postId] == LikeEntry(liked, count)
      && (forall k :: k in s.likes && k != postId ==> r[k] == s.likes[k])
  {
  }

  /** UPDATE_LIKE sets the flag; a like adds one to the count, an unlike
      takes one off but never goes below zero; an absent entry counts as 0;
      other posts' entries stay. */
  lemma UpdateLikeCounts(s: State, postId: string, liked: bool)
    ensures var r := Reduce(s, UpdateLike(postId, liked)).likes;
      var before := if postId in s.likes then s.likes[postId].count else 0;
      && r.Keys == s.likes.Keys + {postId}
      && r[postId].liked == liked
      && (liked ==> r[postId].count == before + 1)
      && (!liked && before >= 1 ==> r[postId].count == before - 1)
      && (!liked && before < 1 ==> r[postId].count == 0)
      && (forall k :: k in s.likes && k != postId ==> r[k] == s.likes[k])
  {
  }

  /** A like followed by an unlike puts a non-negative count back where it
      was, and leaves the post not liked. */
  lemma LikeThenUnlikeRestoresCount(s: State, postId: string)
    requires postId in s.likes ==> s.likes[postId].count >= 0
    ensures var r := Reduce(Reduce(s, UpdateLike(postId, true)), UpdateLike(postId, false)).likes;
      r[postId] == LikeEntry(false, CountOf(s.likes, postId))
  {
  }

  /** Like counts stay non-negative under any sequence of actions that does
      not install a negative count with SET_LIKE. */
  lemma {:induction false} DispatchKeepsCountsNonNegative(s: State, actions: seq<Action>)
    requires CountsNonNegative(s.likes)
    requires forall i :: 0 <= i < |actions| ==> CountSafe(actions[i])
    ensures CountsNonNegative(Dispatch(s, actions).likes)
    decreases |actions|
  {
    if actions != [] {
      DispatchKeepsCountsNonNegative(Reduce(s, actions[0]), actions[1..]);
    }
  }

  /** Dispatching two batches is dispatching their concatenation. */
  lemma {:induction false} DispatchAppend(s: State, first: seq<Action>, second: seq<Action>)
    ensures Dispatch(s, first + second) == Dispatch(Dispatch(s, first), second)
    decreases |first|
  {
    if first == [] {
      assert first + second == second;
    } else {
      assert (first + second)[1..] == first[1..] + second;
      DispatchAppend(Reduce(s, first[0]), first[1..], second);
    }
  }

  /** The initial state shows an empty, loading feed with no likes. */
  lemma InitialStateIsEmpty()
    ensures InitialState.posts == [] && InitialState.loading && !InitialState.refreshing
    ensures InitialState.comments == map[] && InitialState.likes == map[] && InitialState.error == None
    ensures CountsNonNegative(InitialState.likes)
  {
  }
}
