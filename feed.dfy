/**
 * The feed's local view state and its reducer
 * (src/contexts/PostsContext.tsx, `PostsState`, `PostsAction`,
 * `initialState`, `postsReducer`). The reducer is a pure function: every
 * action builds a new state from the old one and never changes it in place.
 * Ids are opaque keys; the JavaScript objects keyed by them are maps here.
 */
module Feed {
  import opened Options

  /** The `profiles` summary attached to a post: author name and avatar. */
  datatype Author = Author(name: string, avatarUrl: Option<string>)

  /** A row of the `posts` table, as received, plus the author and the list
      of likers the client attaches. */
  datatype Post = Post(
    id: string,
    userId: string,
    content: string,
    imageUrl: Option<string>,
    createdAt: string,
    updatedAt: string,
    author: Option<Author>,
    likerIds: seq<string>)

  /** A row of the `comments` table. */
  datatype Comment = Comment(
    id: string,
    postId: string,
    userId: string,
    content: string,
    createdAt: string,
    updatedAt: string,
    author: Option<Author>)

  /** The viewer's like flag and the like count shown for one post. */
  datatype LikeEntry = LikeEntry(liked: bool, count: int)

  datatype State = State(
    posts: seq<Post>,
    loading: bool,
    refreshing: bool,
    comments: map<string, seq<Comment>>,
    likes: map<string, LikeEntry>,
    error: Option<string>)

  /** The twelve action kinds, and `Unrecognized` for any other `type` tag an
      untyped caller may dispatch. */
  datatype Action =
    | SetLoading(loading: bool)
    | SetRefreshing(refreshing: bool)
    | SetPosts(posts: seq<Post>)
    | AddPost(post: Post)
    | UpdatePost(post: Post)
    | DeletePost(postId: string)
    | SetComments(postId: string, comments: seq<Comment>)
    | AddComment(postId: string, comment: Comment)
    | DeleteComment(postId: string, commentId: string)
    | SetLike(postId: string, liked: bool, count: int)
    | UpdateLike(postId: string, liked: bool)
    | SetError(error: Option<string>)
    | Unrecognized(tag: string)

  const InitialState := State([], true, false, map[], map[], None)

  // ---------------------------------------------------------------------
  // Array.prototype.filter and the id-based map of UPDATE_POST

  /** `s` occurs in `t` in order, possibly with gaps. */
  predicate IsSubsequence<T(==)>(s: seq<T>, t: seq<T>)
    decreases |t|
  {
    if s == [] then true
    else if t == [] then false
    else if s[0] == t[0] then IsSubsequence(s[1..], t[1..])
    else IsSubsequence(s, t[1..])
  }

  /** `s.filter(keep)`: the elements satisfying `keep`, in their order, each
      as often as in `s`. */
  function Filter<T(==,!new)>(s: seq<T>, keep: T -> bool): (r: seq<T>)
    ensures forall x :: x in r ==> x in s && keep(x)
    ensures forall x :: keep(x) ==> multiset(r)[x] == multiset(s)[x]
    ensures forall x :: !keep(x) ==> multiset(r)[x] == 0
    ensures IsSubsequence(r, s)
    ensures |r| <= |s|
  {
    if s == [] then []
    else
      var tail := Filter(s[1..], keep);
      assert s == [s[0]] + s[1..];
      if keep(s[0]) then [s[0]] + tail else tail
  }

  /** Filtering a sequence every element of which is kept changes nothing. */
  lemma {:induction false} FilterKeepsAll<T(!new)>(s: seq<T>, keep: T -> bool)
    requires forall x :: x in s ==> keep(x)
    ensures Filter(s, keep) == s
  {
    if s != [] {
      FilterKeepsAll(s[1..], keep);
    }
  }

  /** `posts.map(p => p.id === post.id ? post : p)`. */
  function ReplaceById(posts: seq<Post>, post: Post): (r: seq<Post>)
    ensures |r| == |posts|
    ensures forall i :: 0 <= i < |posts| ==> r[i] == if posts[i].id == post.id then post else posts[i]
  {
    if posts == [] then []
    else [if posts[0].id == post.id then post else posts[0]] + ReplaceById(posts[1..], post)
  }

  // ---------------------------------------------------------------------
  // Lookups with the reducer's defaults for an absent key

  /** `state.comments[postId] || []`. */
  function CommentsOf(comments: map<string, seq<Comment>>, postId: string): (r: seq<Comment>)
    ensures postId in comments ==> r == comments[postId]
    ensures postId !in comments ==> r == []
  {
    if postId in comments then comments[postId] else []
  }

  /** `state.likes[postId]?.count || 0`. */
  function CountOf(likes: map<string, LikeEntry>, postId: string): (n: int)
    ensures postId in likes ==> n == likes[postId].count
    ensures postId !in likes ==> n == 0
    ensures CountsNonNegative(likes) ==> n >= 0
  {
    if postId in likes then likes[postId].count else 0
  }

  /** `currentLike?.liked || false`. */
  function LikedOf(likes: map<string, LikeEntry>, postId: string): (b: bool)
    ensures postId in likes ==> (b <==> likes[postId].liked)
    ensures postId !in likes ==> !b
  {
    postId in likes && likes[postId].liked
  }

  /** The entry UPDATE_LIKE writes: the new flag, and the old count (0 when
      absent) plus one on a like, minus one but not below zero on an
      unlike. */
  function UpdatedLike(likes: map<string, LikeEntry>, postId: string, liked: bool): (e: LikeEntry)
    ensures e.liked == liked
    ensures liked ==> e.count == CountOf(likes, postId) + 1
    ensures !liked ==> e.count >= 0 && e.count >= CountOf(likes, postId) - 1
    ensures !liked && CountOf(likes, postId) >= 1 ==> e.count == CountOf(likes, postId) - 1
    ensures !liked && CountOf(likes, postId) < 1 ==> e.count == 0
    ensures CountsNonNegative(likes) ==> e.count >= 0
  {
    var before := CountOf(likes, postId);
    LikeEntry(liked, if liked then before + 1 else if before - 1 > 0 then before - 1 else 0)
  }

  /** Every like count shown is at least zero. */
  predicate CountsNonNegative(likes: map<string, LikeEntry>)
  {
    forall postId :: postId in likes ==> likes[postId].count >= 0
  }

  /** An action that cannot install a negative like count. */
  predicate CountSafe(a: Action)
  {
    a.SetLike? ==> a.count >= 0
  }

  // ---------------------------------------------------------------------
  // postsReducer

  function Reduce(s: State, a: Action): (r: State)
    ensures CountsNonNegative(s.likes) && CountSafe(a) ==> CountsNonNegative(r.likes)
  {
    match a
    case SetLoading(b) => s.(loading := b)
    case SetRefreshing(b) => s.(refreshing := b)
    case SetPosts(ps) => s.(posts := ps)
    case AddPost(p) => s.(posts := [p] + s.posts)
    case UpdatePost(p) => s.(posts := ReplaceById(s.posts, p))
    case DeletePost(id) => s.(posts := Filter(s.posts, (p: Post) => p.id != id))
    case SetComments(id, cs) => s.(comments := s.comments[id := cs])
    case AddComment(id, c) => s.(comments := s.comments[id := CommentsOf(s.comments, id) + [c]])
    case DeleteComment(id, cid) =>
      s.(comments := s.comments[id := Filter(CommentsOf(s.comments, id), (c: Comment) => c.id != cid)])
    case SetLike(id, liked, count) => s.(likes := s.likes[id := LikeEntry(liked, count)])
    case UpdateLike(id, liked) => s.(likes := s.likes[id := UpdatedLike(s.likes, id, liked)])
    case SetError(e) => s.(error := e)
    case Unrecognized(_) => s
  }

  /** The state after dispatching `actions` in order. */
  function Dispatch(s: State, actions: seq<Action>): (r: State)
    ensures (forall i :: 0 <= i < |actions| ==> actions[i].Unrecognized?) ==> r == s
    decreases |actions|
  {
    if actions == [] then s else Dispatch(Reduce(s, actions[0]), actions[1..])
  }

  /** Dispatching one action is reducing it. */
  lemma DispatchOne(s: State, a: Action)
    ensures Dispatch(s, [a]) == Reduce(s, a)
  {
    assert [a][1..] == [];
  }
}
