/**
 * The pure decisions inside the feed provider's callbacks
 * (src/contexts/PostsContext.tsx, `PostsProvider`). Every backend request is
 * replaced by its outcome, passed in as a parameter; a callback is modelled
 * as the list of actions it dispatches, and its effect on the feed as
 * `Dispatch` of that list.
 */
module Provider {
  import opened Options
  import opened JsString
  import opened Feed
  import opened FeedProperties
  import Validation

  /** The outcome of one backend request: its data, or an error. For the
      posts query, the inserts and the deletes, `Failed` is a returned
      `error` or a thrown exception, which the callback treats alike. For
      the profile request, `Failed` is a returned `error` only, which
      `fetchUserProfiles` turns into `{}`; a profile request that throws is
      represented by the enclosing query or insert failing, which
      dispatches the same actions. */
  datatype Response<T> = Ok(data: T) | Failed

  /** A `posts` row as the backend returns it. */
  datatype PostRow = PostRow(
    id: string,
    userId: string,
    content: string,
    imageUrl: Option<string>,
    createdAt: string,
    updatedAt: string)

  /** A `profiles` row as selected by `fetchUserProfiles`. */
  datatype ProfileRow = ProfileRow(id: string, name: string, avatarUrl: Option<string>)

  const UnknownAuthor := Author("Unknown User", None)

  // ---------------------------------------------------------------------
  // fetchUserProfiles and the post/profile merge

  /** `profiles.reduce((acc, p) => { acc[p.id] = p; return acc }, {})`:
      every id of the rows is a key, and a key holds the LAST row with that
      id. */
  function IndexProfiles(rows: seq<ProfileRow>): (m: map<string, Author>)
    ensures |m| <= |rows|
    decreases |rows|
  {
    if rows == [] then map[]
    else IndexProfiles(rows[..|rows| - 1])[rows[|rows| - 1].id := AuthorOf(rows[|rows| - 1])]
  }

  /** Every id of the rows is a key, every key is the id of a row, and a
      key holds the LAST row with that id. */
  lemma IndexProfilesSpec(rows: seq<ProfileRow>)
    ensures forall i :: 0 <= i < |rows| ==> rows[i].id in IndexProfiles(rows)
    ensures forall k :: k in IndexProfiles(rows) ==> exists i :: 0 <= i < |rows| && rows[i].id == k
    ensures forall i :: 0 <= i < |rows| && LastWithItsId(rows, i) ==> IndexProfiles(rows)[rows[i].id] == AuthorOf(rows[i])
  {
    IndexProfilesKeys(rows);
    IndexProfilesOnlyKeys(rows);
    IndexProfilesLastWins(rows);
  }

  /** Every id of the rows is a key. */
  lemma {:induction false} IndexProfilesKeys(rows: seq<ProfileRow>)
    ensures forall i :: 0 <= i < |rows| ==> rows[i].id in IndexProfiles(rows)
    decreases |rows|
  {
    if rows != [] {
      var init := rows[..|rows| - 1];
      IndexProfilesKeys(init);
      forall i | 0 <= i < |rows| ensures rows[i].id in IndexProfiles(rows) {
        if i < |init| { assert rows[i] == init[i]; }
      }
    }
  }

  /** Every key is the id of a row. */
  lemma {:induction false} IndexProfilesOnlyKeys(rows: seq<ProfileRow>)
    ensures forall k :: k in IndexProfiles(rows) ==> exists i :: 0 <= i < |rows| && rows[i].id == k
    decreases |rows|
  {
    if rows != [] {
      var init := rows[..|rows| - 1];
      var last := rows[|rows| - 1];
      IndexProfilesOnlyKeys(init);
      assert IndexProfiles(rows) == IndexProfiles(init)[last.id := AuthorOf(last)];
      forall k | k in IndexProfiles(rows) ensures exists i :: 0 <= i < |rows| && rows[i].id == k {
        if k != last.id {
          var i :| 0 <= i < |init| && init[i].id == k;
          assert rows[i] == init[i];
        } else {
          assert rows[|rows| - 1].id == k;
        }
      }
    }
  }

  /** A key holds the last row with that id. */
  lemma {:induction false} IndexProfilesLastWins(rows: seq<ProfileRow>)
    ensures forall i :: 0 <= i < |rows| && LastWithItsId(rows, i) ==>
      rows[i].id in IndexProfiles(rows) && IndexProfiles(rows)[rows[i].id] == AuthorOf(rows[i])
    decreases |rows|
  {
    if rows != [] {
      var init := rows[..|rows| - 1];
      var last := rows[|rows| - 1];
      IndexProfilesLastWins(init);
      var m := IndexProfiles(rows);
      forall i | 0 <= i < |rows| && LastWithItsId(rows, i) ensures rows[i].id in m && m[rows[i].id] == AuthorOf(rows[i]) {
        if i < |init| {
          assert rows[i] == init[i];
          assert rows[i].id != last.id;
          assert LastWithItsId(init, i) by {
            forall j | i < j < |init| ensures init[j].id != init[i].id {
              assert init[j] == rows[j];
            }
          }
        }
      }
    }
  }

  function AuthorOf(row: ProfileRow): Author
  {
    Author(row.name, row.avatarUrl)
  }

  /** No later row of `rows` has the id of `rows[i]`. */
  predicate LastWithItsId(rows: seq<ProfileRow>, i: nat)
    requires i < |rows|
  {
    forall j :: i < j < |rows| ==> rows[j].id != rows[i].id
  }

  /** `fetchUserProfiles(userIds)`: no request for an empty id list, and an
      empty map when the request fails. */
  function FetchUserProfiles(userIds: seq<string>, response: Response<seq<ProfileRow>>): (m: map<string, Author>)
    ensures userIds == [] || response.Failed? ==> m == map[]
    ensures response.Ok? && userIds != [] ==> m == IndexProfiles(response.data)
  {
    if userIds == [] then map[]
    else match response
      case Failed => map[]
      case Ok(rows) => IndexProfiles(rows)
  }

  /** `{ ...row, profiles: userProfiles[authorId] || Unknown User,
      likes: [] }`. `fetchPosts` looks the author up by the row's
      `user_id`, `createPost` by the signed-in user's id. */
  function WithAuthor(row: PostRow, authorId: string, profiles: map<string, Author>): (p: Post)
    ensures p.id == row.id && p.userId == row.userId && p.content == row.content
    ensures p.imageUrl == row.imageUrl && p.createdAt == row.createdAt && p.updatedAt == row.updatedAt
    ensures p.author.Some? && p.likerIds == []
    ensures authorId in profiles ==> p.author == Some(profiles[authorId])
    ensures authorId !in profiles ==> p.author == Some(UnknownAuthor)
  {
    var author := if authorId in profiles then profiles[authorId] else UnknownAuthor;
    Post(row.id, row.userId, row.content, row.imageUrl, row.createdAt, row.updatedAt, Some(author), [])
  }

  /** The author attached for `userId`, read off the profile rows the
      request returned: the last row with that id, or "Unknown User" when
      the request failed or returned no row with that id. */
  predicate AuthorFromRows(author: Option<Author>, userId: string, profiles: Response<seq<ProfileRow>>)
  {
    match profiles
    case Failed => author == Some(UnknownAuthor)
    case Ok(rows) =>
      && ((forall k :: 0 <= k < |rows| ==> rows[k].id != userId) ==> author == Some(UnknownAuthor))
      && (forall k :: 0 <= k < |rows| && rows[k].id == userId && LastWithItsId(rows, k) ==> author == Some(AuthorOf(rows[k])))
  }

  /** `p` is `row` merged with the author fetched for `authorId`: every
      field of the row kept, the author from the profile rows, no likers. */
  predicate MergedFrom(p: Post, row: PostRow, authorId: string, profiles: Response<seq<ProfileRow>>)
  {
    && p.id == row.id && p.userId == row.userId && p.content == row.content && p.imageUrl == row.imageUrl
    && p.createdAt == row.createdAt && p.updatedAt == row.updatedAt && p.likerIds == []
    && AuthorFromRows(p.author, authorId, profiles)
  }

  /** Fetching the profiles of a list of ids that holds `authorId` and
      merging them into `row` attaches the author the profile rows give. */
  lemma MergedAuthor(row: PostRow, authorId: string, ids: seq<string>, profiles: Response<seq<ProfileRow>>)
    requires authorId in ids
    ensures MergedFrom(WithAuthor(row, authorId, FetchUserProfiles(ids, profiles)), row, authorId, profiles)
  {
    if profiles.Ok? {
      IndexProfilesSpec(profiles.data);
    }
  }

  /** `postsData.map(post => WithAuthor(post))`. */
  function WithAuthors(rows: seq<PostRow>, profiles: map<string, Author>): (r: seq<Post>)
    ensures |r| == |rows|
    ensures forall i :: 0 <= i < |rows| ==> r[i] == WithAuthor(rows[i], rows[i].userId, profiles)
  {
    if rows == [] then [] else [WithAuthor(rows[0], rows[0].userId, profiles)] + WithAuthors(rows[1..], profiles)
  }

  function UserIds(rows: seq<PostRow>): (ids: seq<string>)
    ensures |ids| == |rows|
    ensures forall i :: 0 <= i < |rows| ==> ids[i] == rows[i].userId
  {
    if rows == [] then [] else [rows[0].userId] + UserIds(rows[1..])
  }

  /** The posts `fetchPosts` installs: none when the query fails or returns
      nothing, otherwise the rows in query order with their authors. */
  function FetchedPosts(query: Response<seq<PostRow>>, profiles: Response<seq<ProfileRow>>): (r: seq<Post>)
    ensures query.Failed? ==> r == []
    ensures query.Ok? ==> |r| == |query.data|
  {
    match query
    case Failed => []
    case Ok(rows) => if rows == [] then [] else WithAuthors(rows, FetchUserProfiles(UserIds(rows), profiles))
  }

  /** Every fetched post is the row of the query at its position, in
      order, with every field kept, no likers, and the author the profile
      rows give for the row's `user_id`. */
  lemma FetchedPostsShape(query: Response<seq<PostRow>>, profiles: Response<seq<ProfileRow>>)
    ensures query.Failed? ==> FetchedPosts(query, profiles) == []
    ensures query.Ok? ==> |FetchedPosts(query, profiles)| == |query.data|
    ensures query.Ok? ==> forall i :: 0 <= i < |query.data| ==>
      MergedFrom(FetchedPosts(query, profiles)[i], query.data[i], query.data[i].userId, profiles)
  {
    if query.Ok? && query.data != [] {
      var rows := query.data;
      var ids := UserIds(rows);
      forall i | 0 <= i < |rows|
        ensures MergedFrom(FetchedPosts(query, profiles)[i], rows[i], rows[i].userId, profiles)
      {
        assert ids[i] == rows[i].userId;
        MergedAuthor(rows[i], rows[i].userId, ids, profiles);
      }
    }
  }

  /** `fetchPosts`: loading on, the posts, loading off. */
  function FetchPostsActions(query: Response<seq<PostRow>>, profiles: Response<seq<ProfileRow>>): (acts: seq<Action>)
    ensures |acts| >= 2 && acts[0] == SetLoading(true) && acts[|acts| - 1] == SetLoading(false)
    ensures forall i :: 0 <= i < |acts| && acts[i].SetPosts? ==> acts[i].posts == FetchedPosts(query, profiles)
    ensures exists i :: 0 <= i < |acts| && acts[i].SetPosts?
  {
    assert [SetLoading(true), SetPosts(FetchedPosts(query, profiles)), SetLoading(false)][1].SetPosts?;
    [SetLoading(true), SetPosts(FetchedPosts(query, profiles)), SetLoading(false)]
  }

  /** After `fetchPosts` the feed holds the fetched posts, is no longer
      loading, and nothing else has changed. */
  lemma FetchPostsEffect(s: State, query: Response<seq<PostRow>>, profiles: Response<seq<ProfileRow>>)
    ensures Dispatch(s, FetchPostsActions(query, profiles))
      == State(FetchedPosts(query, profiles), false, s.refreshing, s.comments, s.likes, s.error)
  {
    var a := FetchPostsActions(query, profiles);
    assert a == [a[0]] + [a[1]] + [a[2]];
    DispatchAppend(s, [a[0]] + [a[1]], [a[2]]);
    DispatchAppend(s, [a[0]], [a[1]]);
    DispatchOne(s, a[0]);
    DispatchOne(Reduce(s, a[0]), a[1]);
    DispatchOne(Reduce(Reduce(s, a[0]), a[1]), a[2]);
  }

  /** `refreshPosts`: refreshing on, `fetchPosts`, refreshing off. */
  function RefreshPostsActions(query: Response<seq<PostRow>>, profiles: Response<seq<ProfileRow>>): (acts: seq<Action>)
    ensures |acts| >= 2 && acts[0] == SetRefreshing(true) && acts[|acts| - 1] == SetRefreshing(false)
    ensures acts[1..|acts| - 1] == FetchPostsActions(query, profiles)
  {
    [SetRefreshing(true)] + FetchPostsActions(query, profiles) + [SetRefreshing(false)]
  }

  lemma RefreshPostsEffect(s: State, query: Response<seq<PostRow>>, profiles: Response<seq<ProfileRow>>)
    ensures Dispatch(s, RefreshPostsActions(query, profiles))
      == State(FetchedPosts(query, profiles), false, false, s.comments, s.likes, s.error)
  {
    var fetch := FetchPostsActions(query, profiles);
    DispatchAppend(s, [SetRefreshing(true)] + fetch, [SetRefreshing(false)]);
    DispatchAppend(s, [SetRefreshing(true)], fetch);
    DispatchOne(s, SetRefreshing(true));
    FetchPostsEffect(Reduce(s, SetRefreshing(true)), query, profiles);
    DispatchOne(Dispatch(s, [SetRefreshing(true)] + fetch), SetRefreshing(false));
  }

  // ---------------------------------------------------------------------
  // toggleLike

  /** The request `toggleLike` sends for the viewer's current flag. */
  datatype LikeRequest = InsertLike(postId: string) | RemoveLike(postId: string)

  /** Removes the like when the post is liked, inserts one otherwise (an
      absent entry counts as not liked). */
  function ToggleLikeRequest(likes: map<string, LikeEntry>, postId: string): (req: LikeRequest)
    ensures req.postId == postId
    ensures req.RemoveLike? <==> postId in likes && likes[postId].liked
  {
    if LikedOf(likes, postId) then RemoveLike(postId) else InsertLike(postId)
  }

  /** `toggleLike(postId)` with the likes snapshot it reads: nothing without a
      signed-in user or when the request fails, otherwise one UPDATE_LIKE
      with the negated flag. */
  function ToggleLikeActions(signedIn: bool, likes: map<string, LikeEntry>, postId: string, requestOk: bool): (acts: seq<Action>)
    ensures !signedIn || !requestOk ==> acts == []
    ensures signedIn && requestOk ==> acts == [UpdateLike(postId, !(postId in likes && likes[postId].liked))]
  {
    if signedIn && requestOk then [UpdateLike(postId, !LikedOf(likes, postId))] else []
  }

  /** A successful toggle flips the flag and moves the count by one in the
      matching direction (never below zero); a failed one changes nothing. */
  lemma ToggleLikeEffect(s: State, postId: string, requestOk: bool)
    ensures var r := Dispatch(s, ToggleLikeActions(true, s.likes, postId, requestOk));
      && (!requestOk ==> r == s)
      && (requestOk ==> r == Reduce(s, UpdateLike(postId, !LikedOf(s.likes, postId))))
      && (requestOk ==> postId in r.likes && r.likes[postId].liked == !LikedOf(s.likes, postId))
      && (requestOk && !LikedOf(s.likes, postId) ==>
            postId in r.likes && r.likes[postId].count == CountOf(s.likes, postId) + 1)
      && (requestOk && LikedOf(s.likes, postId) ==>
            postId in r.likes && r.likes[postId].count == if CountOf(s.likes, postId) >= 1 then CountOf(s.likes, postId) - 1 else 0)
      && (requestOk ==> forall k :: k in s.likes && k != postId ==> k in r.likes && r.likes[k] == s.likes[k])
      && r.posts == s.posts && r.comments == s.comments
  {
    if requestOk {
      DispatchOne(s, UpdateLike(postId, !LikedOf(s.likes, postId)));
    }
  }

  /** An entry agrees with itself when it is non-negative and a liked post
      counts at least the viewer's own like. */
  predicate Consistent(e: LikeEntry)
  {
    e.count >= 0 && (e.liked ==> e.count >= 1)
  }

  /** Toggling keeps an entry consistent (an absent entry is consistent). */
  lemma ToggleKeepsConsistent(s: State, postId: string)
    requires postId in s.likes ==> Consistent(s.likes[postId])
    ensures var r := Dispatch(s, ToggleLikeActions(true, s.likes, postId, true));
      postId in r.likes && Consistent(r.likes[postId])
  {
    ToggleLikeEffect(s, postId, true);
  }

  /** Two successful toggles restore a consistent entry exactly. */
  lemma ToggleTwiceRestores(s: State, postId: string)
    requires postId in s.likes && Consistent(s.likes[postId])
    ensures var once := Dispatch(s, ToggleLikeActions(true, s.likes, postId, true));
      Dispatch(once, ToggleLikeActions(true, once.likes, postId, true)).likes == s.likes
  {
    ToggleLikeEffect(s, postId, true);
    var once := Dispatch(s, ToggleLikeActions(true, s.likes, postId, true));
    ToggleLikeEffect(once, postId, true);
    var twice := Dispatch(once, ToggleLikeActions(true, once.likes, postId, true));
    assert twice.likes[postId] == s.likes[postId];
    assert twice.likes == s.likes[postId := s.likes[postId]];
  }

  // ---------------------------------------------------------------------
  // initializeLikes

  /** `initializeLikes(postId)`: nothing without a user or when the count
      request fails; otherwise SET_LIKE with whether the viewer's like row
      was found and the count (`count || 0`). */
  function InitializeLikesActions(signedIn: bool, postId: string, likeFound: bool, count: Response<Option<nat>>): (acts: seq<Action>)
    ensures !signedIn || count.Failed? ==> acts == []
    ensures signedIn && count.Ok? ==> acts == [SetLike(postId, likeFound, count.data.GetOr(0))]
  {
    if !signedIn then []
    else match count
      case Failed => []
      case Ok(n) => [SetLike(postId, likeFound, n.GetOr(0))]
  }

  /** Initialising likes installs the backend's view and never a negative
      count. */
  lemma InitializeLikesEffect(s: State, postId: string, likeFound: bool, count: Response<Option<nat>>)
    requires CountsNonNegative(s.likes)
    ensures var r := Dispatch(s, InitializeLikesActions(true, postId, likeFound, count));
      && CountsNonNegative(r.likes)
      && (count.Failed? ==> r == s)
      && (count.Ok? ==> r.likes == s.likes[postId := LikeEntry(likeFound, count.data.GetOr(0))])
  {
    if count.Ok? {
      DispatchOne(s, SetLike(postId, likeFound, count.data.GetOr(0)));
    }
  }

  // ---------------------------------------------------------------------
  // createPost, deletePost, addComment, deleteComment

  /** What `createPost` inserts: the author's id, the trimmed content, and
      the image URL if the upload succeeded. */
  datatype PostInsert = PostInsert(userId: string, content: string, imageUrl: Option<string>)

  function NewPostInsert(userId: string, content: string, imageUrl: Option<string>): (ins: PostInsert)
    ensures ins.userId == userId && ins.imageUrl == imageUrl
    ensures ins.content == Trim(content)
    ensures Stripped(ins.content) && |ins.content| <= |content|
  {
    PostInsert(userId, Trim(content), imageUrl)
  }

  /** Text that passed `validatePostContent` is inserted non-empty. */
  lemma ValidatedContentInsertsText(userId: string, content: string, imageUrl: Option<string>)
    requires Validation.ValidatePostContent(content).valid
    ensures NewPostInsert(userId, content, imageUrl).content != []
  {
  }

  /** `createPost`: nothing without a user or when the insert fails;
      otherwise ADD_POST of the inserted row merged with the profile
      fetched for the signed-in user's id. */
  function CreatePostActions(signedIn: bool, userId: string, inserted: Response<PostRow>, profiles: Response<seq<ProfileRow>>): (acts: seq<Action>)
    ensures !signedIn || inserted.Failed? ==> acts == []
    ensures signedIn && inserted.Ok? ==> |acts| == 1 && acts[0].AddPost? && MergedFrom(acts[0].post, inserted.data, userId, profiles)
  {
    if !signedIn then []
    else match inserted
      case Failed => []
      case Ok(row) =>
        MergedAuthor(row, userId, [userId], profiles);
        [AddPost(WithAuthor(row, userId, FetchUserProfiles([userId], profiles)))]
  }

  /** A created post appears first in the feed, merged with the signed-in
      user's profile, and nothing else in the state changes. */
  lemma CreatePostEffect(s: State, userId: string, row: PostRow, profiles: Response<seq<ProfileRow>>)
    ensures var r := Dispatch(s, CreatePostActions(true, userId, Ok(row), profiles));
      && |r.posts| == |s.posts| + 1
      && MergedFrom(r.posts[0], row, userId, profiles)
      && r.posts[1..] == s.posts
      && r.loading == s.loading && r.refreshing == s.refreshing
      && r.comments == s.comments && r.likes == s.likes && r.error == s.error
  {
    var acts := CreatePostActions(true, userId, Ok(row), profiles);
    DispatchOne(s, acts[0]);
  }

  /** `deletePost`: DELETE_POST once the backend delete succeeded. */
  function DeletePostActions(postId: string, requestOk: bool): (acts: seq<Action>)
    ensures requestOk <==> acts == [DeletePost(postId)]
    ensures !requestOk ==> acts == []
  {
    if requestOk then [DeletePost(postId)] else []
  }

  /** A failed delete changes nothing; a successful one removes the post
      (see `DeletePostRemoves`) and changes nothing but the post list. */
  lemma DeletePostEffect(s: State, postId: string, requestOk: bool)
    ensures var r := Dispatch(s, DeletePostActions(postId, requestOk));
      && (!requestOk ==> r == s)
      && (requestOk ==> forall p :: p in r.posts ==> p.id != postId)
      && (requestOk ==> IsSubsequence(r.posts, s.posts) && r == s.(posts := r.posts))
  {
    if requestOk {
      DispatchOne(s, DeletePost(postId));
    }
  }

  /** What `addComment` inserts: the post, the author's id and the trimmed
      content. */
  datatype CommentInsert = CommentInsert(postId: string, userId: string, content: string)

  function NewCommentInsert(postId: string, userId: string, content: string): (ins: CommentInsert)
    ensures ins.postId == postId && ins.userId == userId
    ensures ins.content == Trim(content)
    ensures Stripped(ins.content) && |ins.content| <= |content|
    ensures ins.content == [] <==> AllWhitespace(content)
  {
    CommentInsert(postId, userId, Trim(content))
  }

  /** `addComment`: nothing without a user or when the insert fails;
      otherwise ADD_COMMENT of the inserted comment under `postId`. */
  function AddCommentActions(signedIn: bool, postId: string, inserted: Response<Comment>): (acts: seq<Action>)
    ensures !signedIn || inserted.Failed? ==> acts == []
    ensures signedIn && inserted.Ok? ==> acts == [AddComment(postId, inserted.data)]
  {
    if signedIn && inserted.Ok? then [AddComment(postId, inserted.data)] else []
  }

  /** The returned comment is appended to the post's list (see
      `AddCommentAppends`); other lists and the rest of the state stay. */
  lemma AddCommentEffect(s: State, postId: string, c: Comment)
    ensures var r := Dispatch(s, AddCommentActions(true, postId, Ok(c)));
      && postId in r.comments && r.comments[postId] == CommentsOf(s.comments, postId) + [c]
      && (forall k :: k in s.comments && k != postId ==> k in r.comments && r.comments[k] == s.comments[k])
      && r == s.(comments := r.comments)
  {
    DispatchOne(s, AddComment(postId, c));
  }

  /** `deleteComment`: nothing without a user or when the delete fails;
      otherwise DELETE_COMMENT. */
  function DeleteCommentActions(signedIn: bool, postId: string, commentId: string, requestOk: bool): (acts: seq<Action>)
    ensures !signedIn || !requestOk ==> acts == []
    ensures signedIn && requestOk ==> acts == [DeleteComment(postId, commentId)]
  {
    if signedIn && requestOk then [DeleteComment(postId, commentId)] else []
  }

  /** A failure or no user changes nothing; a successful delete removes the
      comment from the post's list (see `DeleteCommentRemoves`); other lists
      and the rest of the state stay. */
  lemma DeleteCommentEffect(s: State, postId: string, commentId: string, signedIn: bool, requestOk: bool)
    ensures var r := Dispatch(s, DeleteCommentActions(signedIn, postId, commentId, requestOk));
      && (!(signedIn && requestOk) ==> r == s)
      && (signedIn && requestOk ==> postId in r.comments && forall c :: c in r.comments[postId] ==> c.id != commentId)
      && (signedIn && requestOk ==> IsSubsequence(r.comments[postId], CommentsOf(s.comments, postId)))
      && (signedIn && requestOk ==> forall k :: k in s.comments && k != postId ==> k in r.comments && r.comments[k] == s.comments[k])
      && r == s.(comments := r.comments)
  {
    if signedIn && requestOk {
      DispatchOne(s, DeleteComment(postId, commentId));
    }
  }

  // ---------------------------------------------------------------------
  // uploadImage: file extension, file name, storage key

  /** `s.split('.').pop()`: the text after the last '.', or all of `s` when
      it has none. */
  function AfterLastDot(s: string): (r: string)
    ensures '.' !in r
    ensures |r| <= |s| && r == s[|s| - |r|..]
    ensures |r| < |s| ==> s[|s| - |r| - 1] == '.'
    decreases |s|
  {
    if s == [] || s[|s| - 1] == '.' then []
    else AfterLastDot(s[..|s| - 1]) + [s[|s| - 1]]
  }

  /** An extension holds no '.' and no ASCII capital. */
  predicate ExtensionChars(e: string)
  {
    forall i :: 0 <= i < |e| ==> e[i] != '.' && !('A' <= e[i] <= 'Z')
  }

  /** `uri.split('.').pop()?.toLowerCase() || 'jpg'`. */
  function FileExtension(uri: string): (ext: string)
    ensures ext != [] && ExtensionChars(ext)
  {
    var e := LowerAscii(AfterLastDot(uri));
    LowerAsciiExtension(AfterLastDot(uri));
    if e == [] then JpgExtension(); "jpg" else e
  }

  lemma JpgExtension()
    ensures ExtensionChars("jpg")
  {
    assert "jpg" == ['j', 'p', 'g'];
  }

  /** Lower-casing a dot-free string keeps it dot-free and leaves no ASCII
      capital. */
  lemma LowerAsciiExtension(s: string)
    requires '.' !in s
    ensures ExtensionChars(LowerAscii(s))
  {
    var r := LowerAscii(s);
    forall i | 0 <= i < |r| ensures r[i] != '.' && !('A' <= r[i] <= 'Z') {
      assert r[i] == LowerChar(s[i]);
    }
  }

  /** The extension of a name with a dot is what follows its last dot,
      lower-cased. */
  lemma {:induction false} ExtensionAfterLastDot(base: string, e: string)
    requires '.' !in e && e != []
    ensures FileExtension(base + "." + e) == LowerAscii(e)
  {
    AfterLastDotOfSuffix(base, e);
  }

  /** A URI without a dot is taken whole as the extension; a URI ending in a
      dot, or an empty one, falls back to "jpg". */
  lemma ExtensionEdgeCases(uri: string)
    ensures '.' !in uri && uri != [] ==> FileExtension(uri) == LowerAscii(uri)
    ensures (uri == [] || uri[|uri| - 1] == '.') ==> FileExtension(uri) == "jpg"
  {
    if '.' !in uri && uri != [] {
      var r := AfterLastDot(uri);
      assert |r| == |uri|;
    }
  }

  lemma {:induction false} AfterLastDotOfSuffix(base: string, e: string)
    requires '.' !in e
    ensures AfterLastDot(base + "." + e) == e
    decreases |e|
  {
    var s := base + "." + e;
    if e == [] {
      assert s[|s| - 1] == '.';
    } else {
      assert s[..|s| - 1] == base + "." + e[..|e| - 1];
      AfterLastDotOfSuffix(base, e[..|e| - 1]);
      assert e == e[..|e| - 1] + [e[|e| - 1]];
    }
  }

  /** `${user.id}/${Date.now()}.${fileExt}`, with the clock reading `now`
      passed in. */
  function FileName(userId: string, now: nat, uri: string): (name: string)
    ensures var ext := FileExtension(uri);
      && |name| >= |userId| + 1 + |ext| + 2
      && name[..|userId| + 1] == userId + "/"
      && name[|name| - |ext| - 1..] == "." + ext
  {
    StoragePath(userId, Decimal(now), FileExtension(uri))
  }

  /** `${folder}/${stem}.${ext}`: it starts with `folder + "/"` and ends
      with `"." + ext`. */
  function StoragePath(folder: string, stem: string, ext: string): (name: string)
    requires stem != []
    ensures |name| >= |folder| + 1 + |ext| + 2
    ensures name[..|folder| + 1] == folder + "/"
    ensures name[|name| - |ext| - 1..] == "." + ext
  {
    var name := folder + "/" + stem + "." + ext;
    assert name == (folder + "/") + (stem + ("." + ext));
    assert name == (folder + "/" + stem) + ("." + ext);
    name
  }

  /** `image/${fileExt}`. */
  function ContentType(uri: string): (t: string)
    ensures |t| > 6 && t[..6] == "image/" && t[6..] == FileExtension(uri)
  {
    "image/" + FileExtension(uri)
  }

  /** The extension read back from a generated file name is the extension
      it was built with. */
  lemma FileNameExtension(userId: string, now: nat, uri: string)
    ensures FileExtension(FileName(userId, now, uri)) == FileExtension(uri)
  {
    var ext := FileExtension(uri);
    ExtensionAfterLastDot(userId + "/" + Decimal(now), ext);
    LowerAsciiIdempotent(ext);
    assert LowerAscii(ext) == ext;
  }

  datatype Platform = Web | Native

  /** The outcomes of the requests `uploadImage` may make: the web upload;
      on native, whether a session exists, the multipart POST, and the
      base64 fallback upload. */
  datatype UploadOutcomes = UploadOutcomes(webUploadOk: bool, hasSession: bool, formPostOk: bool, base64UploadOk: bool)

  /** Where an uploaded image was stored and the key whose public URL
      `uploadImage` returns. */
  datatype StoredImage = StoredImage(objectKey: string, urlKey: string, contentType: string)

  /** `uploadImage` as written: the native multipart POST stores the file
      under `${user.id}/${fileName}`, while the URL is built for
      `fileName`. */
  function UploadImageAsWritten(platform: Platform, userId: string, now: nat, uri: string, out: UploadOutcomes): (r: Option<StoredImage>)
    ensures r.Some? ==> r.value.urlKey == FileName(userId, now, uri) && r.value.contentType == ContentType(uri)
  {
    var name := FileName(userId, now, uri);
    match platform
    case Web =>
      if out.webUploadOk then Some(StoredImage(name, name, ContentType(uri))) else None
    case Native =>
      if out.hasSession && out.formPostOk then Some(StoredImage(userId + "/" + name, name, ContentType(uri)))
      else if out.base64UploadOk then Some(StoredImage(name, name, ContentType(uri)))
      else None
  }

  /** On native with a session and a successful POST, the URL returned does
      not address the stored object. */
  lemma UploadAsWrittenMisplacesImage(userId: string, now: nat, uri: string, out: UploadOutcomes)
    requires out.hasSession && out.formPostOk
    ensures var r := UploadImageAsWritten(Native, userId, now, uri, out);
      r.Some? && r.value.objectKey != r.value.urlKey
  {
    var r := UploadImageAsWritten(Native, userId, now, uri, out);
    assert |r.value.objectKey| > |r.value.urlKey|;
  }

  /** Some upload attempt on the platform succeeded: the web upload, or on
      native the multipart POST (which needs a session) or the base64
      fallback. */
  predicate UploadSucceeds(platform: Platform, out: UploadOutcomes)
  {
    match platform
    case Web => out.webUploadOk
    case Native => (out.hasSession && out.formPostOk) || out.base64UploadOk
  }

  /** The code as written and the corrected upload succeed on the same
      outcomes and return a URL for the same key; they differ only in where
      the multipart POST stores the object. */
  lemma UploadVariantsAgreeOnUrl(platform: Platform, userId: string, now: nat, uri: string, out: UploadOutcomes)
    ensures UploadImageAsWritten(platform, userId, now, uri, out).Some? <==> UploadSucceeds(platform, out)
    ensures UploadImage(platform, userId, now, uri, out).Some? <==> UploadSucceeds(platform, out)
    ensures UploadSucceeds(platform, out) ==>
      UploadImageAsWritten(platform, userId, now, uri, out).value.urlKey == UploadImage(platform, userId, now, uri, out).value.urlKey
  {
  }

  /** `uploadImage` with every path storing the file under `fileName`. */
  function UploadImage(platform: Platform, userId: string, now: nat, uri: string, out: UploadOutcomes): (r: Option<StoredImage>)
    ensures r.Some? ==> r.value.contentType == ContentType(uri)
  {
    var name := FileName(userId, now, uri);
    var stored := Some(StoredImage(name, name, ContentType(uri)));
    match platform
    case Web => if out.webUploadOk then stored else None
    case Native => if (out.hasSession && out.formPostOk) || out.base64UploadOk then stored else None
  }

  /** The URL returned addresses the stored object, under the user's folder,
      and the upload fails exactly when every attempt on its platform
      failed. */
  lemma UploadedImageIsAddressed(platform: Platform, userId: string, now: nat, uri: string, out: UploadOutcomes)
    ensures var r := UploadImage(platform, userId, now, uri, out);
      && (r.Some? ==> r.value.objectKey == r.value.urlKey == FileName(userId, now, uri))
      && (r.Some? ==> r.value.objectKey[..|userId| + 1] == userId + "/")
      && (r.None? <==> ((platform == Web && !out.webUploadOk)
            || (platform == Native && !(out.hasSession && out.formPostOk) && !out.base64UploadOk)))
  {
    var name := FileName(userId, now, uri);
    assert name[..|userId| + 1] == userId + "/";
  }

  /** The image URL `createPost` inserts: none without an image URI (null or
      empty) or when the upload fails, which does not stop the post;
      otherwise the URL of the uploaded file's name. The corrected upload
      is used; by `UploadVariantsAgreeOnUrl` the code as written gives the
      same key on the same outcomes. */
  function CreatePostImageKey(imageUri: Option<string>, platform: Platform, userId: string, now: nat, out: UploadOutcomes): (key: Option<string>)
    ensures imageUri.None? || imageUri == Some("") ==> key.None?
    ensures imageUri.Some? && imageUri.value != "" ==> (key.Some? <==> UploadSucceeds(platform, out))
    ensures key.Some? ==> key.value == FileName(userId, now, imageUri.value)
  {
    match imageUri
    case None => None
    case Some(uri) =>
      if uri == "" then None
      else match UploadImage(platform, userId, now, uri, out)
        case None => None
        case Some(img) => Some(img.urlKey)
  }
}
