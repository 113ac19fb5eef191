# Feed client core, modelled in Dafny

This project models the logic core of a social-feed client: the posts
context that keeps the local view of posts, comments and likes, and the
input validators used by the sign-up, log-in and create-post screens.

- `Feed` (`feed.dfy`) holds the view state (`State`: the post list, the
  loading and refreshing flags, comments per post id, the like entry per
  post id, the error), the thirteen action shapes (the twelve action kinds
  plus `Unrecognized` for any other tag), `InitialState`, and the reducer
  `Reduce`. The reducer is a pure function of the state and the action,
  total over the ids it is given (see "## Left out"). `Dispatch` applies a list
  of actions in order.
- `FeedProperties` (`feed_properties.dfy`) states what each action does:
  - prepend, replace-by-id, filter-by-id, append and overwrite;
  - the saturating like counter;
  - idempotence of the deletions;
  - the like-count invariant over any action sequence.
- `Provider` (`provider.dfy`) holds the pure decisions inside the provider's
  callbacks. Each backend request becomes an outcome parameter (`Response`:
  `Ok(data)` or `Failed`). Each callback becomes the list of actions it
  dispatches. Pieces covered:
  - the like toggle;
  - the profile index and the post/profile merge with the "Unknown User"
    fallback;
  - fetch, refresh, create, delete, add-comment, delete-comment and
    initialise-likes;
  - the image file extension, file name and storage key.
- `Validation` (`validation.dfy`) holds the four validators.
  `validateEmail`'s regular expression is modelled two ways: as a
  left-to-right matcher (`ValidateEmail`), and as a direct reading of the
  pattern (`MatchesEmailPattern`). A lemma proves the two agree.
- `JsString` (`jsstring.dfy`) models the JavaScript string built-ins the
  core relies on:
  - `length`, which counts UTF-16 code units, so a character outside the
    Basic Multilingual Plane counts 2;
  - the whitespace class shared by `trim()` and `\s`, which is ECMAScript's
    WhiteSpace and LineTerminator set, written out code point by code point;
  - `trim`;
  - ASCII `toLowerCase`;
  - decimal rendering of the timestamp.
- `Options` (`options.dfy`) is the `Option` type for `null`/`undefined`.

Where messages and code disagree, the model follows the code.
`validateName` accepts a trimmed name of exactly 50 code units, although
its message says "less than 50". `validatePostContent` accepts exactly 5000,
although its message says "less than 5000". The lemma
`Validation.NameOfFiftyAccepted` records the first case.

## Model

| member | source | states |
|---|---|---|
| `Feed.Reduce` | src/contexts/PostsContext.tsx:40-121 | every reducer step keeps all like counts non-negative, unless it is a SET_LIKE with a negative count |
| `Feed.Filter` | src/contexts/PostsContext.tsx:57-61 | `filter` keeps exactly the elements satisfying the predicate: in their order (a subsequence), each as often as before, and no others |
| `Feed.FilterKeepsAll` | src/contexts/PostsContext.tsx:57-61 | filtering a list whose every element passes returns the list unchanged |
| `Feed.ReplaceById` | src/contexts/PostsContext.tsx:50-56 | the id-based `map` keeps the length; at each position it holds the payload if the ids match and the old post otherwise |
| `Feed.CommentsOf` | src/contexts/PostsContext.tsx:76 | `state.comments[postId] \|\| []`: the post's list when the key is present, the empty list otherwise |
| `Feed.CountOf` | src/contexts/PostsContext.tsx:111-112 | `state.likes[postId]?.count \|\| 0`: the stored count when the entry is present, 0 otherwise; never negative while every stored count is non-negative |
| `Feed.LikedOf` | src/contexts/PostsContext.tsx:424 | `currentLike?.liked \|\| false`: the stored flag when the entry is present, false otherwise |
| `Feed.UpdatedLike` | src/contexts/PostsContext.tsx:102-115 | the written entry carries the new flag; a like adds one to the old count (0 when absent); an unlike subtracts one but never goes below zero, and never yields a negative count from non-negative counts |
| `Feed.Dispatch` | src/contexts/PostsContext.tsx:138 | dispatching only unrecognised actions leaves the state unchanged |
| `Feed.DispatchOne` | src/contexts/PostsContext.tsx:138 | dispatching a single action is one reducer step |
| `FeedProperties.SettersChangeOnlyTheirField` | src/contexts/PostsContext.tsx:42-47 | SET_LOADING, SET_REFRESHING, SET_POSTS and SET_ERROR each replace their own field; every other field stays |
| `FeedProperties.UnrecognizedIsIdentity` | src/contexts/PostsContext.tsx:118-119 | an unrecognised action returns the state unchanged |
| `FeedProperties.ActionsTouchOnlyTheirPart` | src/contexts/PostsContext.tsx:40-121 | only post actions change `posts`; only comment actions change `comments`; only like actions change `likes`; each flag changes only under its own setter |
| `FeedProperties.AddPostPrepends` | src/contexts/PostsContext.tsx:48-49 | ADD_POST gives a list one longer whose head is the payload and whose tail is the old list |
| `FeedProperties.UpdatePostReplaces` | src/contexts/PostsContext.tsx:50-56 | UPDATE_POST keeps length, order and ids; posts with the payload's id become the payload; the others stay |
| `FeedProperties.UpdateUnknownPostIsIdentity` | src/contexts/PostsContext.tsx:50-56 | UPDATE_POST for an id absent from the feed leaves the state unchanged |
| `FeedProperties.DeletePostRemoves` | src/contexts/PostsContext.tsx:57-61 | after DELETE_POST no post has the id; the survivors are old posts in their old relative order, each as often as before |
| `FeedProperties.DeletePostIdempotent` | src/contexts/PostsContext.tsx:57-61 | DELETE_POST twice equals DELETE_POST once |
| `FeedProperties.AddCommentAppends` | src/contexts/PostsContext.tsx:70-80 | ADD_COMMENT makes the post's list the old list (empty if absent) plus the comment; other posts' lists and the key set otherwise stay |
| `FeedProperties.SetCommentsOverwrites` | src/contexts/PostsContext.tsx:62-69 | SET_COMMENTS overwrites exactly the post's list; other keys stay |
| `FeedProperties.DeleteCommentRemoves` | src/contexts/PostsContext.tsx:81-90 | after DELETE_COMMENT the post's list has no comment with the id; the other comments keep order and multiplicity; an absent key is created empty; other keys stay |
| `FeedProperties.DeleteCommentIdempotent` | src/contexts/PostsContext.tsx:81-90 | DELETE_COMMENT twice equals DELETE_COMMENT once |
| `FeedProperties.SetLikeOverwrites` | src/contexts/PostsContext.tsx:91-101 | SET_LIKE writes the entry exactly; other entries stay |
| `FeedProperties.UpdateLikeCounts` | src/contexts/PostsContext.tsx:102-115 | UPDATE_LIKE sets the flag; a like makes the count old+1; an unlike makes it max(old-1, 0); an absent entry counts as 0; other entries stay |
| `FeedProperties.LikeThenUnlikeRestoresCount` | src/contexts/PostsContext.tsx:102-115 | a like then an unlike restores a non-negative count and leaves the post not liked |
| `FeedProperties.DispatchKeepsCountsNonNegative` | src/contexts/PostsContext.tsx:91-115 | counts stay non-negative under any action sequence whose SET_LIKE counts are non-negative |
| `FeedProperties.DispatchAppend` | src/contexts/PostsContext.tsx:138 | dispatching two batches in turn equals dispatching their concatenation |
| `FeedProperties.InitialStateIsEmpty` | src/contexts/PostsContext.tsx:31-38 | the initial state is an empty, loading, non-refreshing feed with no comments, likes or error |
| `Provider.IndexProfilesSpec` | src/contexts/PostsContext.tsx:161-164 | the profile index has a key for every row id and no other keys; each key holds the last row with that id |
| `Provider.IndexProfilesKeys` | src/contexts/PostsContext.tsx:161-164 | every row id is a key of the profile index |
| `Provider.IndexProfilesOnlyKeys` | src/contexts/PostsContext.tsx:161-164 | every key of the profile index is the id of some row |
| `Provider.IndexProfilesLastWins` | src/contexts/PostsContext.tsx:161-164 | a key holds the profile of the last row with that id, since later rows overwrite earlier ones |
| `Provider.IndexProfiles` | src/contexts/PostsContext.tsx:161-164 | the profile index has no more keys than there are rows |
| `Provider.FetchUserProfiles` | src/contexts/PostsContext.tsx:147-165 | an empty id list, or a request that returned an error, gives the empty map; otherwise the result is the index of the returned rows |
| `Provider.WithAuthor` | src/contexts/PostsContext.tsx:187-194 | the merged post keeps every row field; its author is the profile stored under the given author id when there is one and "Unknown User" with no avatar otherwise; its like list is empty |
| `Provider.WithAuthors` | src/contexts/PostsContext.tsx:187-194 | the merge keeps the rows' count and order, merging each row |
| `Provider.UserIds` | src/contexts/PostsContext.tsx:184 | the user-id list lists each row's author, in the rows' order |
| `Provider.MergedAuthor` | src/contexts/PostsContext.tsx:187-194 | merging a row with the profiles fetched for a list holding the author id keeps the row's fields and attaches the last profile row with that id, or "Unknown User" when the profile request returned an error or no such row |
| `Provider.FetchedPosts` | src/contexts/PostsContext.tsx:179-202 | a failed query gives no posts; a successful one gives one post per row |
| `Provider.FetchPostsActions` | src/contexts/PostsContext.tsx:167-206 | `fetchPosts` first sets loading, finally clears it, and every SET_POSTS in between carries the fetched posts (there is one) |
| `Provider.FetchedPostsShape` | src/contexts/PostsContext.tsx:179-202 | a failed query gives no posts; otherwise one post per row, in order, keeping the row's id, user id, content, image URL and timestamps, with no likes; the author is the last returned profile row with the row's `user_id`, or "Unknown User" when the profile request returned an error or no such row |
| `Provider.FetchPostsEffect` | src/contexts/PostsContext.tsx:167-206 | after `fetchPosts` the feed holds the fetched posts, loading is false, and nothing else changed |
| `Provider.RefreshPostsActions` | src/contexts/PostsContext.tsx:332-336 | `refreshPosts` sets refreshing first, clears it last, and dispatches exactly `fetchPosts`'s actions in between |
| `Provider.RefreshPostsEffect` | src/contexts/PostsContext.tsx:332-336 | after `refreshPosts` the feed holds the fetched posts, loading and refreshing are false, and nothing else changed |
| `Provider.ToggleLikeRequest` | src/contexts/PostsContext.tsx:423-442 | the toggle removes the like exactly when the entry exists and is liked; otherwise it inserts one |
| `Provider.ToggleLikeActions` | src/contexts/PostsContext.tsx:419-450 | nothing is dispatched without a user or when the request fails; otherwise one UPDATE_LIKE with the negated current flag (absent counts as not liked) |
| `Provider.ToggleLikeEffect` | src/contexts/PostsContext.tsx:423-450 | a failed toggle leaves the state unchanged; a successful one flips the flag, moves the count by one in that direction (never below 0) and leaves other entries, posts and comments alone |
| `Provider.ToggleKeepsConsistent` | src/contexts/PostsContext.tsx:423-447 | toggling keeps an entry consistent: non-negative, and at least 1 when liked |
| `Provider.ToggleTwiceRestores` | src/contexts/PostsContext.tsx:423-447 | two successful toggles restore a consistent entry and the whole likes map |
| `Provider.InitializeLikesActions` | src/contexts/PostsContext.tsx:385-417 | nothing is dispatched without a user or when the count request fails; otherwise one SET_LIKE with the found flag and `count \|\| 0` |
| `Provider.InitializeLikesEffect` | src/contexts/PostsContext.tsx:402-411 | initialising likes writes the backend's entry and keeps every count non-negative |
| `Provider.NewPostInsert` | src/contexts/PostsContext.tsx:297-303 | the insert carries the user's id, `content.trim()` and the image URL; the inserted content neither starts nor ends with whitespace and is no longer than the input |
| `Provider.ValidatedContentInsertsText` | src/contexts/PostsContext.tsx:301 | content that passed `validatePostContent` is inserted non-empty after trimming |
| `Provider.CreatePostActions` | src/contexts/PostsContext.tsx:283-324 | nothing is dispatched without a user or when the insert fails; otherwise one ADD_POST of the inserted row with every field kept, no likes, and the author looked up by the signed-in user's id: the last returned profile row with that id, or "Unknown User" when the profile request returned an error or no such row |
| `Provider.CreatePostEffect` | src/contexts/PostsContext.tsx:309-319 | a created post becomes the feed's head above the old list, merged from the inserted row with the signed-in user's profile (or "Unknown User" when the profile request returned an error or no row); loading, refreshing, comments, likes and error stay |
| `Provider.DeletePostActions` | src/contexts/PostsContext.tsx:326-330 | DELETE_POST is dispatched exactly when the backend delete succeeded |
| `Provider.DeletePostEffect` | src/contexts/PostsContext.tsx:326-330 | a failed delete changes nothing; a successful one leaves no post with the id, keeps the survivors in order, and changes nothing but the post list |
| `Provider.NewCommentInsert` | src/contexts/PostsContext.tsx:344-348 | the comment insert carries the post id, the user's id and `content.trim()`: stripped, no longer than the input, and empty exactly when the input is all whitespace |
| `Provider.AddCommentActions` | src/contexts/PostsContext.tsx:338-363 | ADD_COMMENT of the inserted comment is dispatched exactly when a user is signed in and the insert succeeded |
| `Provider.AddCommentEffect` | src/contexts/PostsContext.tsx:357-360 | a successful comment is appended to the post's list; other posts' lists and the rest of the state stay |
| `Provider.DeleteCommentActions` | src/contexts/PostsContext.tsx:365-383 | DELETE_COMMENT is dispatched exactly when a user is signed in and the delete succeeded |
| `Provider.DeleteCommentEffect` | src/contexts/PostsContext.tsx:365-383 | a failed or unauthenticated delete changes nothing; a successful one leaves no comment with the id under the post, keeps the others in order, and changes nothing else |
| `Provider.AfterLastDot` | src/contexts/PostsContext.tsx:211 | `split('.').pop()` is a dot-free suffix that is either the whole string or preceded by a '.' |
| `Provider.FileExtension` | src/contexts/PostsContext.tsx:211 | the extension is non-empty, has no '.' and no ASCII capital |
| `Provider.LowerAsciiExtension` | src/contexts/PostsContext.tsx:211 | lower-casing the text after the last dot keeps it free of '.' and leaves no ASCII capital |
| `Provider.ExtensionAfterLastDot` | src/contexts/PostsContext.tsx:211 | for `base + "." + e` with a dot-free non-empty `e`, the extension is `e` lower-cased |
| `Provider.ExtensionEdgeCases` | src/contexts/PostsContext.tsx:211 | a URI without a dot is taken whole as the extension; an empty URI, or one ending in '.', falls back to "jpg" |
| `Provider.AfterLastDotOfSuffix` | src/contexts/PostsContext.tsx:211 | splitting `base + "." + e` on '.' ends with `e` when `e` has no dot |
| `Provider.FileNameExtension` | src/contexts/PostsContext.tsx:211-212 | the extension read back from the generated file name is the one it was built with |
| `Provider.FileName` | src/contexts/PostsContext.tsx:212 | the file name starts with the user's folder `userId/` and ends with `.` and the extension |
| `Provider.StoragePath` | src/contexts/PostsContext.tsx:212 | `folder/stem.ext` starts with `folder/` and ends with `.ext` |
| `Provider.ContentType` | src/contexts/PostsContext.tsx:221 | the content type is `image/` followed by the extension |
| `Provider.UploadImageAsWritten` | src/contexts/PostsContext.tsx:209-281 | the code as written: every successful upload returns the URL of `fileName` with content type `image/<ext>` |
| `Provider.UploadAsWrittenMisplacesImage` | src/contexts/PostsContext.tsx:228-277 | as written, a native multipart upload stores the object under a key that differs from the one the returned URL designates |
| `Provider.UploadImage` | src/contexts/PostsContext.tsx:209-281 | corrected upload: every success has content type `image/<ext>` |
| `Provider.UploadedImageIsAddressed` | src/contexts/PostsContext.tsx:209-281 | corrected upload: the stored key equals the URL's key, which is the file name under the user's folder; failure happens exactly when every attempt on the platform failed |
| `Provider.UploadVariantsAgreeOnUrl` | src/contexts/PostsContext.tsx:209-281 | the upload as written and the corrected upload succeed on the same outcomes and return the URL of the same key |
| `Provider.CreatePostImageKey` | src/contexts/PostsContext.tsx:287-295 | no image URI (null or empty) means no image URL; for a non-empty URI there is a URL exactly when an upload attempt succeeded, so a failed upload still gives a text-only post; a URL designates the generated file name |
| `Validation.ValidatePassword` | src/utils/validation.ts:6-16 | valid exactly when the length is at least 6 code units, with no upper bound; a rejection carries the length message and an acceptance carries none |
| `Validation.ValidateName` | src/utils/validation.ts:18-31 | valid exactly when 2 <= trimmed length <= 50; too short takes the first message, too long the second; a message is present exactly on rejection |
| `Validation.ValidateNameIgnoresPadding` | src/utils/validation.ts:24-30 | surrounding whitespace never changes a name's verdict |
| `Validation.SameTrimSameVerdict` | src/utils/validation.ts:24-30 | two names with the same trimmed text get the same verdict |
| `Validation.NameOfFiftyAccepted` | src/utils/validation.ts:27-28 | a stripped name of exactly 50 code units passes |
| `Validation.ValidatePostContent` | src/utils/validation.ts:33-46 | valid exactly when the text is not all whitespace and its untrimmed length is at most 5000; an all-whitespace text of any length gets "Post cannot be empty"; a message is present exactly on rejection |
| `Validation.PaddingCountsTowardsPostLimit` | src/utils/validation.ts:39-45 | whitespace padding counts towards the 5000 limit although it does not make a post non-empty |
| `Validation.EmailRunAccepts` | src/utils/validation.ts:2 | from each matcher state, the run ends accepting exactly on the inputs that state's part of the pattern describes |
| `Validation.EmailStep` | src/utils/validation.ts:2 | whitespace, and an '@' anywhere but right after a non-empty local part, lead to the dead state, which no character leaves; no step returns to the start |
| `Validation.EmailRun` | src/utils/validation.ts:2 | a run from the dead state, or over text holding whitespace, ends dead |
| `Validation.LocalThenAtom` | src/utils/validation.ts:2 | inside the part before '@', a `[^\s@]` character extends that part |
| `Validation.LocalThenAt` | src/utils/validation.ts:2 | an '@' ends the part before it, which must be non-empty |
| `Validation.LocalThenOther` | src/utils/validation.ts:2 | whitespace before the '@' makes the address fail |
| `Validation.MatcherAcceptsPattern` | src/utils/validation.ts:1-4 | the matcher ends in its accepting state exactly when the string is `L@D.T` with L, D and T non-empty and free of whitespace and '@' |
| `Validation.StartAcceptsPattern` | src/utils/validation.ts:2 | what the matcher accepts from its start state is exactly the pattern's language |
| `Validation.ValidateEmail` | src/utils/validation.ts:1-4 | `validateEmail` is true exactly when the string matches `/^[^\s@]+@[^\s@]+\.[^\s@]+$/`, read directly as `L@D.T` |
| `Validation.AcceptedEmailShape` | src/utils/validation.ts:1-4 | an accepted address has no whitespace, and has an '@' and a '.' after it that neither follows it directly nor is last |
| `Validation.AcceptedEmailHasOneAt` | src/utils/validation.ts:1-4 | an accepted address has exactly one '@' |
| `Validation.PatternHasOneAt` | src/utils/validation.ts:2 | a string the email pattern describes has exactly one '@' |
| `Validation.AtomsHoldNoAt` | src/utils/validation.ts:2 | a run of `[^\s@]` characters contains no '@' |
| `Validation.DomainHoldsNoAt` | src/utils/validation.ts:2 | the domain part of a matching address contains no '@' |
| `Validation.EmailWithoutAtRejected` | src/utils/validation.ts:1-4 | the empty string and every string without '@' are rejected |
| `JsString.Utf16Length` | src/utils/validation.ts:12 | `length` lies between the character count and twice it, and equals the character count exactly when no character lies above U+FFFF |
| `JsString.IsWhitespace` | src/utils/validation.ts:24 | the class shared by `trim()` and `\s`: on ASCII it is exactly space and tab through carriage return; it never holds '@', '.', a digit or an ASCII letter |
| `JsString.Utf16LengthAppend` | src/utils/validation.ts:42 | `length` adds up over concatenation |
| `JsString.LeadingWhitespace` | src/utils/validation.ts:24 | the leading run that `trim` drops is all whitespace and maximal |
| `JsString.TrailingWhitespace` | src/utils/validation.ts:24 | the trailing run that `trim` drops is all whitespace and maximal |
| `JsString.Trim` | src/utils/validation.ts:39 | the trimmed text is no longer than the input, neither starts nor ends with whitespace, and is empty exactly when the input is all whitespace |
| `JsString.TrimOfPadded` | src/utils/validation.ts:24 | a stripped core surrounded by whitespace trims to that core |
| `JsString.TrimIdempotent` | src/contexts/PostsContext.tsx:301 | trimming twice equals trimming once |
| `JsString.LowerAscii` | src/contexts/PostsContext.tsx:211 | lower-casing keeps the length and maps each character on its own |
| `JsString.LowerAsciiIdempotent` | src/contexts/PostsContext.tsx:211 | lower-cased text has no ASCII capital, and lower-casing again changes nothing |
| `JsString.Decimal` | src/contexts/PostsContext.tsx:212 | the timestamp renders as a non-empty string of digits with no leading zero |
| `JsString.DecimalRoundTrip` | src/contexts/PostsContext.tsx:212 | reading the rendered digits back gives the timestamp |

## Left out

- Backend traffic is not modelled. This covers every query, insert and delete, the `.eq`, `.in` and `.order` filters, storage uploads, `getPublicUrl`, `getSession`, `fetch`, blob and base64 file reads, and the realtime `posts-channel` subscription. Each such call is replaced by an outcome parameter. A public URL is represented by the storage key it designates.
- A successful posts query that returns `null` data is treated like an empty result (`Ok([])`): both dispatch an empty post list.
- React machinery (`useReducer`, `useCallback`, `useEffect`, context lookup) is not modelled. `likesRef` is the snapshot of likes that `toggleLike` reads, and the model passes it in as a parameter. Its lag behind the state and the interleaving of concurrent async callbacks are not modelled: each callback's dispatches are applied back to back.
- A profile request that throws is not a separate outcome. `fetchUserProfiles` turns only a returned `error` into `{}`; this is the profile `Response`'s `Failed`. A rejection escapes it: `fetchPosts` catches it and dispatches an empty post list, and `createPost` dispatches nothing. Those are exactly the actions of a failed posts query (`query` `Failed`) and a failed insert (`inserted` `Failed`), so a thrown profile request is represented by those.
- Error texts that are thrown or logged are not modelled: 'User not authenticated', 'Failed to upload image: …', and the console messages. A thrown error is an empty action list.
- `createPost`'s return value and the post list sent by `fetchPosts(userId)` with a user filter are not modelled. The filter is applied by the backend.
- Post, comment and user ids are opaque backend keys (UUIDs), and the keyed collections (`comments`, `likes`, the profile index) are maps. The source stores them in plain JavaScript objects. There, a key naming an inherited property (`constructor`, `toString`, `__proto__`) reads a value from `Object.prototype`: ADD_COMMENT and DELETE_COMMENT would then throw, and a profile with id `__proto__` would replace the prototype rather than add a key. These inherited property names are not modelled.
- Strings are sequences of Unicode scalar values, so a JavaScript string holding a lone surrogate cannot be represented. `Utf16Length` counts the code units of a well-formed string.
- Like counts are unbounded integers. JavaScript numbers are doubles, which are exact up to 2^53.
- Post and comment payloads are kept as plain fields. The comment's attached `profiles` object is reduced to its name and avatar (`Author`). The profile row's `id` is kept only as the index key.
- `Provider.FileExtension`: `toLowerCase` is modelled for ASCII letters only. Full Unicode case mapping is locale data outside this model.
- `Platform.OS` is a parameter (`Platform`). `Date.now()` is a parameter (`now`).
- `AuthContext.tsx`, the screens, components, navigators and the avatar helpers are UI or backend glue outside this model.

## Findings

| source | as written | input that shows it | evidently intended | confidence | as-written member | corrected member |
|---|---|---|---|---|---|---|
| src/contexts/PostsContext.tsx:212-277 | the native multipart upload posts to `post-images/${user.id}/${fileName}`, but `fileName` already starts with `${user.id}/`; so the object lands at `u/u/<ts>.<ext>`, while the URL returned is `getPublicUrl(fileName)`, the key `u/<ts>.<ext>` | native platform, a session, a successful POST; user id `u1`, `Date.now()` = 1700000000000, uri `file:///a/photo.JPG`: stored at `u1/u1/1700000000000.jpg`, URL for `u1/1700000000000.jpg` | the POST stores the image under `fileName`, the key whose URL is returned (as the web path and the base64 fallback do) | medium, not executed | `Provider.UploadImageAsWritten`, `Provider.UploadAsWrittenMisplacesImage` | `Provider.UploadImage`, `Provider.UploadedImageIsAddressed` |
