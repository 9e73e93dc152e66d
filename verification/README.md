# Inkwell core in Dafny

Inkwell is a blogging front end: readers browse a feed of articles, filter it by category
and free-text search, open an article, like and bookmark it, and discuss it in two-level
comment threads; signed-in writers publish new articles. Every piece of data comes from two
in-memory mock services. This project models the non-presentational core of that program
as immutable datatypes and pure functions, and proves what the code promises about them.

| file | module | models |
|---|---|---|
| `wrappers.dfy` | `Wrappers` | `Option`, used for `null`, `undefined` and optional fields |
| `seqs.dfy` | `Seqs` | `filter`, `find` followed by an in-place update, `map`, subsequences, unique keys |
| `text.dfy` | `Text` | `toLowerCase`, `includes`, one-character `split`, `trim`, the newline to `<br>` rewrite |
| `types.dfy` | `Types` | `User`, `Article`, `Comment`, and the shared like/bookmark toggle |
| `article_service.dfy` | `ArticleService` | the article store: lookup, category query, create, like, bookmark |
| `comment_service.dfy` | `CommentService` | the comment store: per-article threading, create, like |
| `app.dfy` | `Feed` | the feed filter and the sign-in-gated handlers of `App` |
| `article_editor.dfy` | `ArticleEditor` | tag parsing, word count, read time, excerpt, content rewrite, submit |
| `use_auth.dfy` | `Auth` | the session state machine with an abstract persisted slot |
| `article_detail.dfy` | `ArticleDetail` | the article page's optimistic updaters and comment prepend |
| `comment_section.dfy` | `CommentSection` | the comment/reply form guards and the reply-target machine |

Modelling choices:

- A store is a `seq`. The service's array and the views' copies are separate immutable
  values. The fresh id and the current time that the source takes from `Date.now()` and
  `new Date()` are parameters.
- The optional flags `isLiked?` and `isBookmarked?` are `Option<bool>`. JavaScript
  truthiness is the predicate `Truthy`, under which `undefined` counts as false. A toggle
  always leaves the flag defined. So two toggles restore the count and the truth value,
  but restore the field itself only when it was defined (`Types.ToggleTwice`).
- `!comment.parentId` is true both for a missing parent and for the empty string, so
  `CommentService.IsTopLevel` accepts both. A consequence: if a top-level comment has the id
  `""`, any comment whose parent is `""` appears both at top level and as its reply
  (`CommentService.EmptyIdCountedTwice`). The size bound `ThreadedSizeBound` therefore
  assumes non-empty ids, which the source always produces.
- The service toggles only the first article with a given id (`find`), while `App`'s
  `map` update toggles every loaded copy with that id. They agree when ids are distinct
  (`Feed.MapToggleMatchesService`).
- `createArticle` spreads every field the caller passes, including `isLiked` and
  `isBookmarked`. A draft that arrives already flagged therefore breaks the counter
  invariant. `ArticleService.CreateArticleConsistent` states the exact condition, and the
  editor never passes those flags (`ArticleEditor.SubmitKeepsStoreConsistent`).

Behaviours of the code that are easy to miss:

- An unknown id makes like and bookmark a silent no-op. No not-found error is raised.
- The word count is `split(' ').length`, that is, the number of spaces plus one. It does
  not count whitespace-delimited tokens.
- The excerpt always gets `"..."` appended, even to short content.
- A category is any string. The feed stage compares it case-sensitively, while the
  service query compares it ignoring case.
- A reply to a reply is not rejected; threading drops it silently.

## Model

| member | source | states |
|---|---|---|
| `Types.Toggle` | project/src/services/articleService.ts:182-183 | the flag's truth value flips and becomes defined; the count moves +1 if the new value is set, −1 if not |
| `Types.ToggleTwice` | project/src/services/articleService.ts:182-183 | two toggles restore the count and the truth value; they restore the flag exactly iff it was defined |
| `Types.ToggleKeepsConsistent` | project/src/services/articleService.ts:182-183 | a toggle keeps count ≥ 0 and (flag set ⇒ count ≥ 1) |
| `Types.ToggledLike` | project/src/services/articleService.ts:182-183 | the like toggle applies the toggle step to `likes`/`isLiked` and changes no other field |
| `Types.ToggledBookmark` | project/src/services/articleService.ts:191-192 | the bookmark toggle applies the toggle step to `bookmarks`/`isBookmarked` and changes no other field |
| `Types.ToggledCommentLike` | project/src/services/commentService.ts:75-76 | the comment like toggle applies the toggle step to `likes`/`isLiked` and changes no other field |
| `Types.ToggledCommentLikeTwice` | project/src/services/commentService.ts:75-76 | liking a comment twice restores `likes`; it restores the comment exactly when `isLiked` was defined, otherwise it leaves `isLiked` false |
| `Types.ToggledCommentLikeKeepsConsistent` | project/src/services/commentService.ts:75-76 | the comment like toggle keeps likes ≥ 0 and (liked ⇒ likes ≥ 1) |
| `Types.ToggledLikeTwice` | project/src/services/articleService.ts:180-184 | liking twice restores `likes`; it restores the article exactly when `isLiked` was defined, otherwise it leaves `isLiked` false |
| `Types.ToggledBookmarkTwice` | project/src/services/articleService.ts:189-193 | bookmarking twice restores `bookmarks`; it restores the article exactly when `isBookmarked` was defined |
| `Types.TogglesKeepArticleConsistent` | project/src/services/articleService.ts:180-193 | both toggles keep both counter pairs consistent |
| `ArticleService.GetArticleById` | project/src/services/articleService.ts:155 | null exactly when no article has the id; otherwise an article with that id such that no earlier article has it |
| `ArticleService.GetArticlesByCategory` | project/src/services/articleService.ts:160 | exactly the articles whose lowered category equals the lowered argument, with their multiplicities, as a subsequence of the store |
| `ArticleService.NewArticle` | project/src/services/articleService.ts:165-173 | likes, bookmarks and views are 0; the id and both dates are the given ones; every caller field is copied |
| `ArticleService.CreateArticle` | project/src/services/articleService.ts:163-176 | the new article is at index 0, the old store follows unchanged, and the length grows by one |
| `ArticleService.CreateArticleConsistent` | project/src/services/articleService.ts:165-174 | a consistent store stays consistent iff the draft is neither liked nor bookmarked |
| `ArticleService.LikeArticle` | project/src/services/articleService.ts:178-185 | same length; an unknown id changes nothing; the first article with the id is like-toggled and every other article is unchanged; ids and views are never changed |
| `ArticleService.BookmarkArticle` | project/src/services/articleService.ts:187-194 | same length; an unknown id changes nothing; the first article with the id is bookmark-toggled and every other article is unchanged; ids and views are never changed |
| `ArticleService.LikeArticleChangesFirstMatch` | project/src/services/articleService.ts:180-193 | for a known id, the first article with it is toggled and every other article stays as it was |
| `ArticleService.TogglesKeepStoreConsistent` | project/src/services/articleService.ts:180-193 | liking or bookmarking keeps every article's counters consistent |
| `ArticleService.LikeArticleTwice` | project/src/services/articleService.ts:180-184 | two likes restore every count and liked state; with defined flags they restore the store exactly |
| `ArticleService.BookmarkArticleTwice` | project/src/services/articleService.ts:189-193 | two bookmarks restore every count and bookmarked state; with defined flags they restore the store exactly |
| `CommentService.Scoped` | project/src/services/commentService.ts:47 | exactly the store's comments whose `articleId` is the argument |
| `CommentService.TopLevelOf` | project/src/services/commentService.ts:49 | exactly the scoped comments without a (truthy) parent |
| `CommentService.GetCommentsByArticleId` | project/src/services/commentService.ts:45-56 | one entry per in-scope top-level comment, which differs from it only in `replies`; each is on the article and top-level; each one's replies are exactly the in-scope comments whose parent is its id |
| `CommentService.UnrepliedEntryHasNoReplies` | project/src/services/commentService.ts:50-53 | a thread entry whose id no stored comment names as parent gets an empty reply list |
| `CommentService.TopLevelInStoreOrder` | project/src/services/commentService.ts:47-50 | the top-level list is a single filter of the store, hence a subsequence of it in store order |
| `CommentService.RepliesInStoreOrder` | project/src/services/commentService.ts:47-52 | each reply list equals the one-pass filter of the store by article and parent, in store order |
| `CommentService.OrphanDropped` | project/src/services/commentService.ts:49-53 | a comment whose parent names no in-scope top-level comment appears neither at top level nor in any reply list |
| `CommentService.ReplyToReplyDropped` | project/src/services/commentService.ts:49-53 | with distinct ids, a reply to a non-top-level comment appears nowhere |
| `CommentService.NoSharedReplies` | project/src/services/commentService.ts:49-52 | with distinct ids, no comment is in the reply lists of two different top-level entries |
| `CommentService.ThreadedSizeBound` | project/src/services/commentService.ts:47-53 | with distinct non-empty ids, the top-level entries plus all replies number at most the article's comments |
| `CommentService.EmptyIdCountedTwice` | project/src/services/commentService.ts:49-52 | with a top-level id `""`, two comments thread into two entries plus one reply |
| `CommentService.CreateComment` | project/src/services/commentService.ts:58-69 | the new comment has 0 likes, `isLiked` false, no replies, the given id and time, and the caller's fields; it is appended at the end of the store |
| `CommentService.LikeComment` | project/src/services/commentService.ts:71-78 | same length; an unknown id changes nothing; the first comment with the id is like-toggled and every other comment is unchanged |
| `CommentService.CreateCommentConsistent` | project/src/services/commentService.ts:60-67 | a new comment (0 likes, not liked) keeps a consistent comment store consistent |
| `CommentService.LikeCommentKeepsConsistent` | project/src/services/commentService.ts:73-77 | liking a comment keeps every comment's like counter consistent |
| `CommentService.LikeCommentTwice` | project/src/services/commentService.ts:73-77 | two likes restore every like count and liked state; with defined flags they restore the store exactly |
| `Feed.MatchesQuery` | project/src/App.tsx:39-44 | the article matches iff the lowered query occurs in one of its lowered searched texts (title, content, a tag, the author's name); the empty query matches every article |
| `Feed.Visible` | project/src/App.tsx:33-45 | with "All" and an empty query every article is visible; a visible article has the selected category unless it is "All", and matches a non-empty query |
| `Feed.FilterFeed` | project/src/App.tsx:29-48 | exactly the loaded articles passing both active stages, with their multiplicities |
| `Feed.FeedSound` | project/src/App.tsx:33-45 | with a category other than "All", every visible article has exactly that category; with a query, every visible article matches it |
| `Feed.FeedIsOneFilter` | project/src/App.tsx:30-47 | the two stages equal one filter by the combined test, so the feed is a subsequence of the loaded articles |
| `Feed.FeedUnfiltered` | project/src/App.tsx:30-47 | "All" with an empty query shows the loaded list unchanged |
| `Feed.FeedIdempotent` | project/src/App.tsx:33-45 | filtering the feed again with the same settings returns it unchanged |
| `Feed.MapToggleLike` | project/src/App.tsx:78-88 | articles with other ids are unchanged; those with the id are like-toggled |
| `Feed.MapToggleBookmark` | project/src/App.tsx:102-112 | articles with other ids are unchanged; those with the id are bookmark-toggled |
| `Feed.HandleLike` | project/src/App.tsx:70-92 | signed out: only the sign-in modal opens; signed in: the service likes and the loaded copies toggle, modals untouched |
| `Feed.HandleBookmark` | project/src/App.tsx:94-116 | signed out: only the sign-in modal opens; signed in: the service bookmarks and the loaded copies toggle, modals untouched |
| `Feed.HandleCreateArticle` | project/src/App.tsx:118-124 | articles never change; signed out opens the sign-in modal, signed in opens the editor |
| `Feed.HandleArticleCreated` | project/src/App.tsx:126-128 | the loaded list becomes the service's store |
| `Feed.MapToggleMatchesService` | project/src/App.tsx:76-88 | with distinct ids, the map update equals the service's first-match update |
| `Feed.HandlersKeepCopyInStep` | project/src/App.tsx:70-116 | with distinct ids, a loaded list equal to the store stays equal to it after a signed-in like or bookmark |
| `ArticleEditor.ParseTags` | project/src/components/ArticleEditor.tsx:30 | every tag is non-empty, already trimmed and comma-free; a string is a tag iff it is the non-empty trim of some piece; each non-empty trimmed piece appears as often as it occurs, in order |
| `ArticleEditor.WordCount` | project/src/components/ArticleEditor.tsx:31 | the count is the number of spaces plus one, so at least 1 |
| `ArticleEditor.ReadTime` | project/src/components/ArticleEditor.tsx:32 | at least 1, and (m−1)·200 < words ≤ m·200 |
| `ArticleEditor.Excerpt` | project/src/components/ArticleEditor.tsx:37 | the first min(200, length) characters of the content, then `"..."` always |
| `ArticleEditor.CoverImageOrDefault` | project/src/components/ArticleEditor.tsx:41 | a non-empty URL is kept; an empty one becomes the fixed default |
| `ArticleEditor.BuildDraft` | project/src/components/ArticleEditor.tsx:30-44 | the content has no newline; the excerpt, tags, read time (≥ 1) and cover are the derived ones; status is published; no like/bookmark flag is set |
| `ArticleEditor.RequiredFieldsFilled` | project/src/components/ArticleEditor.tsx:87-151 | the `required` title and content are non-empty, so the excerpt starts with the content's first character ahead of the `"..."` |
| `ArticleEditor.BrowserAccepts` | project/src/components/ArticleEditor.tsx:87-151 | the browser submits only with both required fields filled and a cover image that is empty or a URL it accepts; the published cover is then the default or an accepted URL |
| `ArticleEditor.Submit` | project/src/components/ArticleEditor.tsx:24-61 | when the browser blocks the form, without a user, or while loading nothing changes; otherwise the draft is created in front of the store, with a non-empty title, an excerpt holding some text and an accepted or default cover, and the form is reset |
| `ArticleEditor.SubmitKeepsStoreConsistent` | project/src/components/ArticleEditor.tsx:34-44 | publishing keeps a consistent store consistent |
| `Text.Split` | project/src/components/ArticleEditor.tsx:30-31 | one more piece than separators; no piece holds the separator; joining the pieces gives back the input |
| `Text.SplitJoin` | project/src/components/ArticleEditor.tsx:30 | splitting the join of separator-free pieces gives back the pieces |
| `Text.Trim` | project/src/components/CommentSection.tsx:26 | the result is an infix with only whitespace around it; it is empty iff the input is all whitespace, and otherwise starts and ends with non-whitespace |
| `Text.TrimIdempotent` | project/src/components/ArticleEditor.tsx:30 | trimming twice is trimming once |
| `Text.Contains` | project/src/App.tsx:40-43 | the empty needle occurs in every text, a text occurs in itself, and no needle occurs in a shorter text |
| `Text.Lower` | project/src/App.tsx:40-43 | same length, no upper-case ASCII letter left, other characters untouched, letters shifted by 32 |
| `Text.LowerIdempotent` | project/src/App.tsx:40-43 | lower-casing twice is lower-casing once |
| `Text.ReplaceNewlines` | project/src/components/ArticleEditor.tsx:36 | the rewritten content holds no newline |
| `Text.ReplaceNewlinesLength` | project/src/components/ArticleEditor.tsx:36 | the rewritten length is the original length plus 3 per newline |
| `Text.ReplaceNewlinesConcat` | project/src/components/ArticleEditor.tsx:36 | the rewrite distributes over concatenation |
| `Text.ReplaceNewlinesNoNewline` | project/src/components/ArticleEditor.tsx:36 | content without newlines is unchanged |
| `Text.ReplaceNewlineIsTag` | project/src/components/ArticleEditor.tsx:36 | a single newline becomes exactly `<br>` |
| `Auth.Initial` | project/src/hooks/useAuth.ts:20-24 | no user, loading, not authenticated |
| `Auth.Restore` | project/src/hooks/useAuth.ts:26-38 | a saved user signs in and loading ends; with an empty slot only loading ends |
| `Auth.LocalPart` | project/src/hooks/useAuth.ts:43-44 | the email's prefix before the first '@', or all of it when there is none |
| `Auth.LoginUser` | project/src/hooks/useAuth.ts:41-54 | id "1", display name is the local part, username is its lower-casing, email kept, fixed counters |
| `Auth.Login` | project/src/hooks/useAuth.ts:40-62 | always authenticated with that user, not loading, and the slot holds the user |
| `Auth.SignupUser` | project/src/hooks/useAuth.ts:65-76 | lowered username, given display name and email, all counters 0 |
| `Auth.Signup` | project/src/hooks/useAuth.ts:64-84 | authenticated with the new user, not loading, and the slot holds the user |
| `Auth.Logout` | project/src/hooks/useAuth.ts:86-93 | from any state: no user, not authenticated, not loading, slot empty |
| `Auth.Step` | project/src/hooks/useAuth.ts:26-93 | every event ends loading, keeps "authenticated iff there is a user", keeps the slot in agreement with the user, and after a login, signup or logout the slot holds exactly the user |
| `Auth.RunConsistent` | project/src/hooks/useAuth.ts:19-93 | every reachable state is authenticated iff it has a user |
| `Auth.RunAfterRestorePersisted` | project/src/hooks/useAuth.ts:26-93 | once the slot has been read, the slot holds exactly the session's user after every event |
| `ArticleDetail.Load` | project/src/components/ArticleDetail.tsx:19-36 | the page holds the article by id and that article's threaded comments |
| `ArticleDetail.LikeUpdater` | project/src/components/ArticleDetail.tsx:43-47 | null stays null; otherwise `isLiked` flips and `likes` moves ±1, nothing else changes |
| `ArticleDetail.BookmarkUpdater` | project/src/components/ArticleDetail.tsx:58-62 | null stays null; otherwise `isBookmarked` flips and `bookmarks` moves ±1, nothing else changes |
| `ArticleDetail.HandleLike` | project/src/components/ArticleDetail.tsx:38-51 | with no article nothing changes; otherwise the service likes that id and the copy is updated |
| `ArticleDetail.HandleBookmark` | project/src/components/ArticleDetail.tsx:53-66 | with no article nothing changes; otherwise the service bookmarks that id and the copy is updated |
| `ArticleDetail.HandleCommentAdded` | project/src/components/ArticleDetail.tsx:68-70 | the new comment is first, and the previous list follows unchanged |
| `ArticleDetail.HandlersKeepCopyInStep` | project/src/components/ArticleDetail.tsx:38-66 | a copy equal to the service's lookup stays equal to it after like or bookmark |
| `CommentSection.MaySubmit` | project/src/components/CommentSection.tsx:26 | a submission goes ahead iff a user is signed in, nothing is pending, and the draft holds a non-whitespace character |
| `CommentSection.SubmitComment` | project/src/components/CommentSection.tsx:25-42 | rejected on a blank draft, no user or pending submission; on success a parentless comment is appended to the store and shown first, and the draft is cleared; `submitting` ends false |
| `CommentSection.SubmitReply` | project/src/components/CommentSection.tsx:44-63 | called for the comment whose reply form is open; the same guard on the reply draft; on success the reply carries the given parent and the signed-in author, the reply draft clears and the form closes; `submitting` ends false |
| `CommentSection.ClickReply` | project/src/components/CommentSection.tsx:165 | Reply on the open comment closes the form; on any other comment it opens that one; nothing else changes |
| `CommentSection.CancelReply` | project/src/components/CommentSection.tsx:188 | the reply form closes and nothing else changes |
| `CommentSection.ClickReplyTwice` | project/src/components/CommentSection.tsx:165 | two clicks restore the target when it was closed or on that comment; from another comment they close it |
| `CommentSection.HandleLikeComment` | project/src/components/CommentSection.tsx:65-71 | the service toggles the comment; the form and the shown list stay as they were |
| `CommentSection.PostedCommentThreadedLast` | project/src/components/CommentSection.tsx:25-42 | a posted top-level comment is the last threaded entry of its article on the next load |
| `CommentSection.PostedCommentHasNoReplies` | project/src/components/CommentSection.tsx:25-42 | when no stored comment names the fresh id as parent, that entry's replies are empty |

## Left out

- Rendering: JSX, styling, icons, `getCategoryColor` and relative-time formatting are presentation only. The components `Header`, `ArticleCard`, `CategoryFilter`, `AuthModal` and `AuthProvider` are also left out; they are form and context plumbing.
- Latency and asynchrony: the `setTimeout` delays, promises and React effect/context wiring are not modelled. Each operation is one synchronous step. The per-entity serialisation of concurrent toggles is therefore not modelled either.
- Storage: `localStorage` and the JSON round trip are not modelled. The persisted user is an abstract `Option<User>` slot, and the conversion of `Date` to a string on the round trip is ignored.
- Id and time generation: ids from `Date.now()` and times from `new Date()` are parameters. Nothing claims ids are unique; lemmas that need distinct ids say so.
- `getAllArticles` returns the store as it is. It appears only as the reload in `Feed.HandleArticleCreated`.
- Aliasing: the services hand their own array and objects to the views, and the model keeps store and views as separate values instead. Three effects of the sharing are therefore not modelled:
  - A view toggles the object the service has already toggled, so in the running program the view reverts. `Feed.HandlersKeepCopyInStep` and `ArticleDetail.HandlersKeepCopyInStep` state the lockstep intended for separate copies.
  - `getAllArticles` returns the service's array itself. Until a feed like or bookmark replaces `articles` with a `map` copy, the reload after publishing hands React the same array. The filter effect then does not re-run, and `loadArticles` sets the feed to the whole unfiltered store even while a category or query is active. `Feed.HandleArticleCreated` followed by `Feed.FilterFeed` gives the filtered feed.
  - Reply lists hold the store's own comment objects, and `createComment` returns the object it stores. So `likeComment` also changes a shown reply or a just-posted comment in place, while a shown top-level entry is a spread copy that does not change. `CommentSection.HandleLikeComment` leaves the shown list unchanged.
- `CommentInput` omits the optional `replies` field of `createComment`'s argument, because no caller passes it.
- Failures: the mock services never throw. The catch branch of the comment form appears only through the `serviceOk` parameter. The editor's and the app's catch branches, which only log, are not modelled.
- The editor's `isOpen` early return and its preview toggle are render-only.
- ArticleEditor.BrowserAccepts: the URL syntax check of the `type="url"` input is the parameter `coverImageValid`, not a URL parser.
- Numbers: JavaScript numbers are unbounded integers here. No floating-point rounding is modelled in `ReadTime`'s division.
- Text.Lower: lower-cases only the ASCII letters, while `toLowerCase` maps all of Unicode. Search, the category query and usernames are therefore modelled for ASCII case only.
- ArticleEditor.Excerpt: counts characters as Unicode scalar values, while `slice` counts UTF-16 code units. The two differ for characters outside the Basic Multilingual Plane.
