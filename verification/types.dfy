/** The records of project/src/types/index.ts, plus the like and bookmark toggles that
    the article service, the feed and the article view each apply to them. */
module Types {
  import opened Wrappers

  /** A JavaScript `Date`, as milliseconds since the epoch; always supplied by the caller. */
  type Timestamp = int

  datatype User = User(
    id: string,
    username: string,
    email: string,
    displayName: string,
    avatar: Option<string>,
    bio: Option<string>,
    location: Option<string>,
    website: Option<string>,
    joinedAt: Timestamp,
    followersCount: int,
    followingCount: int,
    articlesCount: int)

  datatype Status = Draft | Published

  /** `isLiked` and `isBookmarked` are optional in the source: `None` is `undefined`. */
  datatype Article = Article(
    id: string,
    title: string,
    content: string,
    excerpt: string,
    author: User,
    publishedAt: Timestamp,
    updatedAt: Timestamp,
    category: string,
    tags: seq<string>,
    likes: int,
    bookmarks: int,
    views: int,
    isLiked: Option<bool>,
    isBookmarked: Option<bool>,
    coverImage: Option<string>,
    readTime: int,
    status: Status)

  /** `replies` is filled in only on the top-level comments the threading returns. */
  datatype Comment = Comment(
    id: string,
    content: string,
    author: User,
    articleId: string,
    parentId: Option<string>,
    createdAt: Timestamp,
    likes: int,
    isLiked: Option<bool>,
    replies: Option<seq<Comment>>)

  /** JavaScript truthiness of an optional flag: `undefined` counts as false. */
  predicate Truthy(flag: Option<bool>) {
    flag == Some(true)
  }

  /** The counter a flag guards never goes negative, and a set flag has been counted. */
  predicate CounterConsistent(count: int, flag: Option<bool>) {
    count >= 0 && (Truthy(flag) ==> count >= 1)
  }

  /** Both engagement pairs of an article are consistent. */
  predicate ArticleCountersConsistent(a: Article) {
    CounterConsistent(a.likes, a.isLiked) && CounterConsistent(a.bookmarks, a.isBookmarked)
  }

  /** A comment's like pair is consistent. */
  predicate CommentCountersConsistent(c: Comment) {
    CounterConsistent(c.likes, c.isLiked)
  }

  /** The shared toggle step `count += flag ? -1 : 1; flag = !flag`: the flag's truth value
      flips, becomes defined, and the count moves one step in the direction of the new value. */
  function Toggle(count: int, flag: Option<bool>): (r: (int, Option<bool>))
    ensures r.1.Some? && (Truthy(r.1) <==> !Truthy(flag))
    ensures r.0 == if Truthy(r.1) then count + 1 else count - 1
  {
    (count + (if Truthy(flag) then -1 else 1), Some(!Truthy(flag)))
  }

  /** Toggling twice restores the count and the truth value; it restores the flag
      itself exactly when the flag was defined. */
  lemma ToggleTwice(count: int, flag: Option<bool>)
    ensures Toggle(Toggle(count, flag).0, Toggle(count, flag).1).0 == count
    ensures Truthy(Toggle(Toggle(count, flag).0, Toggle(count, flag).1).1) == Truthy(flag)
    ensures Toggle(Toggle(count, flag).0, Toggle(count, flag).1).1 == flag <==> flag.Some?
  {
    match flag
    case None =>
    case Some(b) => assert Truthy(flag) == b;
  }

  /** The toggle keeps a consistent counter consistent. */
  lemma ToggleKeepsConsistent(count: int, flag: Option<bool>)
    requires CounterConsistent(count, flag)
    ensures CounterConsistent(Toggle(count, flag).0, Toggle(count, flag).1)
  {
  }

  /** The like toggle on an article: only `likes` and `isLiked` change. */
  function ToggledLike(a: Article): (r: Article)
    ensures (r.likes, r.isLiked) == Toggle(a.likes, a.isLiked)
    ensures r.(likes := a.likes, isLiked := a.isLiked) == a
  {
    var t := Toggle(a.likes, a.isLiked);
    a.(likes := t.0, isLiked := t.1)
  }

  /** The bookmark toggle on an article: only `bookmarks` and `isBookmarked` change. */
  function ToggledBookmark(a: Article): (r: Article)
    ensures (r.bookmarks, r.isBookmarked) == Toggle(a.bookmarks, a.isBookmarked)
    ensures r.(bookmarks := a.bookmarks, isBookmarked := a.isBookmarked) == a
  {
    var t := Toggle(a.bookmarks, a.isBookmarked);
    a.(bookmarks := t.0, isBookmarked := t.1)
  }

  /** The like toggle on a comment: only `likes` and `isLiked` change. */
  function ToggledCommentLike(c: Comment): (r: Comment)
    ensures (r.likes, r.isLiked) == Toggle(c.likes, c.isLiked)
    ensures r.(likes := c.likes, isLiked := c.isLiked) == c
  {
    var t := Toggle(c.likes, c.isLiked);
    c.(likes := t.0, isLiked := t.1)
  }

  /** Liking twice restores the article when `isLiked` was defined; otherwise only
      `isLiked` differs, having become `false`. */
  lemma ToggledLikeTwice(a: Article)
    ensures ToggledLike(ToggledLike(a)).likes == a.likes
    ensures a.isLiked.Some? ==> ToggledLike(ToggledLike(a)) == a
    ensures a.isLiked.None? ==> ToggledLike(ToggledLike(a)) == a.(isLiked := Some(false))
  {
    ToggleTwice(a.likes, a.isLiked);
  }

  /** Bookmarking twice restores the article when `isBookmarked` was defined. */
  lemma ToggledBookmarkTwice(a: Article)
    ensures ToggledBookmark(ToggledBookmark(a)).bookmarks == a.bookmarks
    ensures a.isBookmarked.Some? ==> ToggledBookmark(ToggledBookmark(a)) == a
    ensures a.isBookmarked.None? ==> ToggledBookmark(ToggledBookmark(a)) == a.(isBookmarked := Some(false))
  {
    ToggleTwice(a.bookmarks, a.isBookmarked);
  }

  /** Both article toggles keep the engagement counters consistent. */
  lemma TogglesKeepArticleConsistent(a: Article)
    requires ArticleCountersConsistent(a)
    ensures ArticleCountersConsistent(ToggledLike(a))
    ensures ArticleCountersConsistent(ToggledBookmark(a))
  {
    ToggleKeepsConsistent(a.likes, a.isLiked);
    ToggleKeepsConsistent(a.bookmarks, a.isBookmarked);
  }

  /** Liking a comment twice restores it when `isLiked` was defined; otherwise only
      `isLiked` differs, having become `false`. */
  lemma ToggledCommentLikeTwice(c: Comment)
    ensures ToggledCommentLike(ToggledCommentLike(c)).likes == c.likes
    ensures c.isLiked.Some? ==> ToggledCommentLike(ToggledCommentLike(c)) == c
    ensures c.isLiked.None? ==> ToggledCommentLike(ToggledCommentLike(c)) == c.(isLiked := Some(false))
  {
    ToggleTwice(c.likes, c.isLiked);
  }

  /** The comment like toggle keeps the comment's counter consistent. */
  lemma ToggledCommentLikeKeepsConsistent(c: Comment)
    requires CommentCountersConsistent(c)
    ensures CommentCountersConsistent(ToggledCommentLike(c))
  {
    ToggleKeepsConsistent(c.likes, c.isLiked);
  }
}
