/** The state updaters of project/src/components/ArticleDetail.tsx: the page holds its own
    copy of one article and of the article's threaded comments. */
module ArticleDetail {
  import opened Wrappers
  import opened Seqs
  import opened Types
  import ArticleService
  import CommentService

  /** The service stores and the page's own `article` and `comments`. */
  datatype DetailState = DetailState(
    store: seq<Article>,
    commentStore: seq<Comment>,
    article: Option<Article>,
    comments: seq<Comment>)

  /** The load effect: the article by id and its threaded comments. */
  function Load(store: seq<Article>, commentStore: seq<Comment>, articleId: string): (r: DetailState)
    ensures r.store == store && r.commentStore == commentStore
    ensures r.article == ArticleService.GetArticleById(store, articleId)
    ensures r.comments == CommentService.GetCommentsByArticleId(commentStore, articleId)
  {
    DetailState(store, commentStore, ArticleService.GetArticleById(store, articleId),
                CommentService.GetCommentsByArticleId(commentStore, articleId))
  }

  /** The `setArticle` updater after a like: null stays null, otherwise the like toggles. */
  function LikeUpdater(prev: Option<Article>): (r: Option<Article>)
    ensures prev.None? <==> r.None?
    ensures prev.Some? ==> Truthy(r.value.isLiked) == !Truthy(prev.value.isLiked)
    ensures prev.Some? ==> r.value.likes == prev.value.likes + (if Truthy(prev.value.isLiked) then -1 else 1)
    ensures prev.Some? ==> r.value.(likes := prev.value.likes, isLiked := prev.value.isLiked) == prev.value
  {
    match prev
    case None => None
    case Some(a) => Some(ToggledLike(a))
  }

  /** The `setArticle` updater after a bookmark: null stays null, otherwise the bookmark toggles. */
  function BookmarkUpdater(prev: Option<Article>): (r: Option<Article>)
    ensures prev.None? <==> r.None?
    ensures prev.Some? ==> Truthy(r.value.isBookmarked) == !Truthy(prev.value.isBookmarked)
    ensures prev.Some? ==> r.value.bookmarks == prev.value.bookmarks + (if Truthy(prev.value.isBookmarked) then -1 else 1)
    ensures prev.Some? ==> r.value.(bookmarks := prev.value.bookmarks, isBookmarked := prev.value.isBookmarked) == prev.value
  {
    match prev
    case None => None
    case Some(a) => Some(ToggledBookmark(a))
  }

  /** `handleLike`: with no article loaded nothing happens; otherwise the service likes the
      article and the page's copy toggles. */
  function HandleLike(s: DetailState): (r: DetailState)
    ensures s.article.None? ==> r == s
    ensures s.article.Some? ==> r.store == ArticleService.LikeArticle(s.store, s.article.value.id)
    ensures r.article == LikeUpdater(s.article) && r.comments == s.comments && r.commentStore == s.commentStore
  {
    match s.article
    case None => s
    case Some(a) => s.(store := ArticleService.LikeArticle(s.store, a.id), article := LikeUpdater(s.article))
  }

  /** `handleBookmark`: with no article loaded nothing happens; otherwise the service
      bookmarks the article and the page's copy toggles. */
  function HandleBookmark(s: DetailState): (r: DetailState)
    ensures s.article.None? ==> r == s
    ensures s.article.Some? ==> r.store == ArticleService.BookmarkArticle(s.store, s.article.value.id)
    ensures r.article == BookmarkUpdater(s.article) && r.comments == s.comments && r.commentStore == s.commentStore
  {
    match s.article
    case None => s
    case Some(a) => s.(store := ArticleService.BookmarkArticle(s.store, a.id), article := BookmarkUpdater(s.article))
  }

  /** `handleCommentAdded`: the new comment or reply goes in front of the shown list. */
  function HandleCommentAdded(comments: seq<Comment>, c: Comment): (r: seq<Comment>)
    ensures |r| == |comments| + 1 && r[0] == c && r[1..] == comments
  {
    [c] + comments
  }

  /** When the page's copy is what the service returns for its id, the copy and the store
      move in lockstep under the like and bookmark handlers. */
  lemma HandlersKeepCopyInStep(s: DetailState)
    requires s.article.Some? && s.article == ArticleService.GetArticleById(s.store, s.article.value.id)
    ensures HandleLike(s).article == ArticleService.GetArticleById(HandleLike(s).store, s.article.value.id)
    ensures HandleBookmark(s).article == ArticleService.GetArticleById(HandleBookmark(s).store, s.article.value.id)
  {
    var id := s.article.value.id;
    var p := ArticleService.HasId(id);
    var k := FirstIndex(s.store, p).value;
    ArticleService.LikeArticleChangesFirstMatch(s.store, id, k);
    var liked := HandleLike(s).store;
    var bookmarked := HandleBookmark(s).store;
    assert forall j :: 0 <= j < |s.store| ==> p(liked[j]) == p(s.store[j]);
    assert forall j :: 0 <= j < |s.store| ==> p(bookmarked[j]) == p(s.store[j]);
    SameKeysSameFirstIndex(s.store, liked, p);
    SameKeysSameFirstIndex(s.store, bookmarked, p);
  }
}
