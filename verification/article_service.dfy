/** The mock article service (project/src/services/articleService.ts): a store that is a
    sequence of articles, newest first. Latency is not modelled; the fresh id and the
    creation time are parameters. */
module ArticleService {
  import opened Wrappers
  import opened Seqs
  import opened Text
  import opened Types

  /** The fields a caller supplies to `createArticle`: an article without id, dates and counters. */
  datatype ArticleDraft = ArticleDraft(
    title: string,
    content: string,
    excerpt: string,
    author: User,
    category: string,
    tags: seq<string>,
    isLiked: Option<bool>,
    isBookmarked: Option<bool>,
    coverImage: Option<string>,
    readTime: int,
    status: Status)

  /** Every article of the store keeps its engagement counters consistent. */
  predicate StoreConsistent(store: seq<Article>) {
    forall i :: 0 <= i < |store| ==> ArticleCountersConsistent(store[i])
  }

  function ArticleId(a: Article): string {
    a.id
  }

  /** The test `find` applies: the article carries id `id`. */
  function HasId(id: string): Article -> bool {
    (a: Article) => a.id == id
  }

  /** The test `getArticlesByCategory` applies: categories equal ignoring case. */
  function SameCategoryIgnoringCase(category: string): Article -> bool {
    (a: Article) => Lower(a.category) == Lower(category)
  }

  /** `getArticleById`: the first article with that id, or null when none has it. */
  function GetArticleById(store: seq<Article>, id: string): (r: Option<Article>)
    ensures r.None? <==> forall j :: 0 <= j < |store| ==> store[j].id != id
    ensures r.Some? ==> r.value.id == id
    ensures r.Some? ==> exists k :: 0 <= k < |store| && store[k] == r.value && forall j :: 0 <= j < k ==> store[j].id != id
  {
    match FirstIndex(store, HasId(id))
    case None => None
    case Some(k) => Some(store[k])
  }

  /** `getArticlesByCategory`: the articles whose category equals the argument ignoring case,
      each kept as often as it occurs, in store order. */
  function GetArticlesByCategory(store: seq<Article>, category: string): (r: seq<Article>)
    ensures forall a :: a in r <==> a in store && Lower(a.category) == Lower(category)
    ensures forall a :: multiset(r)[a] == if Lower(a.category) == Lower(category) then multiset(store)[a] else 0
    ensures IsSubsequence(r, store)
  {
    FilterIsSubsequence(store, SameCategoryIgnoringCase(category));
    FilterMultiset(store, SameCategoryIgnoringCase(category));
    Filter(store, SameCategoryIgnoringCase(category))
  }

  /** The article `createArticle` builds: the caller's fields, the fresh id and time, zero counters. */
  function NewArticle(draft: ArticleDraft, id: string, now: Timestamp): (a: Article)
    ensures a.likes == 0 && a.bookmarks == 0 && a.views == 0
    ensures a.id == id && a.publishedAt == now && a.updatedAt == now
    ensures a.title == draft.title && a.content == draft.content && a.excerpt == draft.excerpt
    ensures a.author == draft.author && a.category == draft.category && a.tags == draft.tags
    ensures a.isLiked == draft.isLiked && a.isBookmarked == draft.isBookmarked
    ensures a.coverImage == draft.coverImage && a.readTime == draft.readTime && a.status == draft.status
  {
    Article(id, draft.title, draft.content, draft.excerpt, draft.author, now, now, draft.category,
            draft.tags, 0, 0, 0, draft.isLiked, draft.isBookmarked, draft.coverImage, draft.readTime,
            draft.status)
  }

  /** `createArticle`: the new article and the store with it placed in front. */
  function CreateArticle(store: seq<Article>, draft: ArticleDraft, id: string, now: Timestamp): (r: (Article, seq<Article>))
    ensures r.0 == NewArticle(draft, id, now)
    ensures |r.1| == |store| + 1 && r.1[0] == r.0 && r.1[1..] == store
  {
    var a := NewArticle(draft, id, now);
    (a, [a] + store)
  }

  /** A consistent store stays consistent after `createArticle` exactly when the draft does not
      arrive already liked or bookmarked (the zeroed counters cannot back a set flag). */
  lemma CreateArticleConsistent(store: seq<Article>, draft: ArticleDraft, id: string, now: Timestamp)
    requires StoreConsistent(store)
    ensures StoreConsistent(CreateArticle(store, draft, id, now).1)
        <==> !Truthy(draft.isLiked) && !Truthy(draft.isBookmarked)
  {
    var s := CreateArticle(store, draft, id, now).1;
    assert forall i :: 1 <= i < |s| ==> s[i] == store[i - 1];
    assert s[0] == NewArticle(draft, id, now);
  }

  /** `likeArticle`: the first article with that id has its like toggled; an unknown id
      leaves the store as it was. */
  function LikeArticle(store: seq<Article>, id: string): (r: seq<Article>)
    ensures |r| == |store|
    ensures (forall j :: 0 <= j < |store| ==> store[j].id != id) ==> r == store
    ensures forall j :: 0 <= j < |store| ==>
              r[j] == store[j]
              || (store[j].id == id && r[j] == ToggledLike(store[j]) && forall i :: 0 <= i < j ==> store[i].id != id)
    ensures FirstIndex(store, HasId(id)).Some? ==>
              r[FirstIndex(store, HasId(id)).value] == ToggledLike(store[FirstIndex(store, HasId(id)).value])
    ensures forall j :: 0 <= j < |store| ==> r[j].id == store[j].id && r[j].views == store[j].views
  {
    UpdateFirst(store, HasId(id), ToggledLike)
  }

  /** `bookmarkArticle`: the first article with that id has its bookmark toggled; an unknown
      id leaves the store as it was. */
  function BookmarkArticle(store: seq<Article>, id: string): (r: seq<Article>)
    ensures |r| == |store|
    ensures (forall j :: 0 <= j < |store| ==> store[j].id != id) ==> r == store
    ensures forall j :: 0 <= j < |store| ==>
              r[j] == store[j]
              || (store[j].id == id && r[j] == ToggledBookmark(store[j]) && forall i :: 0 <= i < j ==> store[i].id != id)
    ensures FirstIndex(store, HasId(id)).Some? ==>
              r[FirstIndex(store, HasId(id)).value] == ToggledBookmark(store[FirstIndex(store, HasId(id)).value])
    ensures forall j :: 0 <= j < |store| ==> r[j].id == store[j].id && r[j].views == store[j].views
  {
    UpdateFirst(store, HasId(id), ToggledBookmark)
  }

  /** A known id changes exactly one article: the first one carrying it. */
  lemma LikeArticleChangesFirstMatch(store: seq<Article>, id: string, k: nat)
    requires k < |store| && store[k].id == id
    requires forall j :: 0 <= j < k ==> store[j].id != id
    ensures LikeArticle(store, id)[k] == ToggledLike(store[k])
    ensures BookmarkArticle(store, id)[k] == ToggledBookmark(store[k])
    ensures forall j :: 0 <= j < |store| && j != k ==> LikeArticle(store, id)[j] == store[j]
    ensures forall j :: 0 <= j < |store| && j != k ==> BookmarkArticle(store, id)[j] == store[j]
  {
    var p := HasId(id);
    assert FirstIndex(store, p) == Some(k);
  }

  /** Both toggles keep a consistent store consistent. */
  lemma TogglesKeepStoreConsistent(store: seq<Article>, id: string)
    requires StoreConsistent(store)
    ensures StoreConsistent(LikeArticle(store, id))
    ensures StoreConsistent(BookmarkArticle(store, id))
  {
    forall j | 0 <= j < |store| ensures ArticleCountersConsistent(LikeArticle(store, id)[j])
                                 && ArticleCountersConsistent(BookmarkArticle(store, id)[j]) {
      TogglesKeepArticleConsistent(store[j]);
    }
  }

  /** Two likes in a row restore every like count and every liked/unliked state; when the
      article's flag was defined they restore the store exactly. */
  lemma LikeArticleTwice(store: seq<Article>, id: string)
    ensures forall j :: 0 <= j < |store| ==>
              LikeArticle(LikeArticle(store, id), id)[j].likes == store[j].likes
              && Truthy(LikeArticle(LikeArticle(store, id), id)[j].isLiked) == Truthy(store[j].isLiked)
    ensures (forall j :: 0 <= j < |store| && store[j].id == id ==> store[j].isLiked.Some?) ==>
              LikeArticle(LikeArticle(store, id), id) == store
  {
    var p := HasId(id);
    var once := LikeArticle(store, id);
    assert forall j :: 0 <= j < |store| ==> p(once[j]) == p(store[j]);
    SameKeysSameFirstIndex(store, once, p);
    match FirstIndex(store, p)
    case None =>
    case Some(k) =>
      ToggledLikeTwice(store[k]);
      assert LikeArticle(once, id) == once[k := ToggledLike(once[k])];
  }

  /** Two bookmarks in a row restore every bookmark count and state; when the article's
      flag was defined they restore the store exactly. */
  lemma BookmarkArticleTwice(store: seq<Article>, id: string)
    ensures forall j :: 0 <= j < |store| ==>
              BookmarkArticle(BookmarkArticle(store, id), id)[j].bookmarks == store[j].bookmarks
              && Truthy(BookmarkArticle(BookmarkArticle(store, id), id)[j].isBookmarked) == Truthy(store[j].isBookmarked)
    ensures (forall j :: 0 <= j < |store| && store[j].id == id ==> store[j].isBookmarked.Some?) ==>
              BookmarkArticle(BookmarkArticle(store, id), id) == store
  {
    var p := HasId(id);
    var once := BookmarkArticle(store, id);
    assert forall j :: 0 <= j < |store| ==> p(once[j]) == p(store[j]);
    SameKeysSameFirstIndex(store, once, p);
    match FirstIndex(store, p)
    case None =>
    case Some(k) =>
      ToggledBookmarkTwice(store[k]);
      assert BookmarkArticle(once, id) == once[k := ToggledBookmark(once[k])];
  }
}
