/** The feed of project/src/App.tsx: the two-stage filter that derives the visible articles
    from the loaded ones, and the authentication-gated like, bookmark and create handlers. */
module Feed {
  import opened Seqs
  import opened Text
  import opened Types
  import ArticleService

  /** The synthetic category that switches the category stage off. */
  const AllCategories: string := "All"

  /** Stage one's test: exact, case-sensitive category equality. */
  function InCategory(category: string): Article -> bool {
    (a: Article) => a.category == category
  }

  /** The texts the search looks in: the title, the content, every tag and the author's name. */
  function SearchedTexts(a: Article): seq<string> {
    [a.title, a.content] + a.tags + [a.author.displayName]
  }

  /** Stage two's test: the lowered query occurs in some lowered searched text. The empty
      query matches every article. */
  predicate MatchesQuery(a: Article, query: string): (r: bool)
    ensures r <==> exists text | text in SearchedTexts(a) :: Contains(Lower(text), Lower(query))
    ensures query == "" ==> r
  {
    var q := Lower(query);
    Contains(Lower(a.title), q)
    || Contains(Lower(a.content), q)
    || (exists t | t in a.tags :: Contains(Lower(t), q))
    || Contains(Lower(a.author.displayName), q)
  }

  /** Stage two's test. */
  function Matching(query: string): Article -> bool {
    (a: Article) => MatchesQuery(a, query)
  }

  /** Both active stages accept the article; an inactive stage accepts everything. */
  predicate Visible(a: Article, category: string, query: string): (r: bool)
    ensures category == AllCategories && query == "" ==> r
    ensures r ==> category == AllCategories || a.category == category
    ensures r && query != "" ==> exists text | text in SearchedTexts(a) :: Contains(Lower(text), Lower(query))
    ensures category == AllCategories ==> (r <==> MatchesQuery(a, query))
  {
    (category == AllCategories || a.category == category) && (query == "" || MatchesQuery(a, query))
  }

  /** The effect recomputing `filteredArticles`: exactly the visible articles, each as often
      as it was loaded. */
  function FilterFeed(articles: seq<Article>, category: string, query: string): (r: seq<Article>)
    ensures forall a :: a in r <==> a in articles && Visible(a, category, query)
    ensures forall a :: multiset(r)[a] == if Visible(a, category, query) then multiset(articles)[a] else 0
  {
    var byCategory := if category != AllCategories then Filter(articles, InCategory(category)) else articles;
    FilterMultiset(articles, InCategory(category));
    FilterMultiset(byCategory, Matching(query));
    if query != "" then Filter(byCategory, Matching(query)) else byCategory
  }

  /** With a category selected, every visible article has exactly that category; with a query,
      every visible article matches it. */
  lemma FeedSound(articles: seq<Article>, category: string, query: string)
    ensures category != AllCategories ==> forall a :: a in FilterFeed(articles, category, query) ==> a.category == category
    ensures query != "" ==> forall a :: a in FilterFeed(articles, category, query) ==> MatchesQuery(a, query)
  {
  }

  /** The two stages are one filter by the combined test, so the feed keeps store order. */
  lemma FeedIsOneFilter(articles: seq<Article>, category: string, query: string)
    ensures FilterFeed(articles, category, query) == Filter(articles, VisibleTest(category, query))
    ensures IsSubsequence(FilterFeed(articles, category, query), articles)
  {
    var v := VisibleTest(category, query);
    if category != AllCategories && query != "" {
      FilterFilter(articles, InCategory(category), Matching(query));
      FilterEquivalent(articles, And(InCategory(category), Matching(query)), v);
    } else if category != AllCategories {
      FilterEquivalent(articles, InCategory(category), v);
    } else if query != "" {
      FilterEquivalent(articles, Matching(query), v);
    } else {
      FilterKeepsAll(articles, v);
    }
    FilterIsSubsequence(articles, v);
  }

  function VisibleTest(category: string, query: string): Article -> bool {
    (a: Article) => Visible(a, category, query)
  }

  lemma {:induction false} FilterEquivalent(s: seq<Article>, p: Article -> bool, q: Article -> bool)
    requires forall a :: p(a) == q(a)
    ensures Filter(s, p) == Filter(s, q)
  {
    if |s| > 0 {
      FilterEquivalent(s[1..], p, q);
    }
  }

  /** "All" with an empty query shows everything loaded. */
  lemma FeedUnfiltered(articles: seq<Article>)
    ensures FilterFeed(articles, AllCategories, "") == articles
  {
  }

  /** Filtering the feed again with the same settings changes nothing. */
  lemma FeedIdempotent(articles: seq<Article>, category: string, query: string)
    ensures FilterFeed(FilterFeed(articles, category, query), category, query) == FilterFeed(articles, category, query)
  {
    var r := FilterFeed(articles, category, query);
    FeedIsOneFilter(articles, category, query);
    FeedIsOneFilter(r, category, query);
    FilterIdempotent(articles, VisibleTest(category, query));
  }

  // ------------------------------------------------------------------ handlers

  /** What the feed page holds: the service's store, the loaded `articles`, and the two modals. */
  datatype AppState = AppState(
    store: seq<Article>,
    articles: seq<Article>,
    showAuthModal: bool,
    showArticleEditor: bool)

  /** The map update after a like: every loaded article with that id is toggled. */
  function MapToggleLike(articles: seq<Article>, id: string): (r: seq<Article>)
    ensures |r| == |articles|
    ensures forall j :: 0 <= j < |articles| && articles[j].id != id ==> r[j] == articles[j]
    ensures forall j :: 0 <= j < |articles| && articles[j].id == id ==> r[j] == ToggledLike(articles[j])
  {
    Map(articles, (a: Article) => if a.id == id then ToggledLike(a) else a)
  }

  /** The map update after a bookmark: every loaded article with that id is toggled. */
  function MapToggleBookmark(articles: seq<Article>, id: string): (r: seq<Article>)
    ensures |r| == |articles|
    ensures forall j :: 0 <= j < |articles| && articles[j].id != id ==> r[j] == articles[j]
    ensures forall j :: 0 <= j < |articles| && articles[j].id == id ==> r[j] == ToggledBookmark(articles[j])
  {
    Map(articles, (a: Article) => if a.id == id then ToggledBookmark(a) else a)
  }

  /** `handleLike`: signed out it only opens the sign-in modal; signed in it likes in the
      service and toggles the loaded copies. */
  function HandleLike(s: AppState, isAuthenticated: bool, id: string): (r: AppState)
    ensures !isAuthenticated ==> r == s.(showAuthModal := true)
    ensures isAuthenticated ==> r.showAuthModal == s.showAuthModal && r.showArticleEditor == s.showArticleEditor
    ensures isAuthenticated ==> r.store == ArticleService.LikeArticle(s.store, id) && r.articles == MapToggleLike(s.articles, id)
  {
    if !isAuthenticated then s.(showAuthModal := true)
    else s.(store := ArticleService.LikeArticle(s.store, id), articles := MapToggleLike(s.articles, id))
  }

  /** `handleBookmark`: signed out it only opens the sign-in modal; signed in it bookmarks in
      the service and toggles the loaded copies. */
  function HandleBookmark(s: AppState, isAuthenticated: bool, id: string): (r: AppState)
    ensures !isAuthenticated ==> r == s.(showAuthModal := true)
    ensures isAuthenticated ==> r.showAuthModal == s.showAuthModal && r.showArticleEditor == s.showArticleEditor
    ensures isAuthenticated ==> r.store == ArticleService.BookmarkArticle(s.store, id) && r.articles == MapToggleBookmark(s.articles, id)
  {
    if !isAuthenticated then s.(showAuthModal := true)
    else s.(store := ArticleService.BookmarkArticle(s.store, id), articles := MapToggleBookmark(s.articles, id))
  }

  /** `handleCreateArticle`: signed out it only opens the sign-in modal, otherwise the editor. */
  function HandleCreateArticle(s: AppState, isAuthenticated: bool): (r: AppState)
    ensures r.store == s.store && r.articles == s.articles
    ensures !isAuthenticated ==> r.showAuthModal && r.showArticleEditor == s.showArticleEditor
    ensures isAuthenticated ==> r.showArticleEditor && r.showAuthModal == s.showAuthModal
  {
    if !isAuthenticated then s.(showAuthModal := true) else s.(showArticleEditor := true)
  }

  /** `handleArticleCreated` reloads every article from the service. */
  function HandleArticleCreated(s: AppState): (r: AppState)
    ensures r.articles == r.store == s.store
    ensures r.showAuthModal == s.showAuthModal && r.showArticleEditor == s.showArticleEditor
  {
    s.(articles := s.store)
  }

  /** With distinct ids, a loaded list that is a copy of the store stays a copy after a
      signed-in like or bookmark: the map update agrees with the service's first-match update. */
  lemma HandlersKeepCopyInStep(s: AppState, id: string)
    requires s.articles == s.store
    requires UniqueBy(s.store, ArticleService.ArticleId)
    ensures HandleLike(s, true, id).articles == HandleLike(s, true, id).store
    ensures HandleBookmark(s, true, id).articles == HandleBookmark(s, true, id).store
  {
    MapToggleMatchesService(s.store, id);
  }

  /** With distinct ids, toggling every copy with the id is toggling the first one. */
  lemma MapToggleMatchesService(store: seq<Article>, id: string)
    requires UniqueBy(store, ArticleService.ArticleId)
    ensures MapToggleLike(store, id) == ArticleService.LikeArticle(store, id)
    ensures MapToggleBookmark(store, id) == ArticleService.BookmarkArticle(store, id)
  {
    match FirstIndex(store, ArticleService.HasId(id))
    case None =>
    case Some(k) =>
      OnlyOneWithId(store, id, k);
      ArticleService.LikeArticleChangesFirstMatch(store, id, k);
  }

  /** With distinct ids, the article holding an id is the only one. */
  lemma OnlyOneWithId(store: seq<Article>, id: string, k: nat)
    requires UniqueBy(store, ArticleService.ArticleId)
    requires k < |store| && store[k].id == id
    ensures forall j :: 0 <= j < |store| && j != k ==> store[j].id != id
  {
    forall j | 0 <= j < |store| && j != k ensures store[j].id != id {
      assert ArticleService.ArticleId(store[k]) == id;
      if j < k {
        assert ArticleService.ArticleId(store[j]) != ArticleService.ArticleId(store[k]);
      } else {
        assert ArticleService.ArticleId(store[k]) != ArticleService.ArticleId(store[j]);
      }
    }
  }
}
