/** The submit handler of project/src/components/ArticleEditor.tsx: how the form's raw
    fields become the article handed to `createArticle`. */
module ArticleEditor {
  import opened Wrappers
  import opened Seqs
  import opened Text
  import opened Types
  import ArticleService

  const ExcerptLength: nat := 200
  const WordsPerMinute: nat := 200
  const DefaultCategory: string := "Lifestyle"
  const DefaultCoverImage: string := "https://images.pexels.com/photos/1181359/pexels-photo-1181359.jpeg?auto=compress&cs=tinysrgb&w=800"
  const Ellipsis: string := "..."

  /** The editor's form state. */
  datatype EditorForm = EditorForm(
    title: string,
    content: string,
    category: string,
    tags: string,
    coverImage: string,
    loading: bool,
    preview: bool)

  /** The form as it is opened and as it is reset after publishing. */
  const EmptyForm: EditorForm := EditorForm("", "", DefaultCategory, "", "", false, false)

  function NonEmpty(t: string): bool {
    t != ""
  }

  /** `tags.split(',').map(tag => tag.trim())`: every comma-separated piece, trimmed. */
  function TrimmedPieces(tags: string): seq<string> {
    Map(Split(tags, ','), Trim)
  }

  /** `tags.split(',').map(tag => tag.trim()).filter(tag => tag)`: the trimmed comma-separated
      pieces that are not blank, each as often as it occurs, in their original order. */
  function ParseTags(tags: string): (r: seq<string>)
    ensures forall t :: t in r ==> t != "" && Trim(t) == t && ',' !in t
    ensures forall t :: t in r <==> t != "" && exists piece :: piece in Split(tags, ',') && Trim(piece) == t
    ensures forall t :: multiset(r)[t] == if t != "" then multiset(TrimmedPieces(tags))[t] else 0
    ensures IsSubsequence(r, TrimmedPieces(tags))
  {
    KeptTagsClean(tags);
    KeptTagCount(TrimmedPieces(tags));
    FilterIsSubsequence(TrimmedPieces(tags), NonEmpty);
    Filter(TrimmedPieces(tags), NonEmpty)
  }

  /** The kept tags are the non-blank trimmed pieces, and they are clean. */
  lemma KeptTagsClean(tags: string)
    ensures forall t :: t in Filter(TrimmedPieces(tags), NonEmpty) ==> t != "" && Trim(t) == t && ',' !in t
    ensures forall t :: t in Filter(TrimmedPieces(tags), NonEmpty) <==>
              t != "" && exists piece :: piece in Split(tags, ',') && Trim(piece) == t
  {
    TrimmedPiecesClean(tags);
  }

  /** Dropping the blank pieces keeps every other piece as often as it occurs. */
  lemma KeptTagCount(trimmed: seq<string>)
    ensures forall t :: multiset(Filter(trimmed, NonEmpty))[t] == if t != "" then multiset(trimmed)[t] else 0
  {
    FilterMultiset(trimmed, NonEmpty);
  }

  /** Each trimmed piece is already trimmed, holds no comma, and comes from some piece. */
  lemma TrimmedPiecesClean(tags: string)
    ensures forall t :: t in TrimmedPieces(tags) ==> Trim(t) == t && ',' !in t
    ensures forall t :: t in TrimmedPieces(tags) <==> exists piece :: piece in Split(tags, ',') && Trim(piece) == t
  {
    TrimmedPiecesAreTrimmed(Split(tags, ','));
    TrimmedPiecesComplete(Split(tags, ','));
  }

  lemma TrimmedPiecesAreTrimmed(pieces: seq<string>)
    requires forall k :: 0 <= k < |pieces| ==> ',' !in pieces[k]
    ensures forall t :: t in Map(pieces, Trim) ==> Trim(t) == t && ',' !in t
  {
    var trimmed := Map(pieces, Trim);
    forall t | t in trimmed ensures Trim(t) == t && ',' !in t {
      var k :| 0 <= k < |trimmed| && trimmed[k] == t;
      TrimIdempotent(pieces[k]);
      TrimDropsNothingNew(pieces[k], ',');
    }
  }

  lemma TrimmedPiecesComplete(pieces: seq<string>)
    ensures forall t :: t in Map(pieces, Trim) <==> exists piece :: piece in pieces && Trim(piece) == t
  {
    var trimmed := Map(pieces, Trim);
    forall t | exists piece :: piece in pieces && Trim(piece) == t ensures t in trimmed {
      var piece :| piece in pieces && Trim(piece) == t;
      var k :| 0 <= k < |pieces| && pieces[k] == piece;
      assert trimmed[k] == t;
    }
  }

  /** Trimming cannot introduce a character. */
  lemma TrimDropsNothingNew(s: string, c: char)
    requires c !in s
    ensures c !in Trim(s)
  {
    var i :| TrimmedAt(s, Trim(s), i);
    assert Trim(s) == s[i..i + |Trim(s)|];
  }

  /** `content.split(' ').length`: one more than the number of spaces, so never zero. */
  function WordCount(content: string): (n: nat)
    ensures n == multiset(content)[' '] + 1
    ensures n >= 1
  {
    |Split(content, ' ')|
  }

  /** `Math.ceil(wordCount / 200)` for a positive count: the least number of 200-word
      minutes that covers the words. */
  function ReadTime(wordCount: nat): (m: nat)
    requires wordCount >= 1
    ensures m >= 1
    ensures (m - 1) * WordsPerMinute < wordCount <= m * WordsPerMinute
  {
    (wordCount + WordsPerMinute - 1) / WordsPerMinute
  }

  /** `content.slice(0, 200) + '...'`: at most 200 leading characters, and the ellipsis always. */
  function Excerpt(content: string): (r: string)
    ensures |r| == (if |content| < ExcerptLength then |content| else ExcerptLength) + |Ellipsis|
    ensures r[..|r| - |Ellipsis|] == content[..|r| - |Ellipsis|]
    ensures r[|r| - |Ellipsis|..] == Ellipsis
  {
    (if |content| < ExcerptLength then content else content[..ExcerptLength]) + Ellipsis
  }

  /** `coverImage || default`. */
  function CoverImageOrDefault(coverImage: string): (r: string)
    ensures coverImage != "" ==> r == coverImage
    ensures coverImage == "" ==> r == DefaultCoverImage
  {
    if coverImage != "" then coverImage else DefaultCoverImage
  }

  /** The argument of `createArticle` derived from the form and its author. */
  function BuildDraft(form: EditorForm, author: User): (d: ArticleService.ArticleDraft)
    ensures d.title == form.title && d.category == form.category && d.author == author
    ensures d.content == ReplaceNewlines(form.content) && '\n' !in d.content
    ensures d.excerpt == Excerpt(form.content)
    ensures d.tags == ParseTags(form.tags)
    ensures d.readTime == ReadTime(WordCount(form.content)) && d.readTime >= 1
    ensures d.coverImage == Some(CoverImageOrDefault(form.coverImage)) && d.coverImage.value != ""
    ensures d.status == Published
    ensures d.isLiked.None? && d.isBookmarked.None?
  {
    ArticleService.ArticleDraft(
      form.title,
      ReplaceNewlines(form.content),
      Excerpt(form.content),
      author,
      form.category,
      ParseTags(form.tags),
      None,
      None,
      Some(CoverImageOrDefault(form.coverImage)),
      ReadTime(WordCount(form.content)),
      Published)
  }

  /** The `required` constraint on the title input and the content textarea: neither may be
      the empty string. A filled form yields an excerpt that holds some of the content. */
  predicate RequiredFieldsFilled(form: EditorForm): (r: bool)
    ensures r ==> |Excerpt(form.content)| > |Ellipsis| && Excerpt(form.content)[0] == form.content[0]
  {
    form.title != "" && form.content != ""
  }

  /** The browser's constraint validation before `onSubmit` fires: both `required` fields are
      filled, and the `type="url"` cover-image input is empty or holds a valid URL.
      `coverImageValid` is the browser's verdict on the URL's syntax. */
  predicate BrowserAccepts(form: EditorForm, coverImageValid: bool): (r: bool)
    ensures r ==> RequiredFieldsFilled(form)
    ensures r ==> CoverImageOrDefault(form.coverImage) == DefaultCoverImage || coverImageValid
    ensures RequiredFieldsFilled(form) && form.coverImage == "" ==> r
  {
    RequiredFieldsFilled(form) && (form.coverImage == "" || coverImageValid)
  }

  /** Submitting the form: the browser blocks it unless it accepts the fields; then
      `handleSubmit` does nothing without a user or while a submission is pending; otherwise
      the article is created in front of the store and the form is reset. */
  function Submit(form: EditorForm, coverImageValid: bool, user: Option<User>, store: seq<Article>, id: string, now: Timestamp): (r: (EditorForm, seq<Article>))
    ensures !BrowserAccepts(form, coverImageValid) || user.None? || form.loading ==> r == (form, store)
    ensures BrowserAccepts(form, coverImageValid) && user.Some? && !form.loading ==>
              r.0 == EmptyForm
              && r.1 == ArticleService.CreateArticle(store, BuildDraft(form, user.value), id, now).1
              && r.1[0].title != "" && r.1[0].excerpt != Ellipsis
              && (r.1[0].coverImage == Some(DefaultCoverImage) || coverImageValid)
  {
    if !BrowserAccepts(form, coverImageValid) || user.None? || form.loading then (form, store)
    else (EmptyForm, ArticleService.CreateArticle(store, BuildDraft(form, user.value), id, now).1)
  }

  /** A published article arrives unliked and unbookmarked, so a consistent store stays consistent. */
  lemma SubmitKeepsStoreConsistent(form: EditorForm, coverImageValid: bool, user: Option<User>, store: seq<Article>, id: string, now: Timestamp)
    requires ArticleService.StoreConsistent(store)
    ensures ArticleService.StoreConsistent(Submit(form, coverImageValid, user, store, id, now).1)
  {
    if BrowserAccepts(form, coverImageValid) && user.Some? && !form.loading {
      ArticleService.CreateArticleConsistent(store, BuildDraft(form, user.value), id, now);
    }
  }
}
