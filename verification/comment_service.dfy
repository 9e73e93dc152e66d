/** The mock comment service (project/src/services/commentService.ts): a flat store of
    comments in insertion order, the per-article two-level threading, creation and the
    like toggle. The fresh id and the creation time are parameters. */
module CommentService {
  import opened Wrappers
  import opened Seqs
  import opened Types

  /** The fields a caller supplies to `createComment`. */
  datatype CommentInput = CommentInput(content: string, author: User, articleId: string, parentId: Option<string>)

  /** `!comment.parentId`: no parent, or the empty (falsy) string as parent. */
  predicate IsTopLevel(c: Comment) {
    c.parentId.None? || c.parentId.value == ""
  }

  predicate IsNotTopLevel(c: Comment) {
    !IsTopLevel(c)
  }

  function CommentId(c: Comment): string {
    c.id
  }

  /** Comments of one article. */
  function OnArticle(articleId: string): Comment -> bool {
    (c: Comment) => c.articleId == articleId
  }

  /** `reply.parentId === id`. */
  function RepliesTo(id: string): Comment -> bool {
    (c: Comment) => c.parentId == Some(id)
  }

  /** The comment carries id `id`. */
  function HasId(id: string): Comment -> bool {
    (c: Comment) => c.id == id
  }

  /** Every comment in `store` has its own id. */
  predicate UniqueIds(store: seq<Comment>) {
    UniqueBy(store, CommentId)
  }

  /** The comments of `articleId`, in store order. */
  function Scoped(store: seq<Comment>, articleId: string): (r: seq<Comment>)
    ensures forall c :: c in r <==> c in store && c.articleId == articleId
  {
    Filter(store, OnArticle(articleId))
  }

  /** The top-level comments of `articleId`, in store order. */
  function TopLevelOf(store: seq<Comment>, articleId: string): (r: seq<Comment>)
    ensures forall c :: c in r <==> c in store && c.articleId == articleId && IsTopLevel(c)
  {
    Filter(Scoped(store, articleId), IsTopLevel)
  }

  /** A top-level comment with its `replies` filled in from the scoped list. */
  function Threaded(scoped: seq<Comment>, c: Comment): Comment {
    c.(replies := Some(Filter(scoped, RepliesTo(c.id))))
  }

  /** `getCommentsByArticleId`: the article's top-level comments in store order, each carrying
      exactly the article's comments that name it as parent. */
  function GetCommentsByArticleId(store: seq<Comment>, articleId: string): (r: seq<Comment>)
    ensures |r| == |TopLevelOf(store, articleId)|
    ensures forall i :: 0 <= i < |r| ==> r[i].(replies := TopLevelOf(store, articleId)[i].replies) == TopLevelOf(store, articleId)[i]
    ensures forall i :: 0 <= i < |r| ==> r[i].articleId == articleId && IsTopLevel(r[i]) && r[i].replies.Some?
    ensures forall i, x :: 0 <= i < |r| && r[i].replies.Some? ==>
              (x in r[i].replies.value <==> x in store && x.articleId == articleId && x.parentId == Some(r[i].id))
  {
    var scoped := Scoped(store, articleId);
    var tops := TopLevelOf(store, articleId);
    Map(tops, (c: Comment) => Threaded(scoped, c))
  }

  /** A thread entry whose id no stored comment names as its parent has no replies. */
  lemma UnrepliedEntryHasNoReplies(store: seq<Comment>, articleId: string, i: nat)
    requires i < |GetCommentsByArticleId(store, articleId)|
    requires forall j :: 0 <= j < |store| ==> store[j].parentId != Some(GetCommentsByArticleId(store, articleId)[i].id)
    ensures GetCommentsByArticleId(store, articleId)[i].replies == Some([])
  {
    var scoped := Scoped(store, articleId);
    var entry := GetCommentsByArticleId(store, articleId)[i];
    assert entry.replies == Some(Filter(scoped, RepliesTo(entry.id)));
    forall j | 0 <= j < |scoped| ensures !RepliesTo(entry.id)(scoped[j]) {
      assert scoped[j] in store;
    }
    FilterNoneOf(scoped, RepliesTo(entry.id));
  }

  /** The top-level comments come out in store order: they are one filter of the store. */
  lemma TopLevelInStoreOrder(store: seq<Comment>, articleId: string)
    ensures TopLevelOf(store, articleId) == Filter(store, And(OnArticle(articleId), IsTopLevel))
    ensures IsSubsequence(TopLevelOf(store, articleId), store)
  {
    FilterFilter(store, OnArticle(articleId), IsTopLevel);
    FilterIsSubsequence(store, And(OnArticle(articleId), IsTopLevel));
  }

  /** Each reply list is exactly the store's comments on the article naming that parent,
      in store order. */
  lemma RepliesInStoreOrder(store: seq<Comment>, articleId: string, i: nat)
    requires i < |GetCommentsByArticleId(store, articleId)|
    ensures GetCommentsByArticleId(store, articleId)[i].replies
            == Some(Filter(store, And(OnArticle(articleId), RepliesTo(GetCommentsByArticleId(store, articleId)[i].id))))
    ensures IsSubsequence(GetCommentsByArticleId(store, articleId)[i].replies.value, store)
  {
    var id := GetCommentsByArticleId(store, articleId)[i].id;
    FilterFilter(store, OnArticle(articleId), RepliesTo(id));
    FilterIsSubsequence(store, And(OnArticle(articleId), RepliesTo(id)));
  }

  /** A comment with a parent that names no top-level comment of the article (an orphan)
      is neither shown at top level nor under any comment. */
  lemma OrphanDropped(store: seq<Comment>, articleId: string, c: Comment)
    requires IsNotTopLevel(c)
    requires forall t :: t in store && t.articleId == articleId && IsTopLevel(t) ==> c.parentId != Some(t.id)
    ensures forall i :: 0 <= i < |GetCommentsByArticleId(store, articleId)| ==>
              GetCommentsByArticleId(store, articleId)[i] != c
              && c !in GetCommentsByArticleId(store, articleId)[i].replies.value
  {
    var r := GetCommentsByArticleId(store, articleId);
    forall i | 0 <= i < |r| ensures r[i] != c && c !in r[i].replies.value {
      var t := TopLevelOf(store, articleId)[i];
      assert t in TopLevelOf(store, articleId);
      assert r[i].id == t.id;
    }
  }

  /** With distinct ids, a reply to a reply is an orphan and is dropped. */
  lemma ReplyToReplyDropped(store: seq<Comment>, articleId: string, c: Comment, p: Comment)
    requires UniqueIds(store)
    requires p in store && IsNotTopLevel(p)
    requires IsNotTopLevel(c) && c.parentId == Some(p.id)
    ensures forall i :: 0 <= i < |GetCommentsByArticleId(store, articleId)| ==>
              GetCommentsByArticleId(store, articleId)[i] != c
              && c !in GetCommentsByArticleId(store, articleId)[i].replies.value
  {
    forall t | t in store && t.articleId == articleId && IsTopLevel(t) ensures c.parentId != Some(t.id) {
      if t.id == p.id {
        UniqueByMembers(store, CommentId, t, p);
      }
    }
    OrphanDropped(store, articleId, c);
  }

  /** With distinct ids, no comment is attached under two different top-level comments. */
  lemma NoSharedReplies(store: seq<Comment>, articleId: string, i: nat, j: nat, x: Comment)
    requires UniqueIds(store)
    requires i < j < |GetCommentsByArticleId(store, articleId)|
    ensures !(x in GetCommentsByArticleId(store, articleId)[i].replies.value
              && x in GetCommentsByArticleId(store, articleId)[j].replies.value)
  {
    var tops := TopLevelOf(store, articleId);
    FilterKeepsUnique(store, OnArticle(articleId), CommentId);
    FilterKeepsUnique(Scoped(store, articleId), IsTopLevel, CommentId);
    assert CommentId(tops[i]) != CommentId(tops[j]);
  }

  // ------------------------------------------------------------------ size bound

  /** Number of replies attached across a threaded list. */
  function TotalReplies(r: seq<Comment>): nat {
    if |r| == 0 then 0 else |r[0].replies.GetOr([])| + TotalReplies(r[1..])
  }

  /** Number of comments of `scoped` that name each of `parents` in turn. */
  function RepliesAcross(scoped: seq<Comment>, parents: seq<Comment>): nat {
    if |parents| == 0 then 0 else |Filter(scoped, RepliesTo(parents[0].id))| + RepliesAcross(scoped, parents[1..])
  }

  function IdsOf(parents: seq<Comment>): set<string> {
    set c | c in parents :: c.id
  }

  /** The comment's parent is one of `ids`. */
  function ParentIn(ids: set<string>): Comment -> bool {
    (c: Comment) => c.parentId.Some? && c.parentId.value in ids
  }

  /** With distinct ids and no empty id, the threaded view never shows more comments
      (top-level plus replies) than the article has. With an empty id it can: see
      `EmptyIdCountedTwice`. */
  lemma ThreadedSizeBound(store: seq<Comment>, articleId: string)
    requires UniqueIds(store)
    requires forall c :: c in store ==> c.id != ""
    ensures |GetCommentsByArticleId(store, articleId)| + TotalReplies(GetCommentsByArticleId(store, articleId))
            <= |Scoped(store, articleId)|
  {
    var scoped := Scoped(store, articleId);
    var tops := TopLevelOf(store, articleId);
    var r := GetCommentsByArticleId(store, articleId);
    TotalRepliesOfThreaded(scoped, tops, r);
    FilterKeepsUnique(store, OnArticle(articleId), CommentId);
    FilterKeepsUnique(scoped, IsTopLevel, CommentId);
    RepliesAcrossIsParentIn(scoped, tops);
    ParentInNotTopLevel(scoped, IdsOf(tops));
    TopLevelSplit(scoped);
  }

  lemma {:induction false} TotalRepliesOfThreaded(scoped: seq<Comment>, tops: seq<Comment>, r: seq<Comment>)
    requires |r| == |tops|
    requires forall i :: 0 <= i < |r| ==> r[i] == Threaded(scoped, tops[i])
    ensures TotalReplies(r) == RepliesAcross(scoped, tops)
  {
    if |r| > 0 {
      TotalRepliesOfThreaded(scoped, tops[1..], r[1..]);
    }
  }

  /** For parents with distinct ids, counting replies parent by parent is counting the
      comments whose parent is any of them. */
  lemma {:induction false} RepliesAcrossIsParentIn(scoped: seq<Comment>, parents: seq<Comment>)
    requires UniqueBy(parents, CommentId)
    ensures RepliesAcross(scoped, parents) == |Filter(scoped, ParentIn(IdsOf(parents)))|
  {
    if |parents| == 0 {
      assert IdsOf(parents) == {};
      FilterNoneOf(scoped, ParentIn({}));
    } else {
      UniqueTail(parents, CommentId);
      RepliesAcrossIsParentIn(scoped, parents[1..]);
      var rest := IdsOf(parents[1..]);
      forall c | c in parents[1..] ensures c.id != parents[0].id {
        HeadKeyFresh(parents, CommentId, c);
      }
      assert IdsOf(parents) == rest + {parents[0].id} by {
        assert parents == [parents[0]] + parents[1..];
      }
      ParentInAddOne(scoped, rest, parents[0].id);
    }
  }

  lemma {:induction false} ParentInAddOne(s: seq<Comment>, ids: set<string>, id: string)
    requires id !in ids
    ensures |Filter(s, ParentIn(ids + {id}))| == |Filter(s, RepliesTo(id))| + |Filter(s, ParentIn(ids))|
  {
    if |s| > 0 {
      ParentInAddOne(s[1..], ids, id);
    }
  }

  /** A comment whose parent is a non-empty id is not top-level. */
  lemma {:induction false} ParentInNotTopLevel(s: seq<Comment>, ids: set<string>)
    requires "" !in ids
    ensures |Filter(s, ParentIn(ids))| <= |Filter(s, IsNotTopLevel)|
  {
    if |s| > 0 {
      ParentInNotTopLevel(s[1..], ids);
    }
  }

  lemma {:induction false} TopLevelSplit(s: seq<Comment>)
    ensures |Filter(s, IsTopLevel)| + |Filter(s, IsNotTopLevel)| == |s|
  {
    if |s| > 0 {
      TopLevelSplit(s[1..]);
    }
  }

  /** Without the non-empty-id condition the bound fails: a comment whose parent is the
      falsy `""` is top-level and also a reply of a top-level comment with id `""`. */
  lemma EmptyIdCountedTwice(u: User)
    ensures var a := Comment("", "first", u, "1", None, 0, 0, None, None);
            var b := Comment("b", "second", u, "1", Some(""), 0, 0, None, None);
            var r := GetCommentsByArticleId([a, b], "1");
            |r| == 2 && TotalReplies(r) == 1 && |Scoped([a, b], "1")| == 2
  {
    var a := Comment("", "first", u, "1", None, 0, 0, None, None);
    var b := Comment("b", "second", u, "1", Some(""), 0, 0, None, None);
    assert Scoped([a, b], "1") == [a, b];
    assert TopLevelOf([a, b], "1") == [a, b];
    assert Filter([a, b], RepliesTo("")) == [b];
    assert Filter([a, b], RepliesTo("b")) == [];
    var r := GetCommentsByArticleId([a, b], "1");
    assert r[0].replies == Some([b]) && r[1].replies == Some([]);
    assert TotalReplies(r[1..][1..]) == 0;
  }

  // ------------------------------------------------------------------ create / like

  /** `createComment`: the new comment, unliked with zero likes, and the store with it appended. */
  function CreateComment(store: seq<Comment>, input: CommentInput, id: string, now: Timestamp): (r: (Comment, seq<Comment>))
    ensures r.0.likes == 0 && r.0.isLiked == Some(false) && r.0.replies.None?
    ensures r.0.id == id && r.0.createdAt == now
    ensures r.0.content == input.content && r.0.author == input.author
    ensures r.0.articleId == input.articleId && r.0.parentId == input.parentId
    ensures |r.1| == |store| + 1 && r.1[..|store|] == store && r.1[|store|] == r.0
  {
    var c := Comment(id, input.content, input.author, input.articleId, input.parentId, now, 0, Some(false), None);
    (c, store + [c])
  }

  /** `likeComment`: the first comment with that id has its like toggled; an unknown id is a no-op. */
  function LikeComment(store: seq<Comment>, id: string): (r: seq<Comment>)
    ensures |r| == |store|
    ensures (forall j :: 0 <= j < |store| ==> store[j].id != id) ==> r == store
    ensures forall j :: 0 <= j < |store| ==>
              r[j] == store[j]
              || (store[j].id == id && r[j] == ToggledCommentLike(store[j]) && forall i :: 0 <= i < j ==> store[i].id != id)
    ensures FirstIndex(store, HasId(id)).Some? ==>
              r[FirstIndex(store, HasId(id)).value] == ToggledCommentLike(store[FirstIndex(store, HasId(id)).value])
  {
    UpdateFirst(store, HasId(id), ToggledCommentLike)
  }

  /** Every comment's like counter agrees with its flag. */
  predicate CommentStoreConsistent(store: seq<Comment>) {
    forall j :: 0 <= j < |store| ==> CommentCountersConsistent(store[j])
  }

  /** A new comment arrives unliked with zero likes, so a consistent store stays consistent. */
  lemma CreateCommentConsistent(store: seq<Comment>, input: CommentInput, id: string, now: Timestamp)
    requires CommentStoreConsistent(store)
    ensures CommentStoreConsistent(CreateComment(store, input, id, now).1)
  {
    var r := CreateComment(store, input, id, now).1;
    assert forall j :: 0 <= j < |store| ==> r[j] == store[j];
  }

  /** Liking a comment keeps a consistent store consistent. */
  lemma LikeCommentKeepsConsistent(store: seq<Comment>, id: string)
    requires CommentStoreConsistent(store)
    ensures CommentStoreConsistent(LikeComment(store, id))
  {
    forall j | 0 <= j < |store| ensures CommentCountersConsistent(LikeComment(store, id)[j]) {
      ToggledCommentLikeKeepsConsistent(store[j]);
    }
  }

  /** Two likes in a row restore every like count and liked state; when the comment's
      flag was defined they restore the store exactly. */
  lemma LikeCommentTwice(store: seq<Comment>, id: string)
    ensures forall j :: 0 <= j < |store| ==>
              LikeComment(LikeComment(store, id), id)[j].likes == store[j].likes
              && Truthy(LikeComment(LikeComment(store, id), id)[j].isLiked) == Truthy(store[j].isLiked)
    ensures (forall j :: 0 <= j < |store| && store[j].id == id ==> store[j].isLiked.Some?) ==>
              LikeComment(LikeComment(store, id), id) == store
  {
    var p := HasId(id);
    var once := LikeComment(store, id);
    assert forall j :: 0 <= j < |store| ==> p(once[j]) == p(store[j]);
    SameKeysSameFirstIndex(store, once, p);
    match FirstIndex(store, p)
    case None =>
    case Some(k) =>
      ToggledCommentLikeTwice(store[k]);
      assert LikeComment(once, id) == once[k := ToggledCommentLike(once[k])];
  }
}
