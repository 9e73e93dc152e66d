/** The comment form of project/src/components/CommentSection.tsx as a small sequential
    machine: the two drafts, the comment whose reply form is open, and the `submitting` flag.
    The outcome of the awaited `createComment` call is a parameter (`serviceOk`), so both
    the success path and the `catch` path are covered. */
module CommentSection {
  import opened Wrappers
  import opened Text
  import opened Types
  import Seqs
  import CommentService
  import ArticleDetail

  datatype FormState = FormState(
    newComment: string,
    replyingTo: Option<string>,
    replyContent: string,
    submitting: bool)

  /** The form, the comment store, and the list the parent page shows. */
  datatype SectionState = SectionState(form: FormState, store: seq<Comment>, shown: seq<Comment>)

  /** The guard both submit handlers share: a non-blank draft, a signed-in user, nothing pending. */
  predicate MaySubmit(draft: string, user: Option<User>, submitting: bool): (ok: bool)
    ensures ok <==> user.Some? && !submitting && !AllWhitespace(draft)
  {
    Trim(draft) != "" && user.Some? && !submitting
  }

  /** `handleSubmitComment`. A rejected attempt changes nothing. An accepted one posts a
      top-level comment with the draft's text; on success the store gains it at the end,
      the page shows it first and the draft is cleared. `submitting` ends false either way. */
  function SubmitComment(s: SectionState, user: Option<User>, articleId: string, id: string, now: Timestamp, serviceOk: bool): (r: SectionState)
    ensures !MaySubmit(s.form.newComment, user, s.form.submitting) ==> r == s
    ensures MaySubmit(s.form.newComment, user, s.form.submitting) ==> !r.form.submitting
    ensures MaySubmit(s.form.newComment, user, s.form.submitting) && !serviceOk ==> r == s
    ensures MaySubmit(s.form.newComment, user, s.form.submitting) && serviceOk ==>
              && |r.store| == |s.store| + 1 && r.store[..|s.store|] == s.store
              && r.store[|s.store|].parentId.None?
              && r.store[|s.store|].content == s.form.newComment
              && r.store[|s.store|].articleId == articleId
              && r.store[|s.store|].author == user.value
              && r.shown == [r.store[|s.store|]] + s.shown
              && r.form == s.form.(newComment := "")
  {
    if !MaySubmit(s.form.newComment, user, s.form.submitting) then s
    else if !serviceOk then s.(form := s.form.(submitting := false))
    else
      var created := CommentService.CreateComment(
        s.store, CommentService.CommentInput(s.form.newComment, user.value, articleId, None), id, now);
      SectionState(s.form.(newComment := "", submitting := false), created.1,
                   ArticleDetail.HandleCommentAdded(s.shown, created.0))
  }

  /** `handleSubmitReply(parentId)`, called only from the reply form, which is rendered for the
      comment `replyingTo` names. The same
      guard on the reply draft; on success the reply carries that parent, the reply draft is
      cleared and the reply form closes. `submitting` ends false either way. */
  function SubmitReply(s: SectionState, parentId: string, user: Option<User>, articleId: string, id: string, now: Timestamp, serviceOk: bool): (r: SectionState)
    requires s.form.replyingTo == Some(parentId)
    ensures !MaySubmit(s.form.replyContent, user, s.form.submitting) ==> r == s
    ensures MaySubmit(s.form.replyContent, user, s.form.submitting) ==> !r.form.submitting
    ensures MaySubmit(s.form.replyContent, user, s.form.submitting) && !serviceOk ==> r == s
    ensures MaySubmit(s.form.replyContent, user, s.form.submitting) && serviceOk ==>
              && |r.store| == |s.store| + 1 && r.store[..|s.store|] == s.store
              && r.store[|s.store|].parentId == Some(parentId)
              && r.store[|s.store|].content == s.form.replyContent
              && r.store[|s.store|].articleId == articleId
              && r.store[|s.store|].author == user.value
              && r.shown == [r.store[|s.store|]] + s.shown
              && r.form == s.form.(replyContent := "", replyingTo := None)
  {
    if !MaySubmit(s.form.replyContent, user, s.form.submitting) then s
    else if !serviceOk then s.(form := s.form.(submitting := false))
    else
      var created := CommentService.CreateComment(
        s.store, CommentService.CommentInput(s.form.replyContent, user.value, articleId, Some(parentId)), id, now);
      SectionState(s.form.(replyContent := "", replyingTo := None, submitting := false), created.1,
                   ArticleDetail.HandleCommentAdded(s.shown, created.0))
  }

  /** The Reply button of comment `commentId`: closes that comment's open form, otherwise
      opens it (closing any other). Nothing else in the form changes. */
  function ClickReply(f: FormState, commentId: string): (r: FormState)
    ensures f.replyingTo == Some(commentId) ==> r.replyingTo.None?
    ensures f.replyingTo != Some(commentId) ==> r.replyingTo == Some(commentId)
    ensures r.(replyingTo := f.replyingTo) == f
  {
    f.(replyingTo := if f.replyingTo == Some(commentId) then None else Some(commentId))
  }

  /** The Cancel button of the reply form. */
  function CancelReply(f: FormState): (r: FormState)
    ensures r.replyingTo.None? && r.(replyingTo := f.replyingTo) == f
  {
    f.(replyingTo := None)
  }

  /** Clicking Reply twice on one comment restores the target when it started closed or on
      that comment; starting on another comment it ends closed. */
  lemma ClickReplyTwice(f: FormState, commentId: string)
    ensures f.replyingTo.None? || f.replyingTo == Some(commentId) ==> ClickReply(ClickReply(f, commentId), commentId) == f
    ensures f.replyingTo.Some? && f.replyingTo != Some(commentId) ==> ClickReply(ClickReply(f, commentId), commentId).replyingTo.None?
  {
  }

  /** `handleLikeComment`: the service's comment toggles; the shown list is not updated. */
  function HandleLikeComment(s: SectionState, commentId: string): (r: SectionState)
    ensures r.form == s.form && r.shown == s.shown
    ensures r.store == CommentService.LikeComment(s.store, commentId)
  {
    s.(store := CommentService.LikeComment(s.store, commentId))
  }

  /** A posted top-level comment shows up last among its article's threaded comments. */
  lemma PostedCommentThreadedLast(s: SectionState, user: Option<User>, articleId: string, id: string, now: Timestamp)
    requires MaySubmit(s.form.newComment, user, s.form.submitting)
    ensures var r := SubmitComment(s, user, articleId, id, now, true);
            var threaded := CommentService.GetCommentsByArticleId(r.store, articleId);
            |threaded| == |CommentService.GetCommentsByArticleId(s.store, articleId)| + 1
            && threaded[|threaded| - 1].id == id
            && threaded[|threaded| - 1].content == s.form.newComment
  {
    var r := SubmitComment(s, user, articleId, id, now, true);
    var c := r.store[|s.store|];
    assert r.store == s.store + [c];
    Seqs.FilterAppend(s.store, c, CommentService.OnArticle(articleId));
    Seqs.FilterAppend(CommentService.Scoped(s.store, articleId), c, CommentService.IsTopLevel);
  }

  /** When no stored comment names the fresh id as its parent, the posted comment's thread
      entry starts with no replies. */
  lemma PostedCommentHasNoReplies(s: SectionState, user: Option<User>, articleId: string, id: string, now: Timestamp)
    requires MaySubmit(s.form.newComment, user, s.form.submitting)
    requires forall j :: 0 <= j < |s.store| ==> s.store[j].parentId != Some(id)
    ensures var r := SubmitComment(s, user, articleId, id, now, true);
            var threaded := CommentService.GetCommentsByArticleId(r.store, articleId);
            |threaded| > 0 && threaded[|threaded| - 1].replies == Some([])
  {
    var r := SubmitComment(s, user, articleId, id, now, true);
    PostedCommentThreadedLast(s, user, articleId, id, now);
    PostingNamesNoNewParent(s, user, articleId, id, now);
    var threaded := CommentService.GetCommentsByArticleId(r.store, articleId);
    CommentService.UnrepliedEntryHasNoReplies(r.store, articleId, |threaded| - 1);
  }

  /** Posting a top-level comment adds no comment that names `id` as its parent. */
  lemma PostingNamesNoNewParent(s: SectionState, user: Option<User>, articleId: string, id: string, now: Timestamp)
    requires MaySubmit(s.form.newComment, user, s.form.submitting)
    requires forall j :: 0 <= j < |s.store| ==> s.store[j].parentId != Some(id)
    ensures var r := SubmitComment(s, user, articleId, id, now, true);
            forall j :: 0 <= j < |r.store| ==> r.store[j].parentId != Some(id)
  {
    var r := SubmitComment(s, user, articleId, id, now, true);
    assert forall j :: 0 <= j < |s.store| ==> r.store[j] == r.store[..|s.store|][j];
  }
}
