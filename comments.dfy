/**
 * The comment service: commenting on an existing article, the three
 * listings, reading one comment, the author-only update and delete, and
 * the two counts.
 */
module Comments {
  import opened Common
  import opened Seqs
  import opened Entities
  import opened Store
  import opened Pagination
  import opened Dto

  const UpdateForbidden: Failure := Forbidden("You can only update your own comments")
  const DeleteForbidden: Failure := Forbidden("You can only delete your own comments")

  function CommentNotFound(id: string): Failure {
    NotFound("Comment with ID " + id + " not found")
  }

  /** A comment id the id generator may hand out: set, and not yet used. */
  ghost predicate FreshCommentId(t: Tables, generatedId: string) {
    generatedId != "" && forall c <- t.comments :: c.id != generatedId
  }

  /** The ownership check of update and remove; a comment whose author was deleted fails it for everybody. */
  predicate IsAuthor(c: Comment, userId: string) {
    c.authorId == Some(userId)
  }

  /**
   * `create`: NotFound when the article does not exist, leaving the store
   * as it was; otherwise stores a new comment by the caller on it.
   */
  function CreateStep(t: Tables, dto: CreateCommentDto, authorId: string, generatedId: string, now: nat)
    : (out: (Result<Comment>, Tables))
    requires Consistent(t) && FreshCommentId(t, generatedId)
    ensures Consistent(out.1)
    ensures dto.articleId !in ArticleIds(t.articles) ==> out == (Err(ArticleNotFound(dto.articleId)), t)
    ensures dto.articleId in ArticleIds(t.articles) ==>
      && out.0 == Ok(Comment(generatedId, dto.content, dto.articleId, Some(authorId), now, now))
      && out.1 == t.(comments := t.comments + [out.0.value])
  {
    if FindArticle(t.articles, dto.articleId).None? then
      (Err(ArticleNotFound(dto.articleId)), t)
    else
      var comment := Comment("", dto.content, dto.articleId, Some(authorId), now, now).GenerateId(generatedId);
      AppendKeepsDistinct(t.comments, comment, CommentKey);
      (Ok(comment), t.(comments := t.comments + [comment]))
  }

  /** `findAll`: every comment, newest first, one page of them. */
  function FindAll(t: Tables, q: PageQuery): (r: PaginatedResponse<Comment>)
    requires Pageable(q)
    ensures r.meta == NewMeta(PageOf(q), LimitOf(q), |t.comments|)
    ensures r.data == PageSlice(SortDesc(t.comments, CommentCreated), PageOf(q), LimitOf(q))
    ensures |r.data| <= LimitOf(q)
    ensures forall c <- r.data :: c in t.comments
    ensures SortedDesc(r.data, CommentCreated)
  {
    NewestFirstPage(t.comments, CommentCreated, q)
  }

  /**
   * `findByArticle`: the comments on `articleId`, newest first, one page
   * of them. The article itself is not looked up.
   */
  function FindByArticle(t: Tables, articleId: string, q: PageQuery): (r: PaginatedResponse<Comment>)
    requires Pageable(q)
    ensures r.meta == NewMeta(PageOf(q), LimitOf(q), |CommentsOn(t.comments, articleId)|)
    ensures r.data == PageSlice(SortDesc(CommentsOn(t.comments, articleId), CommentCreated), PageOf(q), LimitOf(q))
    ensures |r.data| <= LimitOf(q)
    ensures forall c <- r.data :: c in t.comments && c.articleId == articleId
    ensures SortedDesc(r.data, CommentCreated)
  {
    NewestFirstPage(CommentsOn(t.comments, articleId), CommentCreated, q)
  }

  /** `findByAuthor`: the comments written by `authorId`, newest first, one page of them. */
  function FindByAuthor(t: Tables, authorId: string, q: PageQuery): (r: PaginatedResponse<Comment>)
    requires Pageable(q)
    ensures r.meta == NewMeta(PageOf(q), LimitOf(q), |CommentsBy(t.comments, authorId)|)
    ensures r.data == PageSlice(SortDesc(CommentsBy(t.comments, authorId), CommentCreated), PageOf(q), LimitOf(q))
    ensures |r.data| <= LimitOf(q)
    ensures forall c <- r.data :: c in t.comments && c.authorId == Some(authorId)
    ensures SortedDesc(r.data, CommentCreated)
  {
    NewestFirstPage(CommentsBy(t.comments, authorId), CommentCreated, q)
  }

  /** `findOne`: the comment with that id, or NotFound. */
  function FindOne(t: Tables, id: string): (r: Result<Comment>)
    ensures r.Ok? ==> r.value in t.comments && r.value.id == id
    ensures r.Err? ==> r.failure == CommentNotFound(id) && forall c <- t.comments :: c.id != id
  {
    var found := FindComment(t.comments, id);
    if found.None? then Err(CommentNotFound(id)) else Ok(found.value)
  }

  /** `countByArticle`: how many comments are on the article. */
  function CountByArticle(t: Tables, articleId: string): (r: nat)
    ensures r <= |t.comments|
    ensures r == 0 <==> forall c <- t.comments :: c.articleId != articleId
  {
    var on := CommentsOn(t.comments, articleId);
    assert on != [] ==> on[0] in on;
    |on|
  }

  /** `countByAuthor`: how many comments the user wrote. */
  function CountByAuthor(t: Tables, authorId: string): (r: nat)
    ensures r <= |t.comments|
    ensures r == 0 <==> forall c <- t.comments :: c.authorId != Some(authorId)
  {
    var mine := CommentsBy(t.comments, authorId);
    assert mine != [] ==> mine[0] in mine;
    |mine|
  }

  /**
   * The row after `Object.assign(comment, dto)` and `save`: new content
   * when the body carries one; the article and the author never change;
   * `updatedAt` moves to the store's clock only when the content changed.
   */
  function ApplyUpdate(c: Comment, dto: UpdateCommentDto, now: nat): (r: Comment)
    ensures r.id == c.id && r.articleId == c.articleId && r.authorId == c.authorId && r.createdAt == c.createdAt
    ensures r.content == (if dto.content.Some? then dto.content.value else c.content)
    ensures r.content == c.content ==> r == c
    ensures r.content != c.content ==> r.updatedAt == now
  {
    var b := c.(content := dto.content.GetOr(c.content));
    if b == c then c else b.(updatedAt := now)
  }

  /**
   * `update`: NotFound for an unknown id and Forbidden for anyone but the
   * author, leaving the store as it was; otherwise the new content is
   * saved over that one row.
   */
  function UpdateStep(t: Tables, id: string, dto: UpdateCommentDto, userId: string, now: nat)
    : (out: (Result<Comment>, Tables))
    requires Consistent(t)
    ensures Consistent(out.1)
    ensures (forall c <- t.comments :: c.id != id) ==> out == (Err(CommentNotFound(id)), t)
    ensures forall c <- t.comments :: c.id == id && !IsAuthor(c, userId) ==> out == (Err(UpdateForbidden), t)
    ensures forall c <- t.comments :: c.id == id && IsAuthor(c, userId) ==>
      && out.0 == Ok(ApplyUpdate(c, dto, now))
      && out.1 == t.(comments := ReplaceByKey(t.comments, CommentKey, out.0.value))
  {
    var found := FindOne(t, id);
    if found.Err? then
      (Err(found.failure), t)
    else
      var c := found.value;
      assert forall d <- t.comments :: d.id == id ==> d == c by {
        forall d | d in t.comments && d.id == id
          ensures d == c
        {
          DistinctByUnique(t.comments, CommentKey, c, d);
        }
      }
      if !IsAuthor(c, userId) then
        (Err(UpdateForbidden), t)
      else
        var updated := ApplyUpdate(c, dto, now);
        SaveCommentKeepsConstraints(t, updated);
        (Ok(updated), t.(comments := ReplaceByKey(t.comments, CommentKey, updated)))
  }

  /**
   * `remove`: NotFound for an unknown id and Forbidden for anyone but the
   * author, leaving the store as it was; otherwise that one comment row is
   * deleted.
   */
  function RemoveStep(t: Tables, id: string, userId: string): (out: (Result<()>, Tables))
    requires Consistent(t)
    ensures Consistent(out.1)
    ensures (forall c <- t.comments :: c.id != id) ==> out == (Err(CommentNotFound(id)), t)
    ensures forall c <- t.comments :: c.id == id && !IsAuthor(c, userId) ==> out == (Err(DeleteForbidden), t)
    ensures forall c <- t.comments :: c.id == id && IsAuthor(c, userId) ==>
      out == (Ok(()), t.(comments := WithoutKey(t.comments, CommentKey, id)))
  {
    var found := FindOne(t, id);
    if found.Err? then
      (Err(found.failure), t)
    else
      assert forall d <- t.comments :: d.id == id ==> d == found.value by {
        forall d | d in t.comments && d.id == id
          ensures d == found.value
        {
          DistinctByUnique(t.comments, CommentKey, found.value, d);
        }
      }
      if !IsAuthor(found.value, userId) then
        (Err(DeleteForbidden), t)
      else
        WithoutKeyKeepsDistinct(t.comments, CommentKey, id, CommentKey);
        (Ok(()), t.(comments := WithoutKey(t.comments, CommentKey, id)))
  }

  /** The counts are the totals the listings report. */
  lemma CountsMatchListings(t: Tables, articleId: string, authorId: string, q: PageQuery)
    requires Pageable(q)
    ensures CountByArticle(t, articleId) == FindByArticle(t, articleId, q).meta.total
    ensures CountByAuthor(t, authorId) == FindByAuthor(t, authorId, q).meta.total
  {
  }

  /**
   * An article id with no article row has no comments: by the foreign key
   * every comment's article exists, so its listing is empty.
   */
  lemma {:induction false} UnknownArticleHasNoComments(t: Tables, articleId: string, q: PageQuery)
    requires Consistent(t) && Pageable(q) && articleId !in ArticleIds(t.articles)
    ensures FindByArticle(t, articleId, q).data == []
    ensures FindByArticle(t, articleId, q).meta.total == 0
    ensures CountByArticle(t, articleId) == 0
  {
    FilterDropsAll(t.comments, (c: Comment) => c.articleId == articleId);
  }

  /**
   * A new comment raises its article's count and its author's count by
   * one, and no other article's or author's.
   */
  lemma {:induction false} CreateCounts(t: Tables, dto: CreateCommentDto, authorId: string, generatedId: string, now: nat,
                                        otherArticle: string, otherAuthor: string)
    requires Consistent(t) && FreshCommentId(t, generatedId)
    requires CreateStep(t, dto, authorId, generatedId, now).0.Ok?
    ensures var t1 := CreateStep(t, dto, authorId, generatedId, now).1;
      && CountByArticle(t1, dto.articleId) == CountByArticle(t, dto.articleId) + 1
      && CountByAuthor(t1, authorId) == CountByAuthor(t, authorId) + 1
      && (otherArticle != dto.articleId ==> CountByArticle(t1, otherArticle) == CountByArticle(t, otherArticle))
      && (otherAuthor != authorId ==> CountByAuthor(t1, otherAuthor) == CountByAuthor(t, otherAuthor))
  {
    var c := CreateStep(t, dto, authorId, generatedId, now).0.value;
    FilterConcat(t.comments, [c], (d: Comment) => d.articleId == dto.articleId);
    FilterConcat(t.comments, [c], (d: Comment) => d.authorId == Some(authorId));
    FilterConcat(t.comments, [c], (d: Comment) => d.articleId == otherArticle);
    FilterConcat(t.comments, [c], (d: Comment) => d.authorId == Some(otherAuthor));
  }

  /** A new comment can be read back by its id. */
  lemma CreatedCommentIsFound(t: Tables, dto: CreateCommentDto, authorId: string, generatedId: string, now: nat)
    requires Consistent(t) && FreshCommentId(t, generatedId)
    requires CreateStep(t, dto, authorId, generatedId, now).0.Ok?
    ensures var (r, t1) := CreateStep(t, dto, authorId, generatedId, now);
      FindOne(t1, generatedId) == Ok(r.value)
  {
    var (r, t1) := CreateStep(t, dto, authorId, generatedId, now);
    FindCommentFindsRow(t1.comments, r.value);
  }

  /**
   * After a successful update, reading the comment back gives the saved
   * row, still on the same article and by the same author.
   */
  lemma UpdateThenFindOne(t: Tables, id: string, dto: UpdateCommentDto, userId: string, now: nat)
    requires Consistent(t)
    requires UpdateStep(t, id, dto, userId, now).0.Ok?
    ensures var (r, t1) := UpdateStep(t, id, dto, userId, now);
      && FindOne(t1, id) == Ok(r.value)
      && FindOne(t, id).Ok?
      && r.value.articleId == FindOne(t, id).value.articleId
      && r.value.authorId == Some(userId)
  {
    var (r, t1) := UpdateStep(t, id, dto, userId, now);
    var c := FindComment(t.comments, id).value;
    var i :| 0 <= i < |t.comments| && t.comments[i] == c;
    assert t1.comments[i] == r.value;
    FindCommentFindsRow(t1.comments, r.value);
  }

  /** A successful delete removes exactly one row: the comment is gone, every other one stays. */
  lemma RemoveDeletesOne(t: Tables, id: string, userId: string)
    requires Consistent(t)
    requires RemoveStep(t, id, userId).0.Ok?
    ensures var t1 := RemoveStep(t, id, userId).1;
      && FindOne(t1, id) == Err(CommentNotFound(id))
      && |t1.comments| == |t.comments| - 1
      && (forall c <- t.comments :: c.id != id ==> c in t1.comments)
  {
    var c := FindComment(t.comments, id).value;
    WithoutKeyRemovesOne(t.comments, CommentKey, c);
  }

  /** The comment service: its writes change the comments table in place. */
  class CommentsService {
    const db: Database

    constructor (db: Database)
      ensures this.db == db
    {
      this.db := db;
    }

    method Create(dto: CreateCommentDto, authorId: string, generatedId: string, now: nat) returns (r: Result<Comment>)
      requires db.Valid() && FreshCommentId(db.State(), generatedId)
      modifies db
      ensures db.Valid()
      ensures (r, db.State()) == CreateStep(old(db.State()), dto, authorId, generatedId, now)
    {
      var article := FindArticle(db.articles, dto.articleId);
      if article.None? {
        return Err(ArticleNotFound(dto.articleId));
      }
      var comment := Comment("", dto.content, dto.articleId, Some(authorId), now, now).GenerateId(generatedId);
      AppendKeepsDistinct(db.comments, comment, CommentKey);
      db.comments := db.comments + [comment];
      r := Ok(comment);
    }

    method Update(id: string, dto: UpdateCommentDto, userId: string, now: nat) returns (r: Result<Comment>)
      requires db.Valid()
      modifies db
      ensures db.Valid()
      ensures (r, db.State()) == UpdateStep(old(db.State()), id, dto, userId, now)
    {
      var found := FindOne(db.State(), id);
      if found.Err? {
        return Err(found.failure);
      }
      var comment := found.value;
      if comment.authorId != Some(userId) {
        return Err(UpdateForbidden);
      }
      var updated := ApplyUpdate(comment, dto, now);
      SaveCommentKeepsConstraints(db.State(), updated);
      db.comments := ReplaceByKey(db.comments, CommentKey, updated);
      r := Ok(updated);
    }

    method Remove(id: string, userId: string) returns (r: Result<()>)
      requires db.Valid()
      modifies db
      ensures db.Valid()
      ensures (r, db.State()) == RemoveStep(old(db.State()), id, userId)
    {
      var found := FindOne(db.State(), id);
      if found.Err? {
        return Err(found.failure);
      }
      if found.value.authorId != Some(userId) {
        return Err(DeleteForbidden);
      }
      WithoutKeyKeepsDistinct(db.comments, CommentKey, id, CommentKey);
      db.comments := WithoutKey(db.comments, CommentKey, id);
      r := Ok(());
    }
  }
}
