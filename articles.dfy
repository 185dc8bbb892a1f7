/**
 * The article service: publishing, listing, reading one article with its
 * comments and like figures, and the author-only update and delete.
 */
module Articles {
  import opened Common
  import opened Seqs
  import opened Entities
  import opened Store
  import opened Pagination
  import opened Dto
  import Likes

  const UpdateForbidden: Failure := Forbidden("You can only update your own articles")
  const DeleteForbidden: Failure := Forbidden("You can only delete your own articles")

  /** An article id the id generator may hand out: set, and not yet used. */
  ghost predicate FreshArticleId(t: Tables, generatedId: string) {
    generatedId != "" && forall a <- t.articles :: a.id != generatedId
  }

  /**
   * The ownership check of update and remove. An article whose author was
   * deleted has no author, so it fails the check for every user.
   */
  predicate IsAuthor(a: Article, userId: string) {
    a.authorId == Some(userId)
  }

  /**
   * `create`: stores a new article written by the caller; the id comes
   * from the insert hook and both timestamps from the store's clock.
   */
  function CreateStep(t: Tables, dto: CreateArticleDto, authorId: string, generatedId: string, now: nat)
    : (out: (Article, Tables))
    requires Consistent(t) && FreshArticleId(t, generatedId)
    ensures Consistent(out.1)
    ensures out.0 == Article(generatedId, dto.title, dto.content, Some(authorId), now, now)
    ensures out.1 == t.(articles := t.articles + [out.0])
  {
    var article := Article("", dto.title, dto.content, Some(authorId), now, now).GenerateId(generatedId);
    AppendKeepsDistinct(t.articles, article, ArticleKey);
    ArticleIdsAppend(t.articles, article);
    (article, t.(articles := t.articles + [article]))
  }

  /** `findAll`: every article, newest first, one page of them. */
  function FindAll(t: Tables, q: PageQuery): (r: PaginatedResponse<Article>)
    requires Pageable(q)
    ensures r.meta == NewMeta(PageOf(q), LimitOf(q), |t.articles|)
    ensures r.data == PageSlice(SortDesc(t.articles, ArticleCreated), PageOf(q), LimitOf(q))
    ensures |r.data| <= LimitOf(q)
    ensures forall a <- r.data :: a in t.articles
    ensures SortedDesc(r.data, ArticleCreated)
  {
    NewestFirstPage(t.articles, ArticleCreated, q)
  }

  /**
   * The listing route: the query object goes to `findAll` whole, which
   * reads only its page and limit.
   */
  function FindAllSearch(t: Tables, s: SearchArticlesDto): (r: PaginatedResponse<Article>)
    requires Pageable(PageQuery(s.page, s.limit))
    ensures r.meta == NewMeta(PageOf(PageQuery(s.page, s.limit)), LimitOf(PageQuery(s.page, s.limit)), |t.articles|)
    ensures r.data == PageSlice(SortDesc(t.articles, ArticleCreated),
                                PageOf(PageQuery(s.page, s.limit)), LimitOf(PageQuery(s.page, s.limit)))
  {
    FindAll(t, PageQuery(s.page, s.limit))
  }

  /**
   * The search text, the sort field and the sort order change nothing:
   * two queries with the same page and limit get the same answer, and it
   * is ordered newest first even when another order was asked for.
   */
  lemma SearchParametersIgnored(t: Tables, s1: SearchArticlesDto, s2: SearchArticlesDto)
    requires s1.page == s2.page && s1.limit == s2.limit
    requires Pageable(PageQuery(s1.page, s1.limit))
    ensures FindAllSearch(t, s1) == FindAllSearch(t, s2)
    ensures SortedDesc(FindAllSearch(t, s1).data, ArticleCreated)
    ensures FindAllSearch(t, s1).meta.total == |t.articles|
  {
  }

  /** `findByAuthor`: the articles whose author is `authorId`, newest first, one page of them. */
  function FindByAuthor(t: Tables, authorId: string, q: PageQuery): (r: PaginatedResponse<Article>)
    requires Pageable(q)
    ensures r.meta == NewMeta(PageOf(q), LimitOf(q), |ArticlesBy(t.articles, authorId)|)
    ensures r.data == PageSlice(SortDesc(ArticlesBy(t.articles, authorId), ArticleCreated), PageOf(q), LimitOf(q))
    ensures |r.data| <= LimitOf(q)
    ensures forall a <- r.data :: a in t.articles && a.authorId == Some(authorId)
    ensures SortedDesc(r.data, ArticleCreated)
  {
    NewestFirstPage(ArticlesBy(t.articles, authorId), ArticleCreated, q)
  }

  /** An article with the comments on it and its like figures, as `findOne` returns it. */
  datatype ArticleDetail = ArticleDetail(
    article: Article,
    comments: seq<Comment>,
    likesCount: nat,
    isLikedByUser: Option<bool>)

  /**
   * `findOne`: NotFound for an unknown id; otherwise the article, every
   * comment on it, its number of likes and, only when a user id is given
   * (truthy), whether that user likes it.
   */
  function FindOne(t: Tables, id: string, userId: Option<string>): (r: Result<ArticleDetail>)
    ensures r.Err? <==> id !in ArticleIds(t.articles)
    ensures r.Err? ==> r.failure == ArticleNotFound(id)
    ensures r.Ok? ==> r.value.article in t.articles && r.value.article.id == id
    ensures r.Ok? ==> forall c <- r.value.comments :: c in t.comments && c.articleId == id
    ensures r.Ok? ==> forall c <- t.comments :: c.articleId == id ==> c in r.value.comments
    ensures r.Ok? ==> r.value.likesCount == |LikesOn(t.likes, id)|
    ensures r.Ok? ==> (r.value.isLikedByUser.Some? <==> Truthy(userId))
    ensures r.Ok? && Truthy(userId) ==>
      (r.value.isLikedByUser.value <==> Likes.Liked(t.likes, id, userId.value))
  {
    var found := FindArticle(t.articles, id);
    if found.None? then
      Err(ArticleNotFound(id))
    else
      var isLiked := if Truthy(userId) then Some(FindLike(t.likes, id, userId.value).Some?) else None;
      Ok(ArticleDetail(found.value, CommentsOn(t.comments, id), |LikesOn(t.likes, id)|, isLiked))
  }

  /**
   * The row after `Object.assign(article, dto)` and `save`: the fields the
   * body carries overwrite the stored ones; `updatedAt` moves to the
   * store's clock only when a column actually changed, because an
   * unchanged entity is not written.
   */
  function ApplyUpdate(a: Article, dto: UpdateArticleDto, now: nat): (r: Article)
    ensures r.id == a.id && r.authorId == a.authorId && r.createdAt == a.createdAt
    ensures r.title == (if dto.title.Some? then dto.title.value else a.title)
    ensures r.content == (if dto.content.Some? then dto.content.value else a.content)
    ensures r.title == a.title && r.content == a.content ==> r == a
    ensures r.title != a.title || r.content != a.content ==> r.updatedAt == now
  {
    var b := a.(title := dto.title.GetOr(a.title), content := dto.content.GetOr(a.content));
    if b == a then a else b.(updatedAt := now)
  }

  /**
   * `update`: NotFound for an unknown id and Forbidden for anyone but the
   * author, leaving the store as it was; otherwise the author's changes
   * are saved over that one row.
   */
  function UpdateStep(t: Tables, id: string, dto: UpdateArticleDto, userId: string, now: nat)
    : (out: (Result<Article>, Tables))
    requires Consistent(t)
    ensures Consistent(out.1)
    ensures id !in ArticleIds(t.articles) ==> out == (Err(ArticleNotFound(id)), t)
    ensures forall a <- t.articles :: a.id == id && !IsAuthor(a, userId) ==> out == (Err(UpdateForbidden), t)
    ensures forall a <- t.articles :: a.id == id && IsAuthor(a, userId) ==>
      && out.0 == Ok(ApplyUpdate(a, dto, now))
      && out.1 == t.(articles := ReplaceByKey(t.articles, ArticleKey, out.0.value))
  {
    var found := FindArticle(t.articles, id);
    if found.None? then
      (Err(ArticleNotFound(id)), t)
    else
      var a := found.value;
      assert forall b <- t.articles :: b.id == id ==> b == a by {
        forall b | b in t.articles && b.id == id
          ensures b == a
        {
          DistinctByUnique(t.articles, ArticleKey, a, b);
        }
      }
      if !IsAuthor(a, userId) then
        (Err(UpdateForbidden), t)
      else
        var updated := ApplyUpdate(a, dto, now);
        SaveArticleKeepsConstraints(t, updated);
        (Ok(updated), t.(articles := ReplaceByKey(t.articles, ArticleKey, updated)))
  }

  /**
   * `remove`: NotFound for an unknown id and Forbidden for anyone but the
   * author, leaving the store as it was; otherwise the article row is
   * deleted, and its comments and likes with it.
   */
  function RemoveStep(t: Tables, id: string, userId: string): (out: (Result<()>, Tables))
    requires Consistent(t)
    ensures Consistent(out.1)
    ensures id !in ArticleIds(t.articles) ==> out == (Err(ArticleNotFound(id)), t)
    ensures forall a <- t.articles :: a.id == id && !IsAuthor(a, userId) ==> out == (Err(DeleteForbidden), t)
    ensures forall a <- t.articles :: a.id == id && IsAuthor(a, userId) ==> out == (Ok(()), DeleteArticle(t, id))
  {
    var found := FindArticle(t.articles, id);
    if found.None? then
      (Err(ArticleNotFound(id)), t)
    else
      assert forall b <- t.articles :: b.id == id ==> b == found.value by {
        forall b | b in t.articles && b.id == id
          ensures b == found.value
        {
          DistinctByUnique(t.articles, ArticleKey, found.value, b);
        }
      }
      if !IsAuthor(found.value, userId) then
        (Err(DeleteForbidden), t)
      else
        (Ok(()), DeleteArticle(t, id))
  }

  /** A new article is found by its id, with no comments and no likes yet. */
  lemma CreatedArticleIsFound(t: Tables, dto: CreateArticleDto, authorId: string, generatedId: string, now: nat, userId: Option<string>)
    requires Consistent(t) && FreshArticleId(t, generatedId)
    ensures var (a, t1) := CreateStep(t, dto, authorId, generatedId, now);
      && FindOne(t1, a.id, userId).Ok?
      && FindOne(t1, a.id, userId).value.article == a
      && FindOne(t1, a.id, userId).value.comments == []
      && FindOne(t1, a.id, userId).value.likesCount == 0
  {
    var (a, t1) := CreateStep(t, dto, authorId, generatedId, now);
    FindArticleFindsRow(t1.articles, a);
    assert a in t1.articles;
    assert forall c <- t1.comments :: c.articleId != a.id;
    assert forall l <- t1.likes :: l.articleId != a.id;
    FilterDropsAll(t1.comments, (c: Comment) => c.articleId == a.id);
    FilterDropsAll(t1.likes, (l: Like) => l.articleId == a.id);
  }

  /** Publishing adds one article to its author's listing and to no one else's. */
  lemma {:induction false} CreateCountsForItsAuthor(t: Tables, dto: CreateArticleDto, authorId: string, generatedId: string, now: nat, other: string)
    requires Consistent(t) && FreshArticleId(t, generatedId)
    ensures var t1 := CreateStep(t, dto, authorId, generatedId, now).1;
      && |ArticlesBy(t1.articles, authorId)| == |ArticlesBy(t.articles, authorId)| + 1
      && (other != authorId ==> |ArticlesBy(t1.articles, other)| == |ArticlesBy(t.articles, other)|)
  {
    var a := CreateStep(t, dto, authorId, generatedId, now).0;
    FilterConcat(t.articles, [a], (b: Article) => b.authorId == Some(authorId));
    FilterConcat(t.articles, [a], (b: Article) => b.authorId == Some(other));
  }

  /** After a successful update, reading the article back gives the saved row. */
  lemma UpdateThenFindOne(t: Tables, id: string, dto: UpdateArticleDto, userId: string, now: nat, viewer: Option<string>)
    requires Consistent(t)
    requires UpdateStep(t, id, dto, userId, now).0.Ok?
    ensures var (r, t1) := UpdateStep(t, id, dto, userId, now);
      FindOne(t1, id, viewer).Ok? && FindOne(t1, id, viewer).value.article == r.value
  {
    var (r, t1) := UpdateStep(t, id, dto, userId, now);
    var a := FindArticle(t.articles, id).value;
    var i :| 0 <= i < |t.articles| && t.articles[i] == a;
    assert t1.articles[i] == r.value;
    FindArticleFindsRow(t1.articles, r.value);
  }

  /**
   * A successful delete takes the article's comments and likes with it:
   * the id is no longer found and nothing refers to it.
   */
  lemma RemoveCascades(t: Tables, id: string, userId: string, viewer: Option<string>)
    requires Consistent(t)
    requires RemoveStep(t, id, userId).0.Ok?
    ensures var t1 := RemoveStep(t, id, userId).1;
      && FindOne(t1, id, viewer) == Err(ArticleNotFound(id))
      && CommentsOn(t1.comments, id) == []
      && LikesOn(t1.likes, id) == []
      && |t1.articles| == |t.articles| - 1
  {
    var t1 := RemoveStep(t, id, userId).1;
    var a := FindArticle(t.articles, id).value;
    assert t1 == DeleteArticle(t, id);
    FilterDropsAll(t1.comments, (c: Comment) => c.articleId == id);
    FilterDropsAll(t1.likes, (l: Like) => l.articleId == id);
    assert t1.articles == WithoutKey(t.articles, ArticleKey, id);
    WithoutKeyRemovesOne(t.articles, ArticleKey, a);
  }

  /**
   * Once its author's account is deleted, an article can be neither
   * updated nor deleted by anyone, and the store stays as it was.
   */
  lemma OrphanedArticleIsFrozen(t: Tables, author: string, a: Article, dto: UpdateArticleDto, userId: string, now: nat)
    requires Consistent(t) && a in t.articles && a.authorId == Some(author)
    ensures var t1 := DeleteUser(t, author);
      && UpdateStep(t1, a.id, dto, userId, now) == (Err(UpdateForbidden), t1)
      && RemoveStep(t1, a.id, userId) == (Err(DeleteForbidden), t1)
  {
    var t1 := DeleteUser(t, author);
    var i :| 0 <= i < |t.articles| && t.articles[i] == a;
    var b := t1.articles[i];
    assert b.id == a.id by {
      assert b.(authorId := a.authorId) == a;
    }
    assert b in t1.articles && !IsAuthor(b, userId);
  }

  /** The article service: its writes change the store in place. */
  class ArticlesService {
    const db: Database

    constructor (db: Database)
      ensures this.db == db
    {
      this.db := db;
    }

    method Create(dto: CreateArticleDto, authorId: string, generatedId: string, now: nat) returns (r: Article)
      requires db.Valid() && FreshArticleId(db.State(), generatedId)
      modifies db
      ensures db.Valid()
      ensures (r, db.State()) == CreateStep(old(db.State()), dto, authorId, generatedId, now)
    {
      r := Article("", dto.title, dto.content, Some(authorId), now, now).GenerateId(generatedId);
      db.articles := db.articles + [r];
    }

    method Update(id: string, dto: UpdateArticleDto, userId: string, now: nat) returns (r: Result<Article>)
      requires db.Valid()
      modifies db
      ensures db.Valid()
      ensures (r, db.State()) == UpdateStep(old(db.State()), id, dto, userId, now)
    {
      var found := FindArticle(db.articles, id);
      if found.None? {
        return Err(ArticleNotFound(id));
      }
      var article := found.value;
      if article.authorId != Some(userId) {
        return Err(UpdateForbidden);
      }
      var updated := ApplyUpdate(article, dto, now);
      SaveArticleKeepsConstraints(db.State(), updated);
      db.articles := ReplaceByKey(db.articles, ArticleKey, updated);
      r := Ok(updated);
    }

    method Remove(id: string, userId: string) returns (r: Result<()>)
      requires db.Valid()
      modifies db
      ensures db.Valid()
      ensures (r, db.State()) == RemoveStep(old(db.State()), id, userId)
    {
      var found := FindArticle(db.articles, id);
      if found.None? {
        return Err(ArticleNotFound(id));
      }
      if found.value.authorId != Some(userId) {
        return Err(DeleteForbidden);
      }
      db.DeleteArticleRow(id);
      r := Ok(());
    }
  }
}
