/**
 * The reaction toggle: liking and unliking an article, the per-article
 * like statistics, the articles one user liked, and the "is liked" check.
 * Calls are modelled one at a time.
 */
module Likes {
  import opened Common
  import opened Seqs
  import opened Entities
  import opened Store
  import opened Pagination

  const AlreadyLiked: Failure := Conflict("Article already liked by user")
  const LikeNotFound: Failure := NotFound("Like not found")

  /** The user has a like on the article. */
  ghost predicate Liked(likes: seq<Like>, articleId: string, userId: string) {
    exists l <- likes :: l.articleId == articleId && l.userId == userId
  }

  /** A like id the id generator may hand out: set, and not yet used. */
  ghost predicate FreshLikeId(t: Tables, generatedId: string) {
    generatedId != "" && forall l <- t.likes :: l.id != generatedId
  }

  /**
   * `likeArticle`: fails NotFound for an unknown article and Conflict when
   * the user already likes it, leaving the store as it was; otherwise
   * inserts exactly one like for the pair and returns it.
   */
  function LikeStep(t: Tables, articleId: string, userId: string, generatedId: string, now: nat)
    : (out: (Result<Like>, Tables))
    requires Consistent(t) && FreshLikeId(t, generatedId)
    ensures Consistent(out.1)
    ensures articleId !in ArticleIds(t.articles) ==> out == (Err(ArticleNotFound(articleId)), t)
    ensures articleId in ArticleIds(t.articles) && Liked(t.likes, articleId, userId) ==>
      out == (Err(AlreadyLiked), t)
    ensures articleId in ArticleIds(t.articles) && !Liked(t.likes, articleId, userId) ==>
      && out.0 == Ok(Like(generatedId, userId, articleId, now))
      && out.1 == t.(likes := t.likes + [out.0.value])
  {
    if FindArticle(t.articles, articleId).None? then
      (Err(ArticleNotFound(articleId)), t)
    else if FindLike(t.likes, articleId, userId).Some? then
      (Err(AlreadyLiked), t)
    else
      var like := Like("", userId, articleId, now).GenerateId(generatedId);
      InsertLikeKeepsConstraints(t, like);
      (Ok(like), t.(likes := t.likes + [like]))
  }

  lemma InsertLikeKeepsConstraints(t: Tables, like: Like)
    requires Consistent(t) && FreshLikeId(t, like.id)
    requires like.articleId in ArticleIds(t.articles) && !Liked(t.likes, like.articleId, like.userId)
    ensures Consistent(t.(likes := t.likes + [like]))
  {
    AppendKeepsDistinct(t.likes, like, LikeKey);
    AppendKeepsDistinct(t.likes, like, LikePair);
  }

  /**
   * `unlikeArticle`: fails NotFound for an unknown article or when the user
   * has no like on it, leaving the store as it was; otherwise deletes that
   * one like and nothing else.
   */
  function UnlikeStep(t: Tables, articleId: string, userId: string): (out: (Result<()>, Tables))
    requires Consistent(t)
    ensures Consistent(out.1)
    ensures articleId !in ArticleIds(t.articles) ==> out == (Err(ArticleNotFound(articleId)), t)
    ensures articleId in ArticleIds(t.articles) && !Liked(t.likes, articleId, userId) ==>
      out == (Err(LikeNotFound), t)
    ensures articleId in ArticleIds(t.articles) && Liked(t.likes, articleId, userId) ==>
      && out.0 == Ok(())
      && out.1.articles == t.articles && out.1.comments == t.comments
      && |out.1.likes| == |t.likes| - 1
      && !Liked(out.1.likes, articleId, userId)
      && (forall l <- out.1.likes :: l in t.likes)
      && (forall l <- t.likes :: !(l.articleId == articleId && l.userId == userId) ==> l in out.1.likes)
  {
    if FindArticle(t.articles, articleId).None? then
      (Err(ArticleNotFound(articleId)), t)
    else
      var found := FindLike(t.likes, articleId, userId);
      if found.None? then
        (Err(LikeNotFound), t)
      else
        DeleteLikeKeepsConstraints(t, found.value);
        (Ok(()), t.(likes := WithoutKey(t.likes, LikeKey, found.value.id)))
  }

  /** Deleting one like by its id removes that row only, and with it the pair's like. */
  lemma DeleteLikeKeepsConstraints(t: Tables, like: Like)
    requires Consistent(t) && like in t.likes
    ensures var likes := WithoutKey(t.likes, LikeKey, like.id);
      && Consistent(t.(likes := likes))
      && |likes| == |t.likes| - 1
      && !Liked(likes, like.articleId, like.userId)
  {
    var likes := WithoutKey(t.likes, LikeKey, like.id);
    WithoutKeyKeepsDistinct(t.likes, LikeKey, like.id, LikeKey);
    WithoutKeyKeepsDistinct(t.likes, LikeKey, like.id, LikePair);
    WithoutKeyRemovesOne(t.likes, LikeKey, like);
    forall l | l in t.likes && l.articleId == like.articleId && l.userId == like.userId
      ensures l !in likes
    {
      DistinctByUnique(t.likes, LikePair, l, like);
    }
  }

  /** The body of `getArticleLikeStats`. */
  datatype LikeStats = LikeStats(articleId: string, likesCount: nat, isLikedByUser: Option<bool>)

  /**
   * `getArticleLikeStats`: NotFound for an unknown article; otherwise the
   * number of likes on it and, only when a user id is given (truthy),
   * whether that user likes it.
   */
  function GetArticleLikeStats(t: Tables, articleId: string, userId: Option<string>): (r: Result<LikeStats>)
    ensures r.Err? <==> articleId !in ArticleIds(t.articles)
    ensures r.Err? ==> r.failure == ArticleNotFound(articleId)
    ensures r.Ok? ==> r.value.articleId == articleId && r.value.likesCount == |LikesOn(t.likes, articleId)|
    ensures r.Ok? ==> (r.value.isLikedByUser.Some? <==> Truthy(userId))
    ensures r.Ok? && Truthy(userId) ==>
      (r.value.isLikedByUser.value <==> Liked(t.likes, articleId, userId.value))
  {
    if FindArticle(t.articles, articleId).None? then
      Err(ArticleNotFound(articleId))
    else
      var isLiked := if Truthy(userId) then Some(FindLike(t.likes, articleId, userId.value).Some?) else None;
      Ok(LikeStats(articleId, |LikesOn(t.likes, articleId)|, isLiked))
  }

  /** `isArticleLikedByUser`: whether the pair has a like; the article itself is not looked up. */
  function IsArticleLikedByUser(t: Tables, articleId: string, userId: string): (r: bool)
    ensures r <==> Liked(t.likes, articleId, userId)
  {
    FindLike(t.likes, articleId, userId).Some?
  }

  /** The articles the likes point at, in the likes' order. */
  function ArticlesOfLikes(articles: seq<Article>, likes: seq<Like>): (r: seq<Article>)
    requires forall l <- likes :: l.articleId in ArticleIds(articles)
    ensures |r| == |likes|
    ensures forall i :: 0 <= i < |r| ==> r[i] in articles && r[i].id == likes[i].articleId
  {
    if likes == [] then []
    else
      assert likes[0] in likes;
      [FindArticle(articles, likes[0].articleId).value] + ArticlesOfLikes(articles, likes[1..])
  }

  /** The user's likes on the requested page, newest like first. */
  function UserLikesPage(t: Tables, userId: string, q: PageQuery): (r: seq<Like>)
    requires Pageable(q)
    ensures r == PageSlice(SortDesc(LikesBy(t.likes, userId), LikeCreated), PageOf(q), LimitOf(q))
    ensures |r| <= LimitOf(q)
    ensures forall l <- r :: l in t.likes && l.userId == userId
    ensures SortedDesc(r, LikeCreated)
  {
    NewestFirstPage(LikesBy(t.likes, userId), LikeCreated, q).data
  }

  /** The result of `getUserLikedArticles`. */
  datatype LikedArticles = LikedArticles(articles: seq<Article>, total: nat)

  /**
   * `getUserLikedArticles`: the total number of the user's likes, and for
   * the requested page of those likes (newest first) the article each
   * one points at.
   */
  function GetUserLikedArticles(t: Tables, userId: string, q: PageQuery): (r: LikedArticles)
    requires Consistent(t) && Pageable(q)
    ensures r.total == |LikesBy(t.likes, userId)|
    ensures |r.articles| == |UserLikesPage(t, userId, q)| <= LimitOf(q)
    ensures forall i :: 0 <= i < |r.articles| ==>
      r.articles[i] in t.articles && r.articles[i].id == UserLikesPage(t, userId, q)[i].articleId
    ensures forall a <- r.articles :: Liked(t.likes, a.id, userId)
  {
    var page := UserLikesPage(t, userId, q);
    var articles := ArticlesOfLikes(t.articles, page);
    assert forall a <- articles :: Liked(t.likes, a.id, userId) by {
      forall a | a in articles
        ensures Liked(t.likes, a.id, userId)
      {
        var i :| 0 <= i < |articles| && articles[i] == a;
        assert page[i] in page;
      }
    }
    LikedArticles(articles, |LikesBy(t.likes, userId)|)
  }

  /**
   * The liked-articles route's response: the page of articles with
   * metadata built from `page || 1`, `limit || 10` and the total.
   */
  function LikedArticlesResponse(t: Tables, userId: string, q: PageQuery): (r: PaginatedResponse<Article>)
    requires Consistent(t) && ValidPageQuery(q)
    ensures r.data == GetUserLikedArticles(t, userId, q).articles
    ensures r.meta == NewMeta(PageOf(q), LimitOf(q), |LikesBy(t.likes, userId)|)
  {
    ValidQueryBounds(q);
    OrDefaultAgreesOnValidQueries(q);
    var liked := GetUserLikedArticles(t, userId, q);
    PaginatedResponse(liked.articles, NewMeta(OrDefault(q.page, DefaultPage), OrDefault(q.limit, DefaultLimit), liked.total))
  }

  /** A successful like raises that article's like count by one and no other article's. */
  lemma {:induction false} LikeAddsOne(t: Tables, articleId: string, userId: string, generatedId: string, now: nat, other: string)
    requires Consistent(t) && FreshLikeId(t, generatedId)
    requires LikeStep(t, articleId, userId, generatedId, now).0.Ok?
    ensures var t1 := LikeStep(t, articleId, userId, generatedId, now).1;
      && |LikesOn(t1.likes, articleId)| == |LikesOn(t.likes, articleId)| + 1
      && (other != articleId ==> |LikesOn(t1.likes, other)| == |LikesOn(t.likes, other)|)
      && IsArticleLikedByUser(t1, articleId, userId)
  {
    var like := LikeStep(t, articleId, userId, generatedId, now).0.value;
    FilterConcat(t.likes, [like], (l: Like) => l.articleId == articleId);
    FilterConcat(t.likes, [like], (l: Like) => l.articleId == other);
    assert like in t.likes + [like];
  }

  /**
   * Liking and then unliking restores the likes exactly, and a second
   * unlike fails NotFound.
   */
  lemma {:induction false} LikeThenUnlikeRestores(t: Tables, articleId: string, userId: string, generatedId: string, now: nat)
    requires Consistent(t) && FreshLikeId(t, generatedId)
    requires LikeStep(t, articleId, userId, generatedId, now).0.Ok?
    ensures var t1 := LikeStep(t, articleId, userId, generatedId, now).1;
      && UnlikeStep(t1, articleId, userId) == (Ok(()), t)
      && UnlikeStep(UnlikeStep(t1, articleId, userId).1, articleId, userId) == (Err(LikeNotFound), t)
  {
    var like := Like(generatedId, userId, articleId, now);
    var t1 := t.(likes := t.likes + [like]);
    assert articleId in ArticleIds(t.articles);
    assert !Liked(t.likes, articleId, userId);
    assert LikeStep(t, articleId, userId, generatedId, now) == (Ok(like), t1);
    assert Consistent(t1);
    assert FindArticle(t1.articles, articleId).Some?;
    assert FindLike(t1.likes, articleId, userId) == Some(like) by {
      var found := FindLike(t1.likes, articleId, userId);
      assert like in t1.likes;
    }
    assert WithoutKey(t1.likes, LikeKey, like.id) == t.likes by {
      WithoutKeyUndoesAppend(t.likes, like, LikeKey);
    }
    assert UnlikeStep(t1, articleId, userId) == (Ok(()), t);
    assert UnlikeStep(t, articleId, userId) == (Err(LikeNotFound), t);
  }

  /** Liking twice in a row: the second call fails Conflict and changes nothing. */
  lemma LikeTwiceConflicts(t: Tables, articleId: string, userId: string, id1: string, id2: string, now: nat)
    requires Consistent(t) && FreshLikeId(t, id1)
    requires LikeStep(t, articleId, userId, id1, now).0.Ok?
    requires FreshLikeId(LikeStep(t, articleId, userId, id1, now).1, id2)
    ensures var t1 := LikeStep(t, articleId, userId, id1, now).1;
      LikeStep(t1, articleId, userId, id2, now) == (Err(AlreadyLiked), t1)
  {
    var (r, t1) := LikeStep(t, articleId, userId, id1, now);
    assert r.value in t1.likes;
  }

  /** The like service: its two writes change the likes table in place. */
  class LikesService {
    const db: Database

    constructor (db: Database)
      ensures this.db == db
    {
      this.db := db;
    }

    method LikeArticle(articleId: string, userId: string, generatedId: string, now: nat) returns (r: Result<Like>)
      requires db.Valid() && FreshLikeId(db.State(), generatedId)
      modifies db
      ensures db.Valid()
      ensures (r, db.State()) == LikeStep(old(db.State()), articleId, userId, generatedId, now)
    {
      var article := FindArticle(db.articles, articleId);
      if article.None? {
        return Err(ArticleNotFound(articleId));
      }
      var existing := FindLike(db.likes, articleId, userId);
      if existing.Some? {
        return Err(AlreadyLiked);
      }
      var like := Like("", userId, articleId, now).GenerateId(generatedId);
      db.likes := db.likes + [like];
      r := Ok(like);
    }

    method UnlikeArticle(articleId: string, userId: string) returns (r: Result<()>)
      requires db.Valid()
      modifies db
      ensures db.Valid()
      ensures (r, db.State()) == UnlikeStep(old(db.State()), articleId, userId)
    {
      var article := FindArticle(db.articles, articleId);
      if article.None? {
        return Err(ArticleNotFound(articleId));
      }
      var like := FindLike(db.likes, articleId, userId);
      if like.None? {
        return Err(LikeNotFound);
      }
      DeleteLikeKeepsConstraints(db.State(), like.value);
      db.likes := WithoutKey(db.likes, LikeKey, like.value.id);
      r := Ok(());
    }
  }
}
