/**
 * The record store the services share: the three tables as one value,
 * the constraints the schema declares on them, the lookups and `WHERE`
 * filters the services issue, and the foreign-key actions that run when
 * an article or a user row is deleted.
 */
module Store {
  import opened Common
  import opened Seqs
  import opened Entities

  /** The error every service raises for an article id with no row. */
  function ArticleNotFound(id: string): Failure {
    NotFound("Article with ID " + id + " not found")
  }

  /** The contents of the `articles`, `comments` and `likes` tables. */
  datatype Tables = Tables(articles: seq<Article>, comments: seq<Comment>, likes: seq<Like>)

  function ArticleIds(articles: seq<Article>): set<string> {
    set a | a in articles :: a.id
  }

  /**
   * The schema's constraints: primary keys are set and unique, at most one
   * like per (user, article) pair, and every like and every comment refers
   * to an existing article.
   */
  ghost predicate Consistent(t: Tables)
    ensures Consistent(t) ==> forall a <- t.articles, b <- t.articles :: a.id == b.id ==> a == b
    ensures Consistent(t) ==> forall l <- t.likes, m <- t.likes ::
      l.userId == m.userId && l.articleId == m.articleId ==> l == m
  {
    && DistinctBy(t.articles, ArticleKey)
    && DistinctBy(t.comments, CommentKey)
    && DistinctBy(t.likes, LikeKey)
    && DistinctBy(t.likes, LikePair)
    && (forall a <- t.articles :: a.id != "")
    && (forall c <- t.comments :: c.id != "")
    && (forall l <- t.likes :: l.id != "")
    && (forall l <- t.likes :: l.articleId in ArticleIds(t.articles))
    && (forall c <- t.comments :: c.articleId in ArticleIds(t.articles))
  }

  /** The empty store satisfies every constraint. */
  lemma EmptyIsConsistent()
    ensures Consistent(Tables([], [], []))
  {
  }

  /** `findOne({ where: { id } })` on articles. */
  function FindArticle(articles: seq<Article>, id: string): (r: Option<Article>)
    ensures r.Some? ==> r.value in articles && r.value.id == id
    ensures r.None? ==> forall a <- articles :: a.id != id
    ensures r.None? <==> id !in ArticleIds(articles)
  {
    if articles == [] then None
    else if articles[0].id == id then Some(articles[0])
    else FindArticle(articles[1..], id)
  }

  /** Inserting a row adds exactly its id to the article ids. */
  lemma ArticleIdsAppend(articles: seq<Article>, a: Article)
    ensures ArticleIds(articles + [a]) == ArticleIds(articles) + {a.id}
  {
    var r := articles + [a];
    forall x | x in ArticleIds(r)
      ensures x in ArticleIds(articles) + {a.id}
    {
      var b :| b in r && b.id == x;
    }
    forall x | x in ArticleIds(articles)
      ensures x in ArticleIds(r)
    {
      var b :| b in articles && b.id == x;
      assert b in r;
    }
  }

  /** Under the primary key, looking an article's id up finds that very row. */
  lemma FindArticleFindsRow(articles: seq<Article>, a: Article)
    requires DistinctBy(articles, ArticleKey) && a in articles
    ensures FindArticle(articles, a.id) == Some(a)
  {
    assert a.id in ArticleIds(articles);
    DistinctByUnique(articles, ArticleKey, FindArticle(articles, a.id).value, a);
  }

  /** Under the primary key, looking a comment's id up finds that very row. */
  lemma FindCommentFindsRow(comments: seq<Comment>, c: Comment)
    requires DistinctBy(comments, CommentKey) && c in comments
    ensures FindComment(comments, c.id) == Some(c)
  {
    DistinctByUnique(comments, CommentKey, FindComment(comments, c.id).value, c);
  }

  /** `findOne({ where: { id } })` on comments. */
  function FindComment(comments: seq<Comment>, id: string): (r: Option<Comment>)
    ensures r.Some? ==> r.value in comments && r.value.id == id
    ensures r.None? ==> forall c <- comments :: c.id != id
  {
    if comments == [] then None
    else if comments[0].id == id then Some(comments[0])
    else FindComment(comments[1..], id)
  }

  /** `findOne({ where: { articleId, userId } })` on likes. */
  function FindLike(likes: seq<Like>, articleId: string, userId: string): (r: Option<Like>)
    ensures r.Some? ==> r.value in likes && r.value.articleId == articleId && r.value.userId == userId
    ensures r.None? ==> forall l <- likes :: !(l.articleId == articleId && l.userId == userId)
  {
    if likes == [] then None
    else if likes[0].articleId == articleId && likes[0].userId == userId then Some(likes[0])
    else FindLike(likes[1..], articleId, userId)
  }

  // The `WHERE` filters of the services' listings and counts.

  function ArticlesBy(articles: seq<Article>, authorId: string): seq<Article> {
    Filter(articles, (a: Article) => a.authorId == Some(authorId))
  }

  function CommentsOn(comments: seq<Comment>, articleId: string): seq<Comment> {
    Filter(comments, (c: Comment) => c.articleId == articleId)
  }

  function CommentsBy(comments: seq<Comment>, authorId: string): seq<Comment> {
    Filter(comments, (c: Comment) => c.authorId == Some(authorId))
  }

  function LikesOn(likes: seq<Like>, articleId: string): seq<Like> {
    Filter(likes, (l: Like) => l.articleId == articleId)
  }

  function LikesBy(likes: seq<Like>, userId: string): seq<Like> {
    Filter(likes, (l: Like) => l.userId == userId)
  }

  /**
   * Deleting the article row `id`: its likes and its comments go with it
   * (`ON DELETE CASCADE` on both foreign keys); every other row stays.
   */
  function DeleteArticle(t: Tables, id: string): (r: Tables)
    requires Consistent(t)
    ensures Consistent(r)
    ensures id !in ArticleIds(r.articles)
    ensures forall a <- r.articles :: a in t.articles
    ensures forall a <- t.articles :: a.id != id ==> a in r.articles
    ensures forall l <- r.likes :: l in t.likes && l.articleId != id
    ensures forall l <- t.likes :: l.articleId != id ==> l in r.likes
    ensures forall c <- r.comments :: c in t.comments && c.articleId != id
    ensures forall c <- t.comments :: c.articleId != id ==> c in r.comments
  {
    var articles := WithoutKey(t.articles, ArticleKey, id);
    var comments := Filter(t.comments, (c: Comment) => c.articleId != id);
    var likes := Filter(t.likes, (l: Like) => l.articleId != id);
    WithoutKeyKeepsDistinct(t.articles, ArticleKey, id, ArticleKey);
    FilterKeepsDistinct(t.comments, (c: Comment) => c.articleId != id, CommentKey);
    FilterKeepsDistinct(t.likes, (l: Like) => l.articleId != id, LikeKey);
    FilterKeepsDistinct(t.likes, (l: Like) => l.articleId != id, LikePair);
    assert forall x :: x in ArticleIds(t.articles) && x != id ==> x in ArticleIds(articles) by {
      forall x | x in ArticleIds(t.articles) && x != id
        ensures x in ArticleIds(articles)
      {
        var a :| a in t.articles && a.id == x;
        assert a in articles;
      }
    }
    Tables(articles, comments, likes)
  }

  /**
   * Saving a changed article row: the row with the same id is replaced,
   * and since the ids do not change, every constraint still holds.
   */
  lemma SaveArticleKeepsConstraints(t: Tables, a: Article)
    requires Consistent(t) && a.id in ArticleIds(t.articles)
    ensures var articles := ReplaceByKey(t.articles, ArticleKey, a);
      && ArticleIds(articles) == ArticleIds(t.articles)
      && Consistent(t.(articles := articles))
  {
    var articles := ReplaceByKey(t.articles, ArticleKey, a);
    forall x | x in ArticleIds(t.articles)
      ensures x in ArticleIds(articles)
    {
      var i :| 0 <= i < |t.articles| && t.articles[i].id == x;
      assert ArticleKey(articles[i]) == ArticleKey(t.articles[i]);
    }
    forall b | b in articles
      ensures b.id in ArticleIds(t.articles) && b.id != ""
    {
      var i :| 0 <= i < |articles| && articles[i] == b;
      assert ArticleKey(articles[i]) == ArticleKey(t.articles[i]);
      assert t.articles[i] in t.articles;
    }
  }

  /**
   * Saving a changed comment row that keeps its id and its article: the
   * row with the same id is replaced and every constraint still holds.
   */
  lemma SaveCommentKeepsConstraints(t: Tables, c: Comment)
    requires Consistent(t) && c.id != "" && c.articleId in ArticleIds(t.articles)
    ensures Consistent(t.(comments := ReplaceByKey(t.comments, CommentKey, c)))
  {
    var comments := ReplaceByKey(t.comments, CommentKey, c);
    forall d | d in comments
      ensures d.id != "" && d.articleId in ArticleIds(t.articles)
    {
      var i :| 0 <= i < |comments| && comments[i] == d;
      assert t.comments[i] in t.comments;
    }
  }

  /** The article row with its author foreign key set to null when that author is `userId`. */
  function DetachArticle(a: Article, userId: string): Article {
    if a.authorId == Some(userId) then a.(authorId := None) else a
  }

  /** The comment row with its author foreign key set to null when that author is `userId`. */
  function DetachComment(c: Comment, userId: string): Comment {
    if c.authorId == Some(userId) then c.(authorId := None) else c
  }

  /** Every article row with the author `userId` set to null; the ids stay as they were. */
  function DetachArticles(articles: seq<Article>, userId: string): (r: seq<Article>)
    ensures |r| == |articles|
    ensures forall i :: 0 <= i < |articles| ==> r[i] == DetachArticle(articles[i], userId)
    ensures forall a <- r :: a.authorId != Some(userId)
    ensures ArticleIds(r) == ArticleIds(articles)
    ensures (forall a <- articles :: a.id != "") ==> forall a <- r :: a.id != ""
    ensures DistinctBy(articles, ArticleKey) ==> DistinctBy(r, ArticleKey)
  {
    var r := seq(|articles|, i requires 0 <= i < |articles| => DetachArticle(articles[i], userId));
    assert forall a <- r :: a.authorId != Some(userId) by {
      forall a | a in r
        ensures a.authorId != Some(userId)
      {
        var i :| 0 <= i < |r| && r[i] == a;
      }
    }
    assert forall x :: x in ArticleIds(articles) ==> x in ArticleIds(r) by {
      forall x | x in ArticleIds(articles)
        ensures x in ArticleIds(r)
      {
        var i :| 0 <= i < |articles| && articles[i].id == x;
        assert r[i].id == x;
      }
    }
    assert forall a <- r :: a.id in ArticleIds(articles) by {
      forall a | a in r
        ensures a.id in ArticleIds(articles)
      {
        var i :| 0 <= i < |r| && r[i] == a;
        assert articles[i] in articles;
      }
    }
    r
  }

  /** Every comment row with the author `userId` set to null; ids and articles stay as they were. */
  function DetachComments(comments: seq<Comment>, userId: string): (r: seq<Comment>)
    ensures |r| == |comments|
    ensures forall i :: 0 <= i < |comments| ==> r[i] == DetachComment(comments[i], userId)
    ensures forall c <- r :: c.authorId != Some(userId)
    ensures forall c <- r :: exists c0 <- comments :: c.id == c0.id && c.articleId == c0.articleId
    ensures DistinctBy(comments, CommentKey) ==> DistinctBy(r, CommentKey)
  {
    var r := seq(|comments|, i requires 0 <= i < |comments| => DetachComment(comments[i], userId));
    assert forall c <- r :: c.authorId != Some(userId) by {
      forall c | c in r
        ensures c.authorId != Some(userId)
      {
        var i :| 0 <= i < |r| && r[i] == c;
      }
    }
    assert forall c <- r :: exists c0 <- comments :: c.id == c0.id && c.articleId == c0.articleId by {
      forall c | c in r
        ensures exists c0 <- comments :: c.id == c0.id && c.articleId == c0.articleId
      {
        var i :| 0 <= i < |r| && r[i] == c;
        assert comments[i] in comments;
      }
    }
    r
  }

  /** The tables after the user row `userId` is deleted (see `DeleteUser`). */
  function UserDeletedTables(t: Tables, userId: string): Tables {
    Tables(DetachArticles(t.articles, userId), DetachComments(t.comments, userId),
           Filter(t.likes, (l: Like) => l.userId != userId))
  }

  lemma UserDeletedKeepsConstraints(t: Tables, userId: string)
    requires Consistent(t)
    ensures Consistent(UserDeletedTables(t, userId))
  {
    var r := UserDeletedTables(t, userId);
    FilterKeepsDistinct(t.likes, (l: Like) => l.userId != userId, LikeKey);
    FilterKeepsDistinct(t.likes, (l: Like) => l.userId != userId, LikePair);
    assert forall c <- r.comments :: c.id != "" && c.articleId in ArticleIds(r.articles) by {
      forall c | c in r.comments
        ensures c.id != "" && c.articleId in ArticleIds(r.articles)
      {
        var c0 :| c0 in t.comments && c.id == c0.id && c.articleId == c0.articleId;
      }
    }
  }

  /**
   * Deleting the user row `userId`: that user's likes go with it
   * (`ON DELETE CASCADE`), while that user's articles and comments survive
   * with their author set to null (`ON DELETE SET NULL`).
   */
  function DeleteUser(t: Tables, userId: string): (r: Tables)
    requires Consistent(t)
    ensures Consistent(r)
    ensures |r.articles| == |t.articles| && |r.comments| == |t.comments|
    ensures forall i :: 0 <= i < |t.articles| ==> r.articles[i].(authorId := t.articles[i].authorId) == t.articles[i]
    ensures forall i :: 0 <= i < |t.articles| && t.articles[i].authorId != Some(userId) ==> r.articles[i] == t.articles[i]
    ensures forall i :: 0 <= i < |t.articles| && t.articles[i].authorId == Some(userId) ==> r.articles[i].authorId.None?
    ensures forall a <- r.articles :: a.authorId != Some(userId)
    ensures forall i :: 0 <= i < |t.comments| ==> r.comments[i].(authorId := t.comments[i].authorId) == t.comments[i]
    ensures forall i :: 0 <= i < |t.comments| && t.comments[i].authorId != Some(userId) ==> r.comments[i] == t.comments[i]
    ensures forall i :: 0 <= i < |t.comments| && t.comments[i].authorId == Some(userId) ==> r.comments[i].authorId.None?
    ensures forall c <- r.comments :: c.authorId != Some(userId)
    ensures forall l <- r.likes :: l in t.likes && l.userId != userId
    ensures forall l <- t.likes :: l.userId != userId ==> l in r.likes
  {
    UserDeletedKeepsConstraints(t, userId);
    UserDeletedTables(t, userId)
  }

  /**
   * The database the services write to: one table per field. Rows are
   * kept in insertion order; every read states its own `ORDER BY`.
   */
  class Database {
    var articles: seq<Article>
    var comments: seq<Comment>
    var likes: seq<Like>

    constructor ()
      ensures Valid() && State() == Tables([], [], [])
    {
      articles, comments, likes := [], [], [];
      EmptyIsConsistent();
    }

    function State(): Tables
      reads this
    {
      Tables(articles, comments, likes)
    }

    ghost predicate Valid()
      reads this
    {
      Consistent(State())
    }

    /** Deletes an article row; the foreign keys declared on comments and likes take theirs with it. */
    method DeleteArticleRow(id: string)
      requires Valid()
      modifies this
      ensures Valid()
      ensures State() == DeleteArticle(old(State()), id)
    {
      var t := DeleteArticle(State(), id);
      articles, comments, likes := t.articles, t.comments, t.likes;
    }

    /** Deletes a user row and applies the foreign-key actions declared on the other tables. */
    method RemoveUser(userId: string)
      requires Valid()
      modifies this
      ensures Valid()
      ensures State() == DeleteUser(old(State()), userId)
    {
      var t := DeleteUser(State(), userId);
      articles, comments, likes := t.articles, t.comments, t.likes;
    }
  }
}
