/**
 * The rows of the `articles`, `comments` and `likes` tables. Identifiers
 * are opaque strings; `""` stands for an id not yet assigned. Timestamps
 * are the store's clock readings, as natural numbers.
 */
module Entities {
  import opened Common

  /**
   * The id every table's before-insert hook leaves on a row: the generated
   * one when none is set, otherwise the id already there.
   */
  function AssignedId(current: string, generated: string): (r: string)
    requires generated != ""
    ensures r != ""
    ensures current != "" ==> r == current
    ensures current == "" ==> r == generated
  {
    if current == "" then generated else current
  }

  /** An article. `authorId` is nullable: it becomes `None` when the author is deleted. */
  datatype Article = Article(
    id: string,
    title: string,
    content: string,
    authorId: Option<string>,
    createdAt: nat,
    updatedAt: nat)
  {
    /** The before-insert hook. */
    function GenerateId(generated: string): Article
      requires generated != ""
    {
      this.(id := AssignedId(id, generated))
    }
  }

  /** A comment. Its article is required; its author is nullable. */
  datatype Comment = Comment(
    id: string,
    content: string,
    articleId: string,
    authorId: Option<string>,
    createdAt: nat,
    updatedAt: nat)
  {
    /** The before-insert hook. */
    function GenerateId(generated: string): Comment
      requires generated != ""
    {
      this.(id := AssignedId(id, generated))
    }
  }

  /** One user's like of one article. */
  datatype Like = Like(id: string, userId: string, articleId: string, createdAt: nat)
  {
    /** The before-insert hook. */
    function GenerateId(generated: string): Like
      requires generated != ""
    {
      this.(id := AssignedId(id, generated))
    }
  }

  /** Running the hook again never replaces the id the first run assigned. */
  lemma GenerateIdKeepsFirstId(a: Article, c: Comment, l: Like, first: string, second: string)
    requires first != "" && second != ""
    ensures a.GenerateId(first).GenerateId(second) == a.GenerateId(first)
    ensures c.GenerateId(first).GenerateId(second) == c.GenerateId(first)
    ensures l.GenerateId(first).GenerateId(second) == l.GenerateId(first)
  {
  }

  // Keys and sort keys, as named functions so that every use refers to the same one.

  function ArticleKey(a: Article): string { a.id }
  function CommentKey(c: Comment): string { c.id }
  function LikeKey(l: Like): string { l.id }
  /** The columns of the unique constraint on likes. */
  function LikePair(l: Like): (string, string) { (l.userId, l.articleId) }

  function ArticleCreated(a: Article): int { a.createdAt }
  function CommentCreated(c: Comment): int { c.createdAt }
  function LikeCreated(l: Like): int { l.createdAt }
}
