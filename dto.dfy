/**
 * The request bodies and query objects the services receive, after the
 * validation pipe has checked them (see module `Validation`).
 */
module Dto {
  import opened Common

  /** Body of `POST /articles`. */
  datatype CreateArticleDto = CreateArticleDto(title: string, content: string)

  /** Body of `PATCH /articles/:id`: a field left out is not changed. */
  datatype UpdateArticleDto = UpdateArticleDto(title: Option<string>, content: Option<string>)

  /** Body of `POST /auth/register`. */
  datatype RegisterDto = RegisterDto(email: string, password: string, name: string)

  /** Body of `POST /comments`. */
  datatype CreateCommentDto = CreateCommentDto(content: string, articleId: string)

  /** Body of `PATCH /comments/:id`: only the content can change, never the article. */
  datatype UpdateCommentDto = UpdateCommentDto(content: Option<string>)

  /**
   * Query of `GET /articles`: `None` is a parameter the client did not
   * send; the class's own defaults are applied by `Validation`.
   */
  datatype SearchArticlesDto = SearchArticlesDto(
    query: Option<string>,
    page: Option<int>,
    limit: Option<int>,
    sortBy: Option<string>,
    sortOrder: Option<string>)
}
