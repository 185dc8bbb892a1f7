# Kapal Lawd articles API — a verified model of its core

This Dafny project models the core of the Kapal Lawd articles back end, a NestJS/TypeORM REST service. Users publish articles, comment on them and like them. The model covers:

- **Pagination** (`pagination.dfy`): the `page`/`limit` query, its defaults and bounds, the `skip = (page-1)*limit` window, and `PaginationMetaDto` (`totalPages`, `hasNext`, `hasPrev`).
- **Rows and store** (`entities.dfy`, `store.dfy`):
  - the `articles`, `comments` and `likes` rows and their `generateId` insert hook;
  - the database holding the three tables, and the constraints the schema declares: primary keys, the unique (user, article) like, and the foreign keys;
  - the actions on delete: cascading an article's delete to its comments and likes, cascading a user's delete to the user's likes, and setting the author to null on the user's articles and comments.
- **Services** (`likes.dfy`, `articles.dfy`, `comments.dfy`):
  - the like toggle and like statistics, and the article and comment services;
  - every read is a function of the store's contents;
  - every write is a method of a service class that changes the `Database` object in place. Its contract ties the returned value and the new tables to a transition function, and the lemmas are about those functions.
- **Response envelope and exception filter** (`api_response.dfy`, `exceptions_filter.dfy`): the `{status, message, data}` envelope, and how the global filter turns any thrown value into an HTTP status and a message.
- **Request validation** (`dto.dfy`, `validation.dfy`): the class-validator constraints on the request DTOs, the defaults of the search query, and the global pipe's rejection of undeclared properties.

Conventions of the model:

- Ids are strings, and `""` means "not yet assigned". The cuid generator is a parameter `generatedId`, which must be non-empty and unused.
- Timestamps are natural numbers. The clock is a parameter `now`.
- Calls run one at a time.
- Validated numbers are integers.

## Model

| member | source | states |
|---|---|---|
| Pagination.ValidQueryBounds | src/common/dto/pagination.dto.ts:11-28 | a valid query has page ≥ 1 and 1 ≤ limit ≤ 100; a page or limit not sent becomes 1 or 10, and one sent is used as is |
| Pagination.OrDefault | src/articles/articles.controller.ts:276-277 | JavaScript `x \|\| d`: the default when the value is absent; a non-zero value is kept |
| Pagination.OrDefaultAgreesOnValidQueries | src/articles/articles.controller.ts:275-279 | on a validated query, the controller's `page \|\| 1` and `limit \|\| 10` equal the page and limit the services use |
| Pagination.CeilDiv | src/common/dto/pagination.dto.ts:54 | integer ceiling: `r*d ≥ n`, `(r-1)*d < n`, and r = 0 exactly when n = 0 |
| Pagination.NewMeta | src/common/dto/pagination.dto.ts:50-57 | page, limit and total are stored as given; totalPages is the least page count that covers total; hasNext ⇔ page < totalPages; hasPrev ⇔ page > 1 |
| Pagination.TotalPagesIsCeiling | src/common/dto/pagination.dto.ts:54 | any count c with `c*limit ≥ total > (c-1)*limit` equals totalPages, so totalPages is exactly ⌈total/limit⌉ |
| Pagination.EmptyTotalHasNoPages | src/common/dto/pagination.dto.ts:54-55 | total 0 gives 0 pages and no next page for any page |
| Pagination.FiveItemsTenPerPage | src/common/dto/pagination.dto.ts:54-56 | 5 items at 10 per page: page 1 holds all five, with no next and no previous page; page 2 is empty, with no next page and a previous page |
| Pagination.PageSlice | src/articles/articles.service.ts:43-56 | the skip/take window: at most limit items; item i is item skip+i of the listing; empty once skip passes the end |
| Pagination.NewestFirstPage | src/articles/articles.service.ts:42-60 | a listing's page: metadata built from page, limit and the number of all rows; the data is exactly the skip/take window of the rows ordered newest first, so at most limit rows, all of them listed, newest first |
| Pagination.PageKeepsOrder | src/articles/articles.service.ts:54-56 | a page of an ordered listing is itself ordered |
| Pagination.PageItemsAreListed | src/articles/articles.service.ts:55-56 | every item on a page is one of the listed items |
| Pagination.EveryItemOnItsPage | src/articles/articles.service.ts:43 | no row is unreachable: row k is item k mod limit of page ⌊k/limit⌋+1 |
| Pagination.RowOnSomePage | src/articles/articles.service.ts:55-56 | whatever the limit, every item of a listing lies in the skip/take window of some page |
| Pagination.EveryRowIsListed | src/articles/articles.service.ts:42-60 | whatever the limit, every row appears on some page of its newest-first listing |
| Pagination.EmptyPageIffBeyondLast | src/articles/articles.service.ts:43-60 | a page is empty exactly when its number exceeds totalPages |
| Pagination.HasNextMeansFullPage | src/common/dto/pagination.dto.ts:55 | when hasNext holds, the page holds exactly limit items |
| Seqs.SortDesc | src/articles/articles.service.ts:54 | `ORDER BY createdAt DESC`: the result is a permutation of the rows and is ordered largest first |
| Entities.AssignedId | src/articles/entities/article.entity.ts:37-42 | the id the before-insert hook of every table (articles, comments at comment.entity.ts:35-40, likes at like.entity.ts:33-38) leaves: the generated id when none is set, else the preset id; never empty afterwards |
| Entities.GenerateIdKeepsFirstId | src/articles/entities/like.entity.ts:35-37 | running the hook a second time never replaces the first id |
| Store.Consistent | src/articles/entities/like.entity.ts:17 | the schema's constraints (primary keys, one like per user and article, foreign keys); under them two articles with one id are the same row, and two likes of one pair are the same like |
| Store.EmptyIsConsistent | src/articles/entities/article.entity.ts:19-20 | the empty store meets every constraint |
| Store.FindArticle | src/articles/likes.service.ts:23-25 | finds a row with that id, or reports that none exists |
| Store.FindComment | src/comments/comments.service.ts:134-148 | finds a row with that id, or reports that none exists |
| Store.FindLike | src/articles/likes.service.ts:32-34 | finds the pair's like, or reports that the pair has none |
| Store.FindArticleFindsRow | src/articles/entities/article.entity.ts:19-20 | under the primary key, looking up an article's id returns that very row |
| Store.FindCommentFindsRow | src/comments/entities/comment.entity.ts:19-20 | under the primary key, looking up a comment's id returns that very row |
| Store.DeleteArticle | src/comments/entities/comment.entity.ts:42-44 | deleting an article removes it, every comment on it and every like of it (both CASCADE rules), keeps every other row, and keeps all constraints |
| Store.DeleteUser | src/articles/entities/article.entity.ts:44 | deleting a user removes that user's likes (CASCADE); that user's articles and comments survive in place with the author set to null (SET NULL); nothing else changes; all constraints hold |
| Store.SaveArticleKeepsConstraints | src/articles/articles.service.ts:146-147 | saving a changed article over its own id keeps the set of ids and every constraint |
| Store.SaveCommentKeepsConstraints | src/comments/comments.service.ts:168-169 | saving a changed comment that keeps its id and its article keeps every constraint |
| Store.Database.DeleteArticleRow | src/articles/articles.service.ts:157 | the stored tables become those of the cascading delete |
| Store.Database.RemoveUser | src/articles/entities/like.entity.ts:40 | the stored tables become those of deleting the user, with the foreign-key actions applied |
| Likes.LikeStep | src/articles/likes.service.ts:21-47 | unknown article: NotFound, nothing changes; the pair already liked: Conflict, nothing changes; otherwise exactly one like (fresh id, that user and article, now) is appended and returned; constraints hold |
| Likes.InsertLikeKeepsConstraints | src/articles/entities/like.entity.ts:17 | inserting a like for a pair without one keeps the one-like-per-pair constraint and the keys |
| Likes.UnlikeStep | src/articles/likes.service.ts:49-69 | unknown article, or no like by that user: NotFound, nothing changes; otherwise the pair's like is gone, exactly one row fewer, every other like kept, articles and comments untouched |
| Likes.DeleteLikeKeepsConstraints | src/articles/likes.service.ts:60-68 | deleting a like by its id removes exactly one row, leaves the pair unliked and keeps every constraint |
| Likes.GetArticleLikeStats | src/articles/likes.service.ts:71-103 | NotFound for an unknown article; otherwise the count of likes on it, and only for a truthy user id, whether that user likes it |
| Likes.IsArticleLikedByUser | src/articles/likes.service.ts:139-147 | true exactly when the pair has a like; the article itself is not checked |
| Likes.ArticlesOfLikes | src/articles/likes.service.ts:135 | one existing article per like, in the likes' order, each the article its like points at |
| Likes.UserLikesPage | src/articles/likes.service.ts:109-133 | exactly the skip/take window of the user's likes ordered newest first: at most limit likes, all the user's own |
| Likes.GetUserLikedArticles | src/articles/likes.service.ts:105-137 | total is the number of the user's likes; the articles are, in order, the articles of that window of the user's likes, each liked by the user |
| Likes.LikedArticlesResponse | src/articles/articles.controller.ts:266-285 | the liked-articles page with metadata built from `page \|\| 1`, `limit \|\| 10` and the total, which on validated queries is the services' own metadata |
| Likes.LikeAddsOne | src/articles/likes.service.ts:41-46 | a successful like raises that article's count by one, leaves every other article's count alone, and the pair is then liked |
| Likes.LikeThenUnlikeRestores | src/articles/likes.service.ts:60-68 | like then unlike restores the exact prior store; a second unlike fails NotFound |
| Likes.LikeTwiceConflicts | src/articles/likes.service.ts:32-38 | liking twice: the second call fails Conflict and changes nothing |
| Likes.LikesService.LikeArticle | src/articles/likes.service.ts:21-47 | the returned value and the new tables are those of LikeStep; the store stays consistent |
| Likes.LikesService.UnlikeArticle | src/articles/likes.service.ts:49-69 | the returned value and the new tables are those of UnlikeStep; the store stays consistent |
| Articles.CreateStep | src/articles/articles.service.ts:27-37 | one new article is appended with the generated id, the body's title and content, the caller as author and both timestamps now |
| Articles.FindAll | src/articles/articles.service.ts:39-61 | metadata over every article; the data is exactly the skip/take window of all articles ordered newest first (at most limit, newest first) |
| Articles.SearchParametersIgnored | src/articles/articles.service.ts:42-54 | the listing route answers the same for any search text, sort field and sort order, always newest first, counting every article |
| Articles.FindByAuthor | src/articles/articles.service.ts:109-133 | metadata over that author's articles only; the data is exactly the skip/take window of those articles ordered newest first |
| Articles.FindOne | src/articles/articles.service.ts:63-107 | NotFound ⇔ unknown id; otherwise the article, exactly the comments on it, its like count, and only for a truthy user id whether that user likes it |
| Articles.ApplyUpdate | src/articles/articles.service.ts:146-147 | only the fields the body carries are overwritten; id, author and createdAt stay; updatedAt moves to now exactly when a column changed |
| Articles.UpdateStep | src/articles/articles.service.ts:135-148 | NotFound for an unknown id and Forbidden unless the caller is the author, both leaving the store as it was; otherwise the updated row replaces that one row |
| Articles.RemoveStep | src/articles/articles.service.ts:150-158 | NotFound for an unknown id and Forbidden unless the caller is the author, both leaving the store as it was; otherwise the cascading delete of that article |
| Articles.CreatedArticleIsFound | src/articles/articles.service.ts:27-37 | a new article is found by its id, with no comments and no likes |
| Articles.CreateCountsForItsAuthor | src/articles/articles.service.ts:27-37 | a new article adds one to its author's listing total and nothing to any other author's |
| Articles.UpdateThenFindOne | src/articles/articles.service.ts:135-148 | after a successful update, reading the article back gives the saved row |
| Articles.RemoveCascades | src/articles/articles.service.ts:150-158 | after a successful delete, the id is NotFound, no comment and no like refers to it, and exactly one article is gone |
| Articles.OrphanedArticleIsFrozen | src/articles/articles.service.ts:142-154 | once its author is deleted, no caller can update or delete the article, and the store stays as it was |
| Articles.ArticlesService.Create | src/articles/articles.service.ts:27-37 | the returned article and the new tables are those of CreateStep |
| Articles.ArticlesService.Update | src/articles/articles.service.ts:135-148 | the returned value and the new tables are those of UpdateStep |
| Articles.ArticlesService.Remove | src/articles/articles.service.ts:150-158 | the returned value and the new tables are those of RemoveStep |
| Articles.FindAllSearch | src/articles/articles.controller.ts:106-108 | the listing route answers the skip/take window of all articles newest first, with metadata over all of them, whatever search text and sort it is sent |
| Comments.CreateStep | src/comments/comments.service.ts:27-48 | unknown article: NotFound and nothing stored; otherwise one comment with the body's content and article and the caller as author is appended |
| Comments.FindAll | src/comments/comments.service.ts:50-75 | metadata over every comment; the data is exactly the skip/take window of all comments ordered newest first |
| Comments.FindByArticle | src/comments/comments.service.ts:77-101 | metadata over the comments on that article; the data is exactly the skip/take window of those comments ordered newest first |
| Comments.FindByAuthor | src/comments/comments.service.ts:103-131 | metadata over that author's comments; the data is exactly the skip/take window of those comments ordered newest first |
| Comments.FindOne | src/comments/comments.service.ts:133-155 | the comment with that id, or NotFound "Comment with ID … not found" when there is none |
| Comments.ApplyUpdate | src/comments/comments.service.ts:168-169 | new content only when the body carries some; the article and the author never change; updatedAt moves only on a change |
| Comments.UpdateStep | src/comments/comments.service.ts:157-170 | NotFound for an unknown id and Forbidden unless the caller is the author, both leaving the store as it was; otherwise the updated row replaces that one row |
| Comments.RemoveStep | src/comments/comments.service.ts:172-180 | NotFound for an unknown id and Forbidden unless the caller is the author, both leaving the store as it was; otherwise exactly that comment row is deleted |
| Comments.CountByArticle | src/comments/comments.service.ts:182-184 | at most the number of comments, and zero exactly when no comment is on that article |
| Comments.CountByAuthor | src/comments/comments.service.ts:186-188 | at most the number of comments, and zero exactly when the user wrote none |
| Comments.CountsMatchListings | src/comments/comments.service.ts:182-188 | countByArticle and countByAuthor equal the totals the matching listings report |
| Comments.UnknownArticleHasNoComments | src/comments/comments.service.ts:77-101 | an unknown article gives an empty page with total 0, not an error |
| Comments.CreateCounts | src/comments/comments.service.ts:42-47 | a new comment adds one to its article's count and to its author's count, and nothing to any other |
| Comments.CreatedCommentIsFound | src/comments/comments.service.ts:42-47 | a new comment is found by its id |
| Comments.UpdateThenFindOne | src/comments/comments.service.ts:157-170 | after a successful update, reading the comment back gives the saved row, still on the same article and by the caller |
| Comments.RemoveDeletesOne | src/comments/comments.service.ts:172-180 | after a successful delete, the id is NotFound, exactly one row is gone and every other comment remains |
| Comments.CommentsService.Create | src/comments/comments.service.ts:27-48 | the returned value and the new tables are those of CreateStep |
| Comments.CommentsService.Update | src/comments/comments.service.ts:157-170 | the returned value and the new tables are those of UpdateStep |
| Comments.CommentsService.Remove | src/comments/comments.service.ts:172-180 | the returned value and the new tables are those of RemoveStep |
| ApiResponse.Status.Text | src/common/dto/api-response.dto.ts:4 | the status is written "ok" or "error", and "ok" exactly for success |
| ApiResponse.New | src/common/dto/api-response.dto.ts:8-16 | status, message and data are stored as given; data defaults to null |
| ApiResponse.Success | src/common/dto/api-response.dto.ts:18-23 | status "ok", the given data, and the message, which defaults to "Success" |
| ApiResponse.Error | src/common/dto/api-response.dto.ts:25-30 | status "error" and the message; data defaults to null |
| ApiResponse.SuccessIsNeverError | src/common/dto/api-response.dto.ts:18-30 | the two kinds of envelope never coincide and differ in their status word |
| ExceptionsFilter.MessageOf | src/common/filters/all-exceptions.filter.ts:24-41 | a string response is the message; a list of messages is joined with ", " (even an empty list); a non-empty text message wins over `error`; `error` is used when the message is absent or empty; when the message is absent or empty and `error` is absent or empty, "An error occurred" |
| ExceptionsFilter.Catch | src/common/filters/all-exceptions.filter.ts:13-57 | an HTTP exception keeps its status and its response's message; any other exception gives 500 "Internal server error"; the body is always an error envelope with null data |
| ExceptionsFilter.FromFailure | src/comments/comments.service.ts:150-152 | each service failure is thrown as an HTTP exception with status 404, 409 or 403 |
| ExceptionsFilter.FailureReply | src/common/filters/all-exceptions.filter.ts:20-34 | a service failure reaches the client with 404 ⇔ NotFound, 409 ⇔ Conflict, 403 ⇔ Forbidden, and its own message word for word |
| ExceptionsFilter.ValidationReply | src/common/filters/all-exceptions.filter.ts:37-39 | a rejected body gives 400 and its messages joined by ", " in order; one more message appends ", " and that message |
| ExceptionsFilter.JoinSnoc | src/common/filters/all-exceptions.filter.ts:38 | joining one more part appends the separator and the part |
| ExceptionsFilter.JoinLength | src/common/filters/all-exceptions.filter.ts:38 | the joined text holds every part and one separator between each two |
| ExceptionsFilter.JoinEmptyIff | src/common/filters/all-exceptions.filter.ts:38 | with a non-empty separator, the joined text is empty only for no parts or one empty part |
| ExceptionsFilter.EmptyMessageOnlyFromEmptyInput | src/common/filters/all-exceptions.filter.ts:24-41 | an empty message comes only from an empty string body or from an empty (or single empty) message list; the fallback covers every other gap |
| Validation.TextLength | src/comments/dto/create-comment.dto.ts:13-14 | the length `@MinLength`/`@MaxLength` measure: at most the number of characters, equal to it when no variation selector occurs, and zero only for text made of variation selectors |
| Validation.ValidCreateArticle | src/articles/dto/create-article.dto.ts:10-21 | a body that passes has exactly the two declared properties, title and content |
| Validation.ParseCreateArticle | src/articles/dto/create-article.dto.ts:10-21 | a body is accepted ⇔ it has exactly a non-empty string title and content and nothing else; the DTO holds those strings |
| Validation.CreateArticleRoundTrip | src/articles/dto/create-article.dto.ts:10-21 | a client body for a DTO is accepted exactly when title and content are non-empty, and then parses back to that DTO |
| Validation.ValidCreateComment | src/comments/dto/create-comment.dto.ts:11-23 | a body that passes has exactly the two declared properties, content and articleId |
| Validation.ParseCreateComment | src/comments/dto/create-comment.dto.ts:11-23 | accepted ⇔ content is a string of 1..1000 characters, articleId a non-empty string, and nothing else is sent |
| Validation.CreateCommentRoundTrip | src/comments/dto/create-comment.dto.ts:11-23 | a client body for a DTO is accepted exactly when 1 ≤ |content| ≤ 1000 and articleId ≠ "", and then parses back to that DTO |
| Validation.CommentLengthEdges | src/comments/dto/create-comment.dto.ts:13-14 | a one-character comment passes; a 1001-character one does not |
| Validation.ValidUpdateComment | src/comments/dto/update-comment.dto.ts:4-8 | the declared constraints: a body that passes is empty, or holds only content, which is null or a string |
| Validation.NullContentPassesUpdateValidation | src/comments/dto/update-comment.dto.ts:4-8 | the declared constraints accept `{"content": null}`, whose content is not a string |
| Validation.NonNullIsDeclaredMinusNull | src/comments/dto/update-comment.dto.ts:4-8 | the corrected constraints accept exactly what the declared ones accept, minus a null content |
| Validation.ParseUpdateComment | src/comments/dto/update-comment.dto.ts:3-12 | accepted ⇔ content absent or a string of 1..1000 characters, and no other property; the DTO holds that content |
| Validation.UpdateCommentRoundTrip | src/comments/dto/update-comment.dto.ts:3-12 | an update with no content, or with 1..1000 characters, is accepted and parses back to itself; any other is rejected |
| Validation.UpdateCannotMoveComment | src/main.ts:20-21 | a body naming an article is rejected, so an update cannot move a comment |
| Validation.FirstLine | src/auth/dto/register.dto.ts:32 | the prefix before the first line terminator: it contains no terminator and is followed by one or by the end |
| Validation.FirstLineOfOneLine | src/auth/dto/register.dto.ts:32 | text without line terminators is its own first line |
| Validation.FirstLineStopsAtBreak | src/auth/dto/register.dto.ts:32 | the first line ends at the first line terminator |
| Validation.PasswordPatternOnOneLine | src/auth/dto/register.dto.ts:32-35 | on one line, the pattern holds ⇔ a lower-case letter, an upper-case letter and a digit all occur |
| Validation.ExamplePasswordPasses | src/auth/dto/register.dto.ts:23 | the documented example "Password123" matches the pattern |
| Validation.CapitalAfterLineBreakFails | src/auth/dto/register.dto.ts:32 | a password whose capital and digit come only after a line break does not match |
| Validation.ValidRegister | src/auth/dto/register.dto.ts:17-48 | a body that passes has exactly the three declared properties, email, password and name |
| Validation.ParseRegister | src/auth/dto/register.dto.ts:17-48 | accepted ⇔ email, password and name are strings that obey their rules and nothing else is sent; the DTO's email is non-empty and an email, its password has 6..50 characters and matches the pattern, its name has 2..100 |
| Validation.RegisterRoundTrip | src/auth/dto/register.dto.ts:17-48 | a client body for a DTO is accepted exactly when its fields obey the rules, and then parses back to it |
| Validation.ValidSearch | src/articles/dto/search-articles.dto.ts:18-45 | a query that passes can be paged: page ≥ 1 and 1 ≤ limit ≤ 100 |
| Validation.WithDefaults | src/articles/dto/search-articles.dto.ts:27-63 | page 1, limit 10, sortBy "createdAt" and sortOrder "DESC" fill in what was not sent; a sent value and the search text are kept |
| Validation.DefaultsAgree | src/articles/dto/search-articles.dto.ts:27-45 | the defaults keep a valid query valid and page exactly as the services' own defaults do |
| Validation.AnySortPasses | src/articles/dto/search-articles.dto.ts:52-63 | any sort field and any sort order pass validation |
| Validation.SearchBounds | src/articles/dto/search-articles.dto.ts:18-45 | a search text of 0 or 1 characters, a limit of 101 and a page of 0 are all rejected |

## Left out

- Concurrency: calls are modelled one at a time. Two concurrent likes of one pair both pass the pre-check, and the unique constraint then rejects the second insert. No code turns that database error into a Conflict, so this is not modelled.
- Search, sort selection and the `commentsCount` field of the response DTO: the code implements none of them. The model shows the listing ignores the search parameters.
- The users table, password hashing, JWT authentication and the auth, users and app controllers. The caller's id is a parameter. The user rows behind the `userId`/`authorId` foreign keys are not part of this model; only a user's deletion and its foreign-key actions are (`Store.DeleteUser`).
- Relation loading and column projections: the author's `id`/`name`/`email` and the article's `id`/`title` joined into listings. The model returns whole rows.
- Articles.UpdateStep: the object `save` returns also carries the `likesCount` and `comments` that the preceding `findOne` attached. The model returns the saved row only.
- Articles.FindOne: the comments relation comes back in the store's own order. The model gives them in table order and states only which comments they are.
- Pagination.NewestFirstPage: rows with equal `createdAt` come back in an order SQL leaves open. The model's stable sort picks one such order and uses it for every page.
- Pagination.EveryRowIsListed: holds for the model's single order only. Each page is a separate `ORDER BY createdAt DESC` query with its own offset and limit, and with tied `createdAt` values the database may order the ties differently from one query to the next, so a row can be skipped or repeated across pages.
- Validation.ParseRegister: `IsEmail` is the validator library's own check and is a parameter here.
- Validation.TextLength: strings are sequences of Unicode scalar values, so a JSON string holding an unpaired surrogate is not modelled. Lengths follow the library's `isLength`: a character outside the Basic Multilingual Plane counts once, and U+FE0E/U+FE0F do not count. This applies to Validation.ParseCreateArticle, Validation.ParseCreateComment, Validation.ParseUpdateComment and Validation.ParseRegister.
- Non-integer and non-numeric `page`/`limit` values (for example `1.5`, or `NaN` from a malformed query string), and floating-point `Math.ceil`: validated numbers are integers here.
- The service methods assume a validated query (page ≥ 1, limit ≥ 1). With page 0 the `skip` would be negative; the validation pipe rejects that before any service runs.
- Query-string parsing and the whitelist on query parameters: the search and pagination queries are typed values, and only JSON bodies are checked for undeclared properties.
- The update-article body's DTO file is not part of this model. Its body is modelled as optional title and content, with no constraints.
- The JSON bodies of `like-article.dto.ts` and `login.dto.ts`, the Swagger decorators, logging in the exception filter, and writing the HTTP response.
- ExceptionsFilter.Catch: a `message` or `error` property that is neither a string nor a list of strings (a number, say) is not modelled. The shape of the built-in exceptions' response object (`statusCode`, `message`, `error`) is the framework's.
- The cuid generator is a fresh-id parameter, and the clock is a `now` parameter.

## Findings

| source | as written | input that shows it | evidently intended | confidence | as-written member | corrected member |
|---|---|---|---|---|---|---|
| src/comments/dto/update-comment.dto.ts:4-8 | `@IsOptional()` skips the other constraints for `null`, so `content: null` is accepted. The service then assigns `null` to the non-nullable `content` column, and the database rejects the save, which the client sees as 500 | `PATCH /comments/:id` with body `{"content": null}` | content left out, or a string of 1..1000 characters; `null` rejected with 400 | not executed; medium | Validation.NullContentPassesUpdateValidation | Validation.ParseUpdateComment |
