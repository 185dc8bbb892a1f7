/**
 * The constraints the request DTOs declare and the global validation pipe
 * enforces: every property's checks, the optional properties and their
 * defaults, and the rejection of properties a DTO does not declare. A
 * body that passes is turned into its DTO.
 */
module Validation {
  import opened Common
  import opened Pagination
  import opened Dto

  /** A JSON value as it arrives in a request body. */
  datatype Value = Null | Text(text: string) | Number(number: int) | Other

  /** A JSON object body; a key that is not there is `undefined`. */
  type Body = map<string, Value>

  function Field(body: Body, key: string): Option<Value> {
    if key in body then Some(body[key]) else None
  }

  // The constraints of the validator library, on one property's value.

  predicate IsString(v: Option<Value>) {
    v.Some? && v.value.Text?
  }

  /** `@IsNotEmpty`: not `""`, not `null`, not `undefined`. */
  predicate IsNotEmpty(v: Option<Value>) {
    v.Some? && v.value != Null && v.value != Text("")
  }

  /** U+FE0E and U+FE0F, the variation selectors that the library's length check skips. */
  predicate IsVariationSelector(c: char) {
    c == '\U{FE0E}' || c == '\U{FE0F}'
  }

  /**
   * The length `@MinLength` and `@MaxLength` measure: one per character,
   * not counting variation selectors.
   */
  function TextLength(s: string): (n: nat)
    ensures n <= |s|
    ensures (forall c <- s :: !IsVariationSelector(c)) ==> n == |s|
    ensures s != [] && n == 0 ==> forall c <- s :: IsVariationSelector(c)
  {
    if s == [] then 0
    else (if IsVariationSelector(s[0]) then 0 else 1) + TextLength(s[1..])
  }

  predicate MinLength(v: Option<Value>, n: nat) {
    IsString(v) && TextLength(v.value.text) >= n
  }

  predicate MaxLength(v: Option<Value>, n: nat) {
    IsString(v) && TextLength(v.value.text) <= n
  }

  /** `@IsOptional`: a `null` or `undefined` value skips the property's other constraints. */
  predicate IsNullish(v: Option<Value>) {
    v.None? || v.value == Null
  }

  /** `forbidNonWhitelisted`: a property the DTO does not declare rejects the body. */
  predicate OnlyKnownFields(body: Body, known: set<string>) {
    body.Keys <= known
  }

  /** `@IsString() @IsNotEmpty()`. */
  predicate RequiredText(v: Option<Value>) {
    IsString(v) && IsNotEmpty(v)
  }

  // CreateArticleDto

  const CreateArticleFields: set<string> := {"title", "content"}

  predicate ValidCreateArticle(body: Body)
    ensures ValidCreateArticle(body) ==> body.Keys == CreateArticleFields
  {
    && OnlyKnownFields(body, CreateArticleFields)
    && RequiredText(Field(body, "title"))
    && RequiredText(Field(body, "content"))
  }

  function ParseCreateArticle(body: Body): (r: Option<CreateArticleDto>)
    ensures r.Some? <==> ValidCreateArticle(body)
    ensures r.Some? ==> body == map["title" := Text(r.value.title), "content" := Text(r.value.content)]
    ensures r.Some? ==> r.value.title != "" && r.value.content != ""
  {
    if ValidCreateArticle(body) then
      assert body.Keys == {"title", "content"};
      Some(CreateArticleDto(body["title"].text, body["content"].text))
    else None
  }

  /** The JSON body a client sends for `dto`. */
  function CreateArticleBody(dto: CreateArticleDto): Body {
    map["title" := Text(dto.title), "content" := Text(dto.content)]
  }

  /** Exactly the articles with a non-empty title and content get through. */
  lemma CreateArticleRoundTrip(dto: CreateArticleDto)
    ensures ParseCreateArticle(CreateArticleBody(dto))
         == if dto.title != "" && dto.content != "" then Some(dto) else None
  {
  }

  // CreateCommentDto

  const CreateCommentFields: set<string> := {"content", "articleId"}
  const MaxCommentLength: nat := 1000

  /** `content`: a non-empty string of 1 to 1000 characters; `articleId`: a non-empty string. */
  predicate ValidCreateComment(body: Body)
    ensures ValidCreateComment(body) ==> body.Keys == CreateCommentFields
  {
    && OnlyKnownFields(body, CreateCommentFields)
    && var content := Field(body, "content");
    && RequiredText(content) && MinLength(content, 1) && MaxLength(content, MaxCommentLength)
    && RequiredText(Field(body, "articleId"))
  }

  function ParseCreateComment(body: Body): (r: Option<CreateCommentDto>)
    ensures r.Some? <==> ValidCreateComment(body)
    ensures r.Some? ==> body == map["content" := Text(r.value.content), "articleId" := Text(r.value.articleId)]
    ensures r.Some? ==> 1 <= TextLength(r.value.content) <= MaxCommentLength && r.value.articleId != ""
  {
    if ValidCreateComment(body) then
      assert body.Keys == {"content", "articleId"};
      Some(CreateCommentDto(body["content"].text, body["articleId"].text))
    else None
  }

  function CreateCommentBody(dto: CreateCommentDto): Body {
    map["content" := Text(dto.content), "articleId" := Text(dto.articleId)]
  }

  /** Exactly the comments of 1 to 1000 characters on a non-empty article id get through. */
  lemma CreateCommentRoundTrip(dto: CreateCommentDto)
    ensures ParseCreateComment(CreateCommentBody(dto))
         == if 1 <= TextLength(dto.content) <= MaxCommentLength && dto.articleId != "" then Some(dto) else None
  {
  }

  /** A one-character comment passes; 1001 characters do not. */
  lemma CommentLengthEdges(articleId: string, long: string)
    requires articleId != "" && TextLength(long) == MaxCommentLength + 1
    ensures ValidCreateComment(CreateCommentBody(CreateCommentDto("x", articleId)))
    ensures !ValidCreateComment(CreateCommentBody(CreateCommentDto(long, articleId)))
  {
    CreateCommentRoundTrip(CreateCommentDto("x", articleId));
    CreateCommentRoundTrip(CreateCommentDto(long, articleId));
  }

  // UpdateCommentDto

  const UpdateCommentFields: set<string> := {"content"}

  /**
   * The constraints as declared: `content` may be left out, and when
   * present must be a string of 1 to 1000 characters. Like every
   * `@IsOptional` property, a `null` content skips the checks.
   */
  predicate ValidUpdateComment(body: Body)
    ensures ValidUpdateComment(body) ==>
      body == map[] || body == map["content" := Null] || (body.Keys == UpdateCommentFields && body["content"].Text?)
  {
    && OnlyKnownFields(body, UpdateCommentFields)
    && var content := Field(body, "content");
    || IsNullish(content)
    || (IsString(content) && MinLength(content, 1) && MaxLength(content, MaxCommentLength))
  }

  /**
   * `{"content": null}` passes the declared constraints, yet it is not an
   * update the DTO describes: the service would assign `null` to a column
   * that is not nullable.
   */
  lemma NullContentPassesUpdateValidation()
    ensures ValidUpdateComment(map["content" := Null])
    ensures !IsString(Field(map["content" := Null], "content"))
  {
  }

  /** The intended constraints: `content` absent, or a string of 1 to 1000 characters. */
  predicate ValidUpdateCommentNonNull(body: Body) {
    && OnlyKnownFields(body, UpdateCommentFields)
    && var content := Field(body, "content");
    || content.None?
    || (IsString(content) && MinLength(content, 1) && MaxLength(content, MaxCommentLength))
  }

  /** The intended constraints accept what the declared ones do, except a `null` content. */
  lemma NonNullIsDeclaredMinusNull(body: Body)
    ensures ValidUpdateCommentNonNull(body) <==> ValidUpdateComment(body) && Field(body, "content") != Some(Null)
  {
  }

  function ParseUpdateComment(body: Body): (r: Option<UpdateCommentDto>)
    ensures r.Some? <==> ValidUpdateCommentNonNull(body)
    ensures r.Some? && r.value.content.None? ==> body == map[]
    ensures r.Some? && r.value.content.Some? ==>
      body == map["content" := Text(r.value.content.value)] && 1 <= TextLength(r.value.content.value) <= MaxCommentLength
  {
    if !ValidUpdateCommentNonNull(body) then None
    else if "content" in body then
      assert body.Keys == {"content"};
      Some(UpdateCommentDto(Some(body["content"].text)))
    else
      assert body.Keys == {};
      Some(UpdateCommentDto(None))
  }

  function UpdateCommentBody(dto: UpdateCommentDto): Body {
    if dto.content.Some? then map["content" := Text(dto.content.value)] else map[]
  }

  lemma UpdateCommentRoundTrip(dto: UpdateCommentDto)
    ensures ParseUpdateComment(UpdateCommentBody(dto))
         == if dto.content.None? || 1 <= TextLength(dto.content.value) <= MaxCommentLength then Some(dto) else None
  {
  }

  /** A body that names an article is rejected: an update cannot move a comment. */
  lemma UpdateCannotMoveComment(body: Body)
    requires "articleId" in body
    ensures !ValidUpdateComment(body) && !ValidUpdateCommentNonNull(body)
  {
  }

  // RegisterDto

  const RegisterFields: set<string> := {"email", "password", "name"}

  /** JavaScript's line terminators, which `.` in a pattern does not match. */
  predicate IsLineTerminator(c: char) {
    c == '\n' || c == '\r' || c == '\U{2028}' || c == '\U{2029}'
  }

  predicate IsLower(c: char) { 'a' <= c <= 'z' }
  predicate IsUpper(c: char) { 'A' <= c <= 'Z' }
  /** `\d`: the ASCII digits only. */
  predicate IsDigit(c: char) { '0' <= c <= '9' }

  /** The text up to the first line terminator. */
  function FirstLine(s: string): (r: string)
    ensures |r| <= |s| && r == s[..|r|]
    ensures forall c <- r :: !IsLineTerminator(c)
    ensures |r| < |s| ==> IsLineTerminator(s[|r|])
  {
    if s == [] || IsLineTerminator(s[0]) then []
    else [s[0]] + FirstLine(s[1..])
  }

  /**
   * `/^(?=.*[a-z])(?=.*[A-Z])(?=.*\d)/`: anchored at the start, each
   * look-ahead must find its character before the first line terminator.
   */
  predicate MatchesPasswordPattern(s: string) {
    var line := FirstLine(s);
    (exists c <- line :: IsLower(c)) && (exists c <- line :: IsUpper(c)) && (exists c <- line :: IsDigit(c))
  }

  /** Text without line terminators is its own first line. */
  lemma {:induction false} FirstLineOfOneLine(s: string)
    requires forall c <- s :: !IsLineTerminator(c)
    ensures FirstLine(s) == s
  {
    if s != [] {
      assert s[0] in s;
      assert forall c <- s[1..] :: c in s;
      FirstLineOfOneLine(s[1..]);
    }
  }

  /** On one line, the pattern holds exactly when a lower-case letter, an upper-case letter and a digit all occur. */
  lemma PasswordPatternOnOneLine(s: string)
    requires forall c <- s :: !IsLineTerminator(c)
    ensures MatchesPasswordPattern(s) <==>
      (exists c <- s :: IsLower(c)) && (exists c <- s :: IsUpper(c)) && (exists c <- s :: IsDigit(c))
  {
    FirstLineOfOneLine(s);
  }

  /** The email check of the validator library is not part of this model: it is a parameter. */
  predicate ValidRegister(body: Body, isEmail: string -> bool)
    ensures ValidRegister(body, isEmail) ==> body.Keys == RegisterFields
  {
    && OnlyKnownFields(body, RegisterFields)
    && var email := Field(body, "email");
    && IsString(email) && isEmail(email.value.text) && IsNotEmpty(email)
    && var password := Field(body, "password");
    && RequiredText(password) && MinLength(password, 6) && MaxLength(password, 50)
    && MatchesPasswordPattern(password.value.text)
    && var name := Field(body, "name");
    && RequiredText(name) && MinLength(name, 2) && MaxLength(name, 100)
  }

  /** The same rules on the typed fields. */
  predicate RegisterFieldsOk(dto: RegisterDto, isEmail: string -> bool) {
    && dto.email != "" && isEmail(dto.email)
    && 6 <= TextLength(dto.password) <= 50 && MatchesPasswordPattern(dto.password)
    && 2 <= TextLength(dto.name) <= 100
  }

  function RegisterBody(dto: RegisterDto): Body {
    map["email" := Text(dto.email), "password" := Text(dto.password), "name" := Text(dto.name)]
  }

  function ParseRegister(body: Body, isEmail: string -> bool): (r: Option<RegisterDto>)
    ensures r.Some? <==> ValidRegister(body, isEmail)
    ensures r.Some? ==> body == RegisterBody(r.value) && RegisterFieldsOk(r.value, isEmail)
  {
    if ValidRegister(body, isEmail) then
      assert body.Keys == RegisterFields;
      Some(RegisterDto(body["email"].text, body["password"].text, body["name"].text))
    else None
  }

  lemma RegisterRoundTrip(dto: RegisterDto, isEmail: string -> bool)
    ensures ParseRegister(RegisterBody(dto), isEmail) == if RegisterFieldsOk(dto, isEmail) then Some(dto) else None
  {
  }

  /** The first line ends at the first line terminator. */
  lemma {:induction false} FirstLineStopsAtBreak(line: string, c: char, rest: string)
    requires (forall d <- line :: !IsLineTerminator(d)) && IsLineTerminator(c)
    ensures FirstLine(line + [c] + rest) == line
  {
    if line != [] {
      assert line[0] in line;
      assert forall d <- line[1..] :: d in line;
      assert (line + [c] + rest)[1..] == line[1..] + [c] + rest;
      FirstLineStopsAtBreak(line[1..], c, rest);
    }
  }

  /** The documented example password passes. */
  lemma ExamplePasswordPasses()
    ensures MatchesPasswordPattern("Password123")
  {
    var s := "Password123";
    FirstLineOfOneLine(s);
    assert IsLower(s[1]) && IsUpper(s[0]) && IsDigit(s[8]);
    assert s[1] in s && s[0] in s && s[8] in s;
  }

  /**
   * A password whose capital and digit come only after a line break
   * fails, though it holds all three kinds of character.
   */
  lemma CapitalAfterLineBreakFails()
    ensures !MatchesPasswordPattern("abc\nA1")
  {
    var line := "abc";
    assert forall c <- line :: !IsLineTerminator(c) && !IsUpper(c);
    FirstLineStopsAtBreak(line, '\n', "A1");
    assert "abc\nA1" == line + ['\n'] + "A1";
  }

  // SearchArticlesDto

  const DefaultSortBy: string := "createdAt"
  const DefaultSortOrder: string := "DESC"

  /**
   * `query`, when sent, has at least 2 characters; `page` and `limit`
   * obey the pagination bounds; `sortBy` and `sortOrder` are only
   * checked to be strings, which every query parameter is.
   */
  predicate ValidSearch(s: SearchArticlesDto)
    ensures ValidSearch(s) ==> Pageable(PageQuery(s.page, s.limit)) && LimitOf(PageQuery(s.page, s.limit)) <= MaxLimit
  {
    && (s.query.Some? ==> TextLength(s.query.value) >= 2)
    && ValidPageQuery(PageQuery(s.page, s.limit))
  }

  /** The class's property defaults, filled in for the parameters that were not sent. */
  function WithDefaults(s: SearchArticlesDto): (r: SearchArticlesDto)
    ensures r.query == s.query
    ensures r.page == Some(s.page.GetOr(DefaultPage)) && r.limit == Some(s.limit.GetOr(DefaultLimit))
    ensures r.sortBy == Some(s.sortBy.GetOr(DefaultSortBy))
    ensures r.sortOrder == Some(s.sortOrder.GetOr(DefaultSortOrder))
  {
    SearchArticlesDto(s.query, Some(s.page.GetOr(DefaultPage)), Some(s.limit.GetOr(DefaultLimit)),
                      Some(s.sortBy.GetOr(DefaultSortBy)), Some(s.sortOrder.GetOr(DefaultSortOrder)))
  }

  /**
   * Filling in the defaults keeps a valid query valid, and the service
   * then pages exactly as it would have with its own defaults.
   */
  lemma DefaultsAgree(s: SearchArticlesDto)
    requires ValidSearch(s)
    ensures ValidSearch(WithDefaults(s))
    ensures var d := WithDefaults(s);
      PageOf(PageQuery(d.page, d.limit)) == PageOf(PageQuery(s.page, s.limit))
      && LimitOf(PageQuery(d.page, d.limit)) == LimitOf(PageQuery(s.page, s.limit))
  {
    ValidQueryBounds(PageQuery(s.page, s.limit));
  }

  /** Any sort field and any sort order pass validation. */
  lemma AnySortPasses(s: SearchArticlesDto, sortBy: string, sortOrder: string)
    requires ValidSearch(s)
    ensures ValidSearch(s.(sortBy := Some(sortBy), sortOrder := Some(sortOrder)))
  {
  }

  /** A one-character or empty search text is rejected; a limit of 101 or a page of 0 too. */
  lemma SearchBounds(s: SearchArticlesDto)
    ensures s.query == Some("a") ==> !ValidSearch(s)
    ensures s.query == Some("") ==> !ValidSearch(s)
    ensures s.limit == Some(MaxLimit + 1) ==> !ValidSearch(s)
    ensures s.page == Some(0) ==> !ValidSearch(s)
  {
  }
}
