/**
 * The global exception filter: turns whatever a route throws into an
 * HTTP status and an error envelope with a readable message.
 */
module ExceptionsFilter {
  import opened Common
  import opened ApiResponse

  /** The `message` property of an exception's response object. */
  datatype MessageField = MessageText(text: string) | MessageList(items: seq<string>)

  /**
   * What `getResponse()` of an HTTP exception returns: a string, an object
   * with optional `message` and `error` properties, or anything else
   * (`null`, a number, ...).
   */
  datatype ExceptionResponse =
    | StringBody(text: string)
    | ObjectBody(message: Option<MessageField>, error: Option<string>)
    | OtherBody

  /** A thrown value: an `HttpException` with its status, or anything else. */
  datatype Exception = HttpError(status: int, response: ExceptionResponse) | OtherError

  const InternalServerError: int := 500
  const Fallback: string := "An error occurred"

  /** What the filter writes: the status line and the JSON body. */
  datatype Reply = Reply(status: int, body: ApiResponseDto<()>)

  /** `Array.prototype.join`: the parts with `sep` between neighbours. */
  function Join(parts: seq<string>, sep: string): string {
    if |parts| == 0 then ""
    else if |parts| == 1 then parts[0]
    else parts[0] + sep + Join(parts[1..], sep)
  }

  /** Joining one more part appends the separator and that part. */
  lemma {:induction false} JoinSnoc(parts: seq<string>, p: string, sep: string)
    requires parts != []
    ensures Join(parts + [p], sep) == Join(parts, sep) + sep + p
  {
    if |parts| > 1 {
      assert (parts + [p])[1..] == parts[1..] + [p];
      JoinSnoc(parts[1..], p, sep);
    }
  }

  function TotalLength(parts: seq<string>): nat {
    if parts == [] then 0 else |parts[0]| + TotalLength(parts[1..])
  }

  /** The joined text holds every part and one separator between each two. */
  lemma {:induction false} JoinLength(parts: seq<string>, sep: string)
    requires parts != []
    ensures |Join(parts, sep)| == TotalLength(parts) + (|parts| - 1) * |sep|
  {
    if |parts| > 1 {
      JoinLength(parts[1..], sep);
    }
  }

  /**
   * With a non-empty separator the joined text is empty only for no
   * parts or a single empty part.
   */
  lemma JoinEmptyIff(parts: seq<string>, sep: string)
    requires sep != ""
    ensures Join(parts, sep) == "" <==> parts == [] || parts == [""]
  {
    if |parts| > 1 {
      JoinLength(parts, sep);
    }
  }

  /**
   * The message the filter reports for an HTTP exception's response: a
   * string as it is; for an object, `message || error || fallback` with a
   * list of messages joined by ", " (an array is truthy, even empty);
   * otherwise the fallback.
   */
  function MessageOf(response: ExceptionResponse): (r: string)
    ensures response.StringBody? ==> r == response.text
    ensures response.OtherBody? ==> r == Fallback
    ensures response.ObjectBody? && response.message.Some? && response.message.value.MessageList? ==>
      r == Join(response.message.value.items, ", ")
    ensures (&& response.ObjectBody? && response.message.Some? && response.message.value.MessageText?
             && response.message.value.text != "") ==> r == response.message.value.text
    ensures (&& response.ObjectBody? && (response.message.None? || response.message.value == MessageText(""))
             && !Truthy(response.error)) ==> r == Fallback
    ensures (&& response.ObjectBody? && (response.message.None? || response.message.value == MessageText(""))
             && response.error.Some? && response.error.value != "") ==> r == response.error.value
  {
    match response
    case StringBody(text) => text
    case ObjectBody(message, error) =>
      if message.Some? && message.value.MessageList? then Join(message.value.items, ", ")
      else if message.Some? && message.value.text != "" then message.value.text
      else if Truthy(error) then error.value
      else Fallback
    case OtherBody => Fallback
  }

  /**
   * `catch`: an HTTP exception keeps its status and gets the message of
   * its response; anything else becomes 500 "Internal server error". The
   * body is always an error envelope with a null payload.
   */
  function Catch(e: Exception): (reply: Reply)
    ensures reply.body.status == StatusError && reply.body.data == None
    ensures e.OtherError? ==> reply.status == InternalServerError && reply.body.message == "Internal server error"
    ensures e.HttpError? ==> reply.status == e.status && reply.body.message == MessageOf(e.response)
  {
    match e
    case HttpError(status, response) => Reply(status, Error(MessageOf(response)))
    case OtherError => Reply(InternalServerError, Error("Internal server error"))
  }

  /** The response object of Nest's built-in HTTP exceptions: `{ statusCode, message, error }`. */
  function BuiltIn(status: int, message: MessageField, error: string): Exception {
    HttpError(status, ObjectBody(Some(message), Some(error)))
  }

  /** The exception a service failure is thrown as. */
  function FromFailure(f: Failure): (e: Exception)
    ensures e.HttpError? && e.status in {403, 404, 409}
  {
    match f
    case NotFound(m) => BuiltIn(404, MessageText(m), "Not Found")
    case Conflict(m) => BuiltIn(409, MessageText(m), "Conflict")
    case Forbidden(m) => BuiltIn(403, MessageText(m), "Forbidden")
  }

  /** The exception the validation pipe throws: 400 with every constraint message. */
  function ValidationFailed(messages: seq<string>): Exception {
    BuiltIn(400, MessageList(messages), "Bad Request")
  }

  /**
   * A service failure reaches the client with its own status (404, 409 or
   * 403) and its own message, word for word.
   */
  lemma FailureReply(f: Failure)
    requires f.message != ""
    ensures var reply := Catch(FromFailure(f));
      && reply.body.message == f.message
      && (f.NotFound? <==> reply.status == 404)
      && (f.Conflict? <==> reply.status == 409)
      && (f.Forbidden? <==> reply.status == 403)
  {
  }

  /**
   * A rejected body is answered 400 with the messages in order, separated
   * by ", "; one more message appends ", " and that message.
   */
  lemma ValidationReply(messages: seq<string>, more: string)
    requires messages != []
    ensures Catch(ValidationFailed(messages)).status == 400
    ensures Catch(ValidationFailed(messages)).body.message == Join(messages, ", ")
    ensures Catch(ValidationFailed(messages + [more])).body.message
         == Catch(ValidationFailed(messages)).body.message + ", " + more
  {
    JoinSnoc(messages, more, ", ");
  }

  /**
   * The reported message is empty only when the exception itself carries
   * an empty text or an empty (or single empty) list of messages; the
   * fallback covers every other gap.
   */
  lemma EmptyMessageOnlyFromEmptyInput(e: Exception)
    requires Catch(e).body.message == ""
    ensures e.HttpError?
    ensures || e.response == StringBody("")
            || (&& e.response.ObjectBody?
                && e.response.message.Some?
                && e.response.message.value.MessageList?
                && (e.response.message.value.items == [] || e.response.message.value.items == [""]))
  {
    if e.HttpError? && e.response.ObjectBody? && e.response.message.Some? && e.response.message.value.MessageList? {
      JoinEmptyIff(e.response.message.value.items, ", ");
    }
  }
}
