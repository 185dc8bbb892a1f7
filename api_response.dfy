/**
 * The envelope every route answers with: a status word, a message and
 * the payload, which is null on errors.
 */
module ApiResponse {
  import opened Common

  datatype Status = StatusOk | StatusError
  {
    /** The status as it appears in the JSON body. */
    function Text(): (s: string)
      ensures s == "ok" || s == "error"
      ensures s == "ok" <==> this == StatusOk
    {
      if this == StatusOk then "ok" else "error"
    }
  }

  /** `data: None` is a JSON `null`. */
  datatype ApiResponseDto<T> = ApiResponseDto(status: Status, message: string, data: Option<T>)

  /** The constructor: stores what it is given; the payload defaults to null. */
  function New<T>(status: Status, message: string, data: Option<T> := None): (r: ApiResponseDto<T>)
    ensures r.status == status && r.message == message && r.data == data
  {
    ApiResponseDto(status, message, data)
  }

  /** `ApiResponseDto.success`: status "ok" with the payload; the message defaults to "Success". */
  function Success<T>(data: T, message: string := "Success"): (r: ApiResponseDto<T>)
    ensures r.status == StatusOk && r.status.Text() == "ok"
    ensures r.message == message && r.data == Some(data)
  {
    New(StatusOk, message, Some(data))
  }

  /** `ApiResponseDto.error`: status "error"; the payload defaults to null. */
  function Error<T>(message: string, data: Option<T> := None): (r: ApiResponseDto<T>)
    ensures r.status == StatusError && r.status.Text() == "error"
    ensures r.message == message && r.data == data
  {
    New(StatusError, message, data)
  }

  /** A client tells the two kinds apart by the status word alone, whatever the message and payload. */
  lemma SuccessIsNeverError<T>(d: T, m1: string, m2: string, e: Option<T>)
    ensures Success(d, m1).status.Text() != Error(m2, e).status.Text()
    ensures Success(d, m1) != Error(m2, e)
  {
  }
}
