/**
 * The uniform JSON body every handler answers with (`ResponseUtil`):
 * `{ success, data?, message?, meta? }`. A field that is None is a key the
 * object does not have.
 */
module Envelope {
  import opened Outcomes
  import Errors

  /** The pagination block the list endpoints attach. */
  datatype Meta = Meta(page: int, limit: int, totalPage: int, total: nat)

  datatype ApiResponse<T> = ApiResponse(
    success: bool,
    data: Option<T>,
    message: Option<string>,
    meta: Option<Meta>)
  {
    /** The keys of the JSON object. */
    function Keys(): (ks: set<string>)
      ensures "success" in ks
      ensures "data" in ks <==> data.Some?
      ensures "message" in ks <==> message.Some?
      ensures "meta" in ks <==> meta.Some?
      ensures ks <= {"success", "data", "message", "meta"}
    {
      {"success"}
        + (if data.Some? then {"data"} else {})
        + (if message.Some? then {"message"} else {})
        + (if meta.Some? then {"meta"} else {})
    }
  }

  /** A status code together with the body written with it. */
  datatype Reply = Reply(status: nat, body: ApiResponse<()>)

  /** JavaScript truthiness of an optional string argument: absent and "" are falsy. */
  predicate Truthy(s: Option<string>) {
    s.Some? && s.value != ""
  }

  /**
   * `ResponseUtil.success(data, message?, meta?)`: `...(message && { message })`
   * and `...(meta && { meta })` add a key only for a truthy argument; any meta
   * object is truthy.
   */
  function Success<T>(data: T, message: Option<string>, meta: Option<Meta>): (r: ApiResponse<T>)
    ensures r.success && r.data == Some(data)
    ensures "message" in r.Keys() <==> Truthy(message)
    ensures "meta" in r.Keys() <==> meta.Some?
    ensures r.message.Some? ==> r.message == message
    ensures r.meta.Some? ==> r.meta == meta
  {
    ApiResponse(true, Some(data), if Truthy(message) then message else None, meta)
  }

  /**
   * `ResponseUtil.error(message)`: a failure that always carries its message,
   * even "". It has no `data`, so it is a body of any payload type.
   */
  function Error<T>(message: string): (r: ApiResponse<T>)
    ensures !r.success && r.message == Some(message)
    ensures r.Keys() == {"success", "message"}
  {
    ApiResponse(false, None, Some(message), None)
  }

  /** `ResponseUtil.validationError(message)`. */
  function ValidationError(message: string): (r: ApiResponse<()>)
    ensures !r.success && r.message == Some(message)
    ensures r.Keys() == {"success", "message"}
  {
    Error(message)
  }

  /** `ResponseUtil.notFound(resource)`. */
  function NotFound(resource: string): (r: ApiResponse<()>)
    ensures !r.success && r.message == Some(resource + " not found")
    ensures r.Keys() == {"success", "message"}
  {
    Error(resource + " not found")
  }

  /** `ResponseUtil.unauthorized(message = "Unauthorized access")`; the default applies only when no argument is given. */
  function Unauthorized(message: Option<string>): (r: ApiResponse<()>)
    ensures !r.success && r.Keys() == {"success", "message"}
    ensures message.None? ==> r.message == Some("Unauthorized access")
    ensures message.Some? ==> r.message == message
  {
    Error(message.GetOr("Unauthorized access"))
  }

  /** `ResponseUtil.serverError(message = "Internal server error")`. */
  function ServerError(message: Option<string>): (r: ApiResponse<()>)
    ensures !r.success && r.Keys() == {"success", "message"}
    ensures message.None? ==> r.message == Some("Internal server error")
    ensures message.Some? ==> r.message == message
  {
    Error(message.GetOr("Internal server error"))
  }

  /** The failure helpers differ only in the message they put in; none carries data or meta. */
  lemma FailureHelpersAgree(m: string)
    ensures ValidationError(m) == Error(m)
    ensures Unauthorized(Some(m)) == Error(m) && ServerError(Some(m)) == Error(m)
    ensures NotFound(m) == Error(m + " not found")
  {
  }

  /** An empty message is dropped from a success body but kept in a failure body. */
  lemma EmptyMessage<T>(data: T)
    ensures "message" !in Success(data, Some(""), None).Keys()
    ensures "message" in Error<()>("").Keys()
  {
  }

  /**
   * What a handler writes: the envelope with a status, or, from a catch
   * block that caught a ValidationError, a bare `{ message }` object with
   * no `success` key.
   */
  datatype Answer<T> = Json(status: nat, body: ApiResponse<T>) | Bare(status: nat, message: string)

  /**
   * The shape every controller handler shares: on success `okStatus` with
   * `success(data, message, meta)`; in the catch block a ValidationError is
   * answered 400 with its message and anything else 500 "Internal server
   * error". (The 400 branch falls through to a second write, which fails
   * because the response is already sent; the client sees the 400.)
   */
  function Respond<T>(r: Result<T, Errors.AppError>, okStatus: nat, message: Option<string>, meta: Option<Meta>): (a: Answer<T>)
    ensures r.Ok? ==> a.Json? && a.status == okStatus && a.body.success && a.body.data == Some(r.value)
    ensures r.Ok? ==> a.body == Success(r.value, message, meta)
    ensures r.Err? && r.error.ValidationError? ==> a == Bare(400, r.error.message)
    ensures r.Err? && !r.error.ValidationError? ==> a == Json(500, Error("Internal server error"))
  {
    if r.Ok? then Json(okStatus, Success(r.value, message, meta))
    else if r.error.ValidationError? then Bare(400, r.error.message)
    else Json(500, Error("Internal server error"))
  }

  /**
   * A failure caught in a controller ends in the status its kind carries;
   * an AuthenticationError, which only the middleware throws, would not.
   */
  lemma RespondStatus<T>(r: Result<T, Errors.AppError>, okStatus: nat, message: Option<string>, meta: Option<Meta>)
    requires r.Err? && !r.error.AuthenticationError?
    ensures Respond(r, okStatus, message, meta).status == Errors.Status(r.error)
    ensures Respond(r, okStatus, message, meta).Bare? <==> 400 <= Errors.Status(r.error) < 500
  {
  }
}
