/**
 * What a handler hands back to FastAPI: a response with its status, body,
 * cookies and `Authorization` header, or an exception, which FastAPI answers
 * with the exception's own status (`HTTPException`) or 500 (anything else).
 */
module Responses {
  import opened Wrappers
  import opened Errors
  import opened Jose
  import opened Text

  /**
   * A response: the status code, the body, the cookies set on it in order
   * (name and token), and the token of its `Authorization: Bearer` header.
   */
  datatype Response<T> = Response(status: int, body: T, cookies: seq<(string, Token)>, bearer: Option<Token>)

  /** A plain body with status `status`: no cookie, no header. */
  function Plain<T>(status: int, body: T): (r: Response<T>)
    ensures r.status == status && r.body == body && r.cookies == [] && r.bearer.None?
  {
    Response(status, body, [], None)
  }

  /**
   * `str(e)`, as the f-string `f"Unexpected error: {e}"` formats it. A
   * `CustomException` prints through its `__str__`, an `HTTPException`
   * through Starlette's `__str__` as its status code, `": "` and its detail;
   * for the other exceptions the class name stands in for the message.
   */
  function Describe(e: Error): (s: string)
    ensures e.Custom? ==> s == Str(e)
    ensures e.Builtin? ==> s == e.name
    ensures e.Http? ==> s == IntToString(e.status) + ": " + e.detail
  {
    match e
    case Custom(_, _) => Str(e)
    case Builtin(name) => name
    case Database(f) => if f == IntegrityError then "IntegrityError" else "DataError"
    case Http(status, detail) => IntToString(status) + ": " + detail
  }

  /** The plain-text body Starlette answers a request with when handling it raised. */
  const InternalServerError := "Internal Server Error"

  /** The status FastAPI answers an exception with. */
  function StatusOf(e: Error): (s: int)
    ensures e.Http? ==> s == e.status
    ensures !e.Http? ==> s == 500
  {
    if e.Http? then e.status else 500
  }
}
