/**
 * The request helpers every view is built from: the JSON body reader, the
 * response envelope, and the three guards that either answer with an error
 * or hand the request to the view unchanged.
 */
module Utils {
  import opened Wrappers

  /** A decoded JSON value (numbers are integers in this model). */
  datatype Json =
    | JNull
    | JBool(b: bool)
    | JNum(n: int)
    | JStr(s: string)
    | JArr(items: seq<Json>)
    | JObj(fields: map<string, Json>)

  const EmptyObject: Json := JObj(map[])

  /** What a view answers: the JSON envelope {code, message, data} and the HTTP status. */
  datatype Response<T> = Response(code: int, message: string, data: Option<T>, status: int)

  /** The session attached to a request: the keys `user_id` and `role`, when set. */
  datatype Session = Session(userId: Option<string>, role: Option<string>)

  datatype Request = Request(verb: string, session: Session, body: string)

  /**
   * The JSON body of a request.  An empty body reads as "{}"; a body the
   * parser rejects also yields the empty object, never an error.  `loads`
   * stands for the JSON parser, a partial function from text to values.
   */
  function ParseJson(body: string, loads: string -> Option<Json>): (payload: Json)
    ensures body == "" && loads("{}") == Some(EmptyObject) ==> payload == EmptyObject
    ensures body != "" && loads(body).None? ==> payload == EmptyObject
    ensures body != "" && loads(body).Some? ==> payload == loads(body).value
  {
    match loads(if body == "" then "{}" else body)
    case Some(value) => value
    case None => EmptyObject
  }

  /** The body reader never fails: it returns what the parser produced or the empty object. */
  lemma ParseJsonTotal(body: string, loads: string -> Option<Json>)
    requires loads("{}") == Some(EmptyObject)
    ensures var payload := ParseJson(body, loads);
      payload == EmptyObject || loads(body) == Some(payload)
  {
  }

  /**
   * The envelope {code, message, data}; the HTTP status is `status` when one
   * is given (a zero status counts as none) and `code` otherwise.
   */
  function ApiResponse<T>(code: int, message: string, data: Option<T>, status: Option<int>): (r: Response<T>)
    ensures r.code == code && r.message == message && r.data == data
    ensures status.Some? && status.value != 0 ==> r.status == status.value
    ensures status.None? || status.value == 0 ==> r.status == code
  {
    Response(code, message, data, if status.Some? && status.value != 0 then status.value else code)
  }

  /** `api_response(data=...)`: code 200, message "success". */
  function Success<T>(data: T): (r: Response<T>)
    ensures r.code == 200 && r.status == 200 && r.data == Some(data)
  {
    ApiResponse(200, "success", Some(data), None)
  }

  /** An error answer whose code and HTTP status are both `code`. */
  function Failure<T>(code: int, message: string): (r: Response<T>)
    ensures r.code == code && r.status == code && r.data.None?
  {
    ApiResponse(code, message, None, Some(code))
  }

  /** `allow_methods`: a method outside the list is answered 405 and the view is not run. */
  function AllowMethods<T>(methods: seq<string>, request: Request, view: Request -> Response<T>): (r: Response<T>)
    ensures request.verb !in methods ==> r == Failure(405, "method not allowed")
    ensures request.verb in methods ==> r == view(request)
  {
    if request.verb !in methods then Failure(405, "method not allowed") else view(request)
  }

  /** `require_auth`: a session without `user_id` is answered 401, any other request reaches the view. */
  function RequireAuth<T>(request: Request, view: Request -> Response<T>): (r: Response<T>)
    ensures request.session.userId.None? ==> r.status == 401 && r.code == 401 && r.data.None?
    ensures request.session.userId.Some? ==> r == view(request)
  {
    if request.session.userId.None? then Failure(401, "未登录，请先登录") else view(request)
  }

  /**
   * `require_admin`: a missing `user_id` is answered 401 whatever the role;
   * a signed-in session whose role is not "admin" is answered 403.
   */
  function RequireAdmin<T>(request: Request, view: Request -> Response<T>): (r: Response<T>)
    ensures request.session.userId.None? ==> r.status == 401
    ensures request.session.userId.Some? && request.session.role != Some("admin") ==> r.status == 403 && r.data.None?
    ensures request.session.userId.Some? && request.session.role == Some("admin") ==> r == view(request)
  {
    if request.session.userId.None? then Failure(401, "未登录，请先登录")
    else if request.session.role != Some("admin") then Failure(403, "需要管理员权限")
    else view(request)
  }

  /** The view behind a guard is never consulted when the guard answers. */
  lemma GuardsDoNotRunView<T>(methods: seq<string>, request: Request, v1: Request -> Response<T>, v2: Request -> Response<T>)
    ensures request.verb !in methods ==> AllowMethods(methods, request, v1) == AllowMethods(methods, request, v2)
    ensures request.session.userId.None? ==> RequireAuth(request, v1) == RequireAuth(request, v2)
    ensures request.session.role != Some("admin") ==> RequireAdmin(request, v1) == RequireAdmin(request, v2)
  {
  }

  /** `require_admin` is `require_auth` followed by the role check. */
  lemma AdminIsAuthThenRole<T>(request: Request, view: Request -> Response<T>)
    ensures RequireAdmin(request, view) ==
      RequireAuth(request, (q: Request) => if q.session.role != Some("admin") then Failure(403, "需要管理员权限") else view(q))
  {
  }
}
