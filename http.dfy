/**
 * The response recognize writes, as a value: status code, the header map
 * in force when the body is written, and the JSON payload.
 * setupResponse, jsonResponse and jsonError build such values.
 */
module Http {
  const StatusOK: int := 200
  const StatusBadRequest: int := 400
  const StatusInternalServerError: int := 500

  const MethodOptions: string := "OPTIONS"

  /** The JSON payload of a response. */
  datatype Body =
    | NoBody                    // nothing written (the OPTIONS preflight)
    | Reason(text: string)      // {"reason": text}
    | Urls(items: seq<string>)  // a JSON array of strings

  datatype Response = Response(status: int, headers: map<string, string>, body: Body)

  const AllowOrigin: string := "Access-Control-Allow-Origin"
  const AllowMethods: string := "Access-Control-Allow-Methods"
  const AllowHeaders: string := "Access-Control-Allow-Headers"

  /** The three permissive cross-origin headers setupResponse sets. */
  const CorsHeaders: map<string, string> := map[
    AllowOrigin := "*",
    AllowMethods := "POST, GET, OPTIONS, PUT, DELETE",
    AllowHeaders := "Accept, Content-Type, Content-Length, Accept-Encoding, X-CSRF-Token, Authorization"]

  /** setupResponse: Header().Set of each cross-origin header; other headers are kept. */
  function SetupResponse(headers: map<string, string>): (h: map<string, string>)
    ensures h.Keys == headers.Keys + {AllowOrigin, AllowMethods, AllowHeaders}
    ensures h[AllowOrigin] == "*"
    ensures h[AllowMethods] == "POST, GET, OPTIONS, PUT, DELETE"
    ensures h[AllowHeaders] == "Accept, Content-Type, Content-Length, Accept-Encoding, X-CSRF-Token, Authorization"
    ensures forall k :: k in headers && k !in CorsHeaders ==> h[k] == headers[k]
  {
    headers + CorsHeaders
  }

  /** A handler that returns after setupResponse alone: implicit 200, no body. */
  function OptionsResponse(): (r: Response)
    ensures r.status == StatusOK && r.headers == CorsHeaders && r.body == NoBody
  {
    Response(StatusOK, SetupResponse(map[]), NoBody)
  }

  /**
   * Whether net/http lets a response with this status carry a body: not for
   * 1xx, 204 No Content or 304 Not Modified, where Write fails and nothing
   * is sent.
   */
  predicate BodyAllowed(status: int) {
    !(100 <= status <= 199 || status == 204 || status == 304)
  }

  /**
   * jsonResponse on a fresh writer: cross-origin headers and the status; the
   * payload reaches the client only where the status allows a body. When it
   * does not, encoding fails and the second WriteHeader has no effect, so the
   * status stays. The body is the one sent in reply to any method but HEAD;
   * net/http sends no body in reply to HEAD.
   */
  function JsonResponse(status: int, payload: Body): (r: Response)
    ensures r.status == status && r.headers == CorsHeaders
    ensures BodyAllowed(status) ==> r.body == payload
    ensures !BodyAllowed(status) ==> r.body == NoBody
  {
    Response(status, SetupResponse(map[]), if BodyAllowed(status) then payload else NoBody)
  }

  /** jsonError: a {"reason": ...} payload through jsonResponse. */
  function JsonError(status: int, reason: string): (r: Response)
    ensures r.status == status && r.headers == CorsHeaders
    ensures r.body == if BodyAllowed(status) then Reason(reason) else NoBody
  {
    JsonResponse(status, Reason(reason))
  }
}
