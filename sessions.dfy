/** Session identification by the `session` cookie. */
module Sessions {
  import opened Wrappers
  import opened Http

  const SESSION_COOKIE: string := "session"

  /** Seven days, in seconds. */
  const SESSION_MAX_AGE: int := 60 * 60 * 24 * 7

  /** The value of the request's `session` cookie, if one was sent. */
  function GetSessionId(req: Request): (r: Option<string>)
    ensures r.Some? <==> SESSION_COOKIE in req.cookies
    ensures r.Some? ==> r.value == req.cookies[SESSION_COOKIE]
  {
    if SESSION_COOKIE in req.cookies then Some(req.cookies[SESSION_COOKIE]) else None
  }

  /** The request carries a usable session: the cookie is present and not empty. */
  predicate HasSession(req: Request)
    ensures HasSession(req) <==> SESSION_COOKIE in req.cookies && req.cookies[SESSION_COOKIE] != ""
  {
    Truthy(GetSessionId(req))
  }

  /** A freshly minted session token, as `uuid4().hex` produces: 32 lower-case
      hexadecimal digits. */
  predicate IsUuidHex(s: string) {
    |s| == 32 && forall i :: 0 <= i < |s| ==> s[i] in "0123456789abcdef"
  }

  /** The cookie that hands a session id to the client. */
  function SessionCookie(id: string): (c: Cookie)
    ensures c.key == SESSION_COOKIE && c.value == id
    ensures c.httpOnly && !c.secure && c.sameSite == "lax"
    ensures c.maxAge == 604800
  {
    Cookie(SESSION_COOKIE, id, true, "lax", false, SESSION_MAX_AGE)
  }

  /** The id a request is served under, and the cookie to set, if any. */
  datatype SessionChoice = SessionChoice(id: string, setCookie: Option<Cookie>)

  /** Reuse the incoming session, or adopt `freshId` and set a cookie for it. */
  function EnsureSessionId(req: Request, freshId: string): (r: SessionChoice)
    ensures HasSession(req) ==> r.id == req.cookies[SESSION_COOKIE] && r.setCookie == None
    ensures !HasSession(req) ==> r.id == freshId && r.setCookie == Some(SessionCookie(freshId))
    ensures r.setCookie.Some? <==> !HasSession(req)
  {
    var incoming := GetSessionId(req);
    if Truthy(incoming) then SessionChoice(incoming.value, None)
    else SessionChoice(freshId, Some(SessionCookie(freshId)))
  }

  /** The request the client sends next, once it has stored the cookie it was given. */
  function WithCookie(req: Request, c: Option<Cookie>): (next: Request)
    ensures c.None? ==> next == req
    ensures c.Some? ==> next.cookies == req.cookies[c.value.key := c.value.value]
  {
    if c.Some? then Request(req.cookies[c.value.key := c.value.value]) else req
  }

  /** Sessions are sticky: a client that keeps the cookie it was given is served
      under the same id next time, and no further cookie is set. */
  lemma SessionIsSticky(req: Request, freshId: string, laterFreshId: string)
    requires IsUuidHex(freshId)
    ensures var first := EnsureSessionId(req, freshId);
            var next := WithCookie(req, first.setCookie);
            HasSession(next)
            && EnsureSessionId(next, laterFreshId) == SessionChoice(first.id, None)
  {
    var first := EnsureSessionId(req, freshId);
    if !HasSession(req) {
      assert |freshId| == 32;
      var next := WithCookie(req, first.setCookie);
      assert next.cookies[SESSION_COOKIE] == freshId;
    }
  }

  /** The history endpoint's session check: refuse with 401 unless a
      non-empty session cookie was sent. */
  function RequireExistingSession(req: Request): (r: Result<string, HttpError>)
    ensures r == Failure(Unauthorized) <==> !HasSession(req)
    ensures r.Success? ==> r.value == req.cookies[SESSION_COOKIE] && r.value != ""
    ensures r.Success? || r == Failure(Unauthorized)
  {
    var id := GetSessionId(req);
    if !Truthy(id) then Failure(Unauthorized) else Success(id.value)
  }
}
