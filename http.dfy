/** The framework values the router handles: raised HTTP errors, request
    cookies, response cookies and uploaded files. */
module Http {
  import opened Wrappers

  /** Raw bytes, as Python's `bytes`. */
  type Bytes = seq<bv8>

  /** The HTTPException kinds the router raises. */
  datatype HttpError =
    | BadRequest            // empty upload
    | Unauthorized          // no session cookie on the history endpoint
    | NotFound              // no stored history for the session
    | UnsupportedMediaType  // MIME type outside the allow-list
    | BadGateway            // the generator returned no image
  {
    /** The status code carried by the error. */
    function Status(): (code: int)
      ensures 400 <= code < 600
      ensures code == 400 <==> this == BadRequest
      ensures code == 401 <==> this == Unauthorized
      ensures code == 404 <==> this == NotFound
      ensures code == 415 <==> this == UnsupportedMediaType
      ensures code == 502 <==> this == BadGateway
    {
      match this
      case BadRequest => 400
      case Unauthorized => 401
      case NotFound => 404
      case UnsupportedMediaType => 415
      case BadGateway => 502
    }
  }

  /** The part of an incoming request the router looks at: its cookies. */
  datatype Request = Request(cookies: map<string, string>)

  /** A `Set-Cookie` directive attached to a response. */
  datatype Cookie = Cookie(
    key: string,
    value: string,
    httpOnly: bool,
    sameSite: string,
    secure: bool,
    maxAge: int)

  /** An uploaded file: its declared content type (possibly absent) and its bytes. */
  datatype Upload = Upload(contentType: Option<string>, data: Bytes)

  /** Python truthiness of an optional string: present and not empty. */
  predicate Truthy(s: Option<string>) {
    s.Some? && s.value != ""
  }
}
