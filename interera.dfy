/** The interera router: the two generation endpoints, which validate the
    uploads, call the image generator, store the result in the session's
    history and return it, and the history endpoint. */
module Interera {
  import opened Wrappers
  import opened Http
  import opened Entity
  import opened Uploads
  import opened Sessions
  import opened HistoryCache

  /** The generated image as the generator's reply is judged: a missing or
      empty reply is a BadGateway. */
  function GeneratedImage(generated: Option<Bytes>): (r: Result<Bytes, HttpError>)
    ensures r.Success? <==> generated.Some? && generated.value != []
    ensures r.Success? ==> r.value == generated.value
    ensures r.Failure? ==> r.error == BadGateway
  {
    if generated.Some? && generated.value != [] then Success(generated.value) else Failure(BadGateway)
  }

  /** The outcome of the generation step: the uploads are validated first and
      the first refusal is raised; only then is the generator's reply judged. */
  function GenerationOutcome(uploads: seq<Upload>, generated: Option<Bytes>): (r: Result<Bytes, HttpError>)
    ensures ReadAll(uploads).Failure? ==> r == Failure(ReadAll(uploads).error)
    ensures ReadAll(uploads).Success? ==> r == GeneratedImage(generated)
    ensures r.Failure? ==> r.error in {UnsupportedMediaType, BadRequest, BadGateway}
    ensures r.Success? ==> r.value != []
  {
    var medias := ReadAll(uploads);
    if medias.Failure? then Failure(medias.error) else GeneratedImage(generated)
  }

  /** The generation step. The generator itself is outside the model: its
      reply is the parameter `generated`. */
  method RunGemini(uploads: seq<Upload>, generated: Option<Bytes>) returns (r: Result<Bytes, HttpError>)
    ensures r == GenerationOutcome(uploads, generated)
  {
    var medias := ReadUploads(uploads);
    if medias.Failure? {
      return Failure(medias.error);
    }
    r := GeneratedImage(generated);
  }

  /** The successful response of a generation endpoint: the image, its
      sniffed Content-Type and the session cookie to set, if any. */
  datatype ImageResponse = ImageResponse(content: Bytes, mediaType: string, setCookie: Option<Cookie>)

  /** What a generation endpoint does, from the store `before` to the store
      `after`: on a refusal nothing is stored; otherwise the image is appended
      to the session the request resolves to and returned. */
  ghost predicate PostOutcome(
    before: map<string, seq<Bytes>>, after: map<string, seq<Bytes>>,
    req: Request, uploads: seq<Upload>, generated: Option<Bytes>,
    sniff: Bytes -> Option<string>, freshId: string,
    r: Result<ImageResponse, HttpError>)
    ensures PostOutcome(before, after, req, uploads, generated, sniff, freshId, r) && r.Failure? ==>
      after == before
    ensures PostOutcome(before, after, req, uploads, generated, sniff, freshId, r) && r.Success? ==>
      && after.Keys == before.Keys + {EnsureSessionId(req, freshId).id}
      && r.value.setCookie.Some? == !HasSession(req)
  {
    match GenerationOutcome(uploads, generated)
    case Failure(e) => r == Failure(e) && after == before
    case Success(img) =>
      var session := EnsureSessionId(req, freshId);
      && r == Success(ImageResponse(img, DetectMediaType(sniff(img)), session.setCookie))
      && after == Step(before, session.id, img)
  }

  /** POST /interera: furnish one room photo. */
  method CreateInterera(
    db: TempDb, req: Request, image: Upload, generated: Option<Bytes>,
    sniff: Bytes -> Option<string>, freshId: string)
    returns (r: Result<ImageResponse, HttpError>)
    requires db.Valid() && IsUuidHex(freshId)
    modifies db
    ensures db.Valid()
    ensures PostOutcome(old(db.sessions), db.sessions, req, [image], generated, sniff, freshId, r)
  {
    var gen := RunGemini([image], generated);
    if gen.Failure? {
      return Failure(gen.error);
    }
    var img := gen.value;
    var incoming := GetSessionId(req);
    var sessionId := if Truthy(incoming) then incoming.value else freshId;
    db.Append(sessionId, img);
    var mediaType := DetectMediaType(sniff(img));
    var cookie: Option<Cookie> := None;
    if !Truthy(GetSessionId(req)) {
      cookie := Some(SessionCookie(sessionId));
    }
    r := Success(ImageResponse(img, mediaType, cookie));
  }

  /** POST /interera/inpaint: a drawing sheet of the object a mask selects.
      The image is validated before the mask. */
  method CreateIntereraInpaint(
    db: TempDb, req: Request, image: Upload, mask: Upload, generated: Option<Bytes>,
    sniff: Bytes -> Option<string>, freshId: string)
    returns (r: Result<ImageResponse, HttpError>)
    requires db.Valid() && IsUuidHex(freshId)
    modifies db
    ensures db.Valid()
    ensures PostOutcome(old(db.sessions), db.sessions, req, [image, mask], generated, sniff, freshId, r)
  {
    var gen := RunGemini([image, mask], generated);
    if gen.Failure? {
      return Failure(gen.error);
    }
    var img := gen.value;
    var incoming := GetSessionId(req);
    var sessionId := if Truthy(incoming) then incoming.value else freshId;
    db.Append(sessionId, img);
    var cookie: Option<Cookie> := None;
    if !Truthy(GetSessionId(req)) {
      cookie := Some(SessionCookie(sessionId));
    }
    r := Success(ImageResponse(img, DetectMediaType(sniff(img)), cookie));
  }

  /** One encoding per stored image, in order: the list comprehension of the
      history endpoint. */
  function EncodeAll(history: seq<Bytes>, encode: Bytes -> string): (encoded: seq<string>)
    ensures |encoded| == |history|
    ensures forall i :: 0 <= i < |history| ==> encoded[i] == encode(history[i])
  {
    seq(|history|, i requires 0 <= i < |history| => encode(history[i]))
  }

  /** The body of a successful history response. */
  datatype HistoryBody = HistoryBody(count: int, imagesBase64: seq<string>)

  /** GET /interera/history: 401 without a session cookie, 404 when the
      session has no stored image, otherwise every stored image in order,
      each encoded by `encode` (base64 in the source). */
  function HistoryResponse(req: Request, db: map<string, seq<Bytes>>, encode: Bytes -> string): (r: Result<HistoryBody, HttpError>)
    ensures r == Failure(Unauthorized) <==> !HasSession(req)
    ensures r == Failure(NotFound) <==> HasSession(req) && HistoryIn(db, req.cookies[SESSION_COOKIE]) == []
    ensures r.Failure? ==> r.error in {Unauthorized, NotFound}
    ensures r.Success? ==>
      var history := db[req.cookies[SESSION_COOKIE]];
      && HasSession(req) && req.cookies[SESSION_COOKIE] in db
      && r.value.count == |history| == |r.value.imagesBase64| > 0
      && forall i :: 0 <= i < |history| ==> r.value.imagesBase64[i] == encode(history[i])
  {
    match RequireExistingSession(req)
    case Failure(e) => Failure(e)
    case Success(sessionId) =>
      var history := HistoryIn(db, sessionId);
      if history == [] then Failure(NotFound)
      else Success(HistoryBody(|history|, EncodeAll(history, encode)))
  }

  /** The history endpoint reading the live store. */
  method GetIntereraHistory(db: TempDb, req: Request, encode: Bytes -> string) returns (r: Result<HistoryBody, HttpError>)
    ensures r == HistoryResponse(req, db.sessions, encode)
  {
    var sessionId := RequireExistingSession(req);
    if sessionId.Failure? {
      return Failure(sessionId.error);
    }
    var history := db.Get(sessionId.value);
    if history.None? || history.value == [] {
      return Failure(NotFound);
    }
    var h := history.value;
    r := Success(HistoryBody(|h|, EncodeAll(h, encode)));
  }

  /** On a store every POST keeps bounded, a session with a cookie is answered
      404 exactly when it has never been stored: a stored history is never empty. */
  lemma NotFoundMeansUnknown(req: Request, db: map<string, seq<Bytes>>, encode: Bytes -> string)
    requires Bounded(db) && HasSession(req)
    ensures HistoryResponse(req, db, encode) == Failure(NotFound) <==> req.cookies[SESSION_COOKIE] !in db
  {
  }

  /** A client that keeps the cookie of a successful generation and then asks
      for its history gets it: one more entry (up to MAX_HISTORY) than the
      session had, the last of which is the image just generated. */
  lemma GenerateThenHistory(
    before: map<string, seq<Bytes>>, after: map<string, seq<Bytes>>,
    req: Request, uploads: seq<Upload>, generated: Option<Bytes>,
    sniff: Bytes -> Option<string>, freshId: string,
    r: Result<ImageResponse, HttpError>, encode: Bytes -> string)
    requires PostOutcome(before, after, req, uploads, generated, sniff, freshId, r)
    requires IsUuidHex(freshId) && r.Success?
    ensures var session := EnsureSessionId(req, freshId);
            var h := HistoryResponse(WithCookie(req, r.value.setCookie), after, encode);
            && h.Success?
            && h.value.count == Min(|HistoryIn(before, session.id)| + 1, MAX_HISTORY)
            && h.value.imagesBase64[h.value.count - 1] == encode(r.value.content)
  {
    var img := GenerationOutcome(uploads, generated).value;
    var session := EnsureSessionId(req, freshId);
    var next := WithCookie(req, r.value.setCookie);
    SessionIsSticky(req, freshId, freshId);
    assert next.cookies[SESSION_COOKIE] == session.id;
    var stored := after[session.id];
    assert stored == AppendBounded(HistoryIn(before, session.id), img);
    assert stored[|stored| - 1] == img;
  }
}
