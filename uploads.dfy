/** Upload validation and media-type mapping of the interera router. */
module Uploads {
  import opened Wrappers
  import opened Http
  import opened Entity

  const JPEG: string := "image/jpeg"
  const PNG: string := "image/png"
  const WEBP: string := "image/webp"
  const OCTET_STREAM: string := "application/octet-stream"

  /** The MIME types an upload may declare. */
  const ALLOWED_IMAGE_TYPES: set<string> := {JPEG, PNG, WEBP}

  /** The MIME type an upload is judged by: the declared content type when it
      is non-empty, else the caller's fallback when non-empty, else "". */
  function EffectiveMime(contentType: Option<string>, fallback: Option<string>): (mime: string)
    ensures Truthy(contentType) ==> mime == contentType.value
    ensures !Truthy(contentType) && Truthy(fallback) ==> mime == fallback.value
    ensures mime == "" <==> !Truthy(contentType) && !Truthy(fallback)
  {
    if Truthy(contentType) then contentType.value
    else if Truthy(fallback) then fallback.value
    else ""
  }

  /** Validates one upload: the MIME type is checked first (415), the
      payload second (400); a valid upload is returned unchanged. */
  function ReadUpload(u: Upload, fallback: Option<string>): (r: Result<Media, HttpError>)
    ensures r == Failure(UnsupportedMediaType) <==> EffectiveMime(u.contentType, fallback) !in ALLOWED_IMAGE_TYPES
    ensures r == Failure(BadRequest) <==> EffectiveMime(u.contentType, fallback) in ALLOWED_IMAGE_TYPES && u.data == []
    ensures r.Failure? ==> r.error == UnsupportedMediaType || r.error == BadRequest
    ensures r.Success? ==> r.value == Media(u.data, EffectiveMime(u.contentType, fallback))
    ensures r.Success? ==> r.value.mediaType in ALLOWED_IMAGE_TYPES && r.value.mediaData != []
  {
    var mime := EffectiveMime(u.contentType, fallback);
    if mime !in ALLOWED_IMAGE_TYPES then Failure(UnsupportedMediaType)
    else if u.data == [] then Failure(BadRequest)
    else Success(Media(u.data, mime))
  }

  /** The type check wins over the emptiness check: an empty upload with a
      type outside the allow-list is refused with 415, not 400. */
  lemma UnsupportedTypeBeforeEmptiness(u: Upload, fallback: Option<string>)
    requires EffectiveMime(u.contentType, fallback) !in ALLOWED_IMAGE_TYPES
    ensures ReadUpload(u, fallback).Failure?
    ensures ReadUpload(u, fallback).error.Status() == 415
  {
  }

  /** An upload declared as text/plain is refused with 415 whatever it holds. */
  lemma PlainTextRefused(data: Bytes, fallback: Option<string>)
    ensures ReadUpload(Upload(Some("text/plain"), data), fallback) == Failure(UnsupportedMediaType)
  {
    assert "text/plain" != JPEG && "text/plain" != PNG && "text/plain" != WEBP;
  }

  /** Maps the kind reported by the magic-byte sniffer (absent when unknown)
      to a Content-Type. */
  function DetectMediaType(kind: Option<string>): (ct: string)
    ensures ct in ALLOWED_IMAGE_TYPES + {OCTET_STREAM}
    ensures ct == PNG <==> kind == Some("png")
    ensures ct == JPEG <==> kind == Some("jpeg") || kind == Some("jpg")
    ensures ct == WEBP <==> kind == Some("webp")
  {
    if kind == Some("png") then PNG
    else if kind == Some("jpeg") || kind == Some("jpg") then JPEG
    else if kind == Some("webp") then WEBP
    else OCTET_STREAM
  }

  /** An image served back under the type returned by DetectMediaType is
      accepted again as an upload exactly when the sniffer recognised it and
      it is not empty. */
  lemma DetectedTypeReaccepted(kind: Option<string>, data: Bytes)
    ensures ReadUpload(Upload(Some(DetectMediaType(kind)), data), None).Success?
        <==> kind in {Some("png"), Some("jpeg"), Some("jpg"), Some("webp")} && data != []
  {
    assert OCTET_STREAM !in ALLOWED_IMAGE_TYPES;
  }

  /** Index `k` is the first upload of `uploads` that fails validation. */
  predicate FirstFailure(uploads: seq<Upload>, k: int)
  {
    && 0 <= k < |uploads|
    && ReadUpload(uploads[k], None).Failure?
    && forall j :: 0 <= j < k ==> ReadUpload(uploads[j], None).Success?
  }

  /** Validating a list of uploads in order: the first refusal is raised,
      otherwise every upload becomes one Media, in order. Every upload is
      validated without a fallback type. */
  function ReadAll(uploads: seq<Upload>): (r: Result<seq<Media>, HttpError>)
    ensures r.Success? <==> forall i :: 0 <= i < |uploads| ==> ReadUpload(uploads[i], None).Success?
    ensures r.Success? ==> |r.value| == |uploads|
    ensures r.Success? ==> forall i :: 0 <= i < |uploads| ==> r.value[i] == ReadUpload(uploads[i], None).value
    ensures r.Failure? ==> exists k :: FirstFailure(uploads, k) && r.error == ReadUpload(uploads[k], None).error
  {
    if uploads == [] then Success([])
    else
      var head := ReadUpload(uploads[0], None);
      if head.Failure? then
        assert FirstFailure(uploads, 0);
        Failure(head.error)
      else
        var rest := ReadAll(uploads[1..]);
        if rest.Failure? then
          var k :| FirstFailure(uploads[1..], k) && rest.error == ReadUpload(uploads[1..][k], None).error;
          assert FirstFailure(uploads, k + 1);
          Failure(rest.error)
        else
          Success([head.value] + rest.value)
  }

  /** The validation loop of the generation step: each upload is read in
      turn and the first refusal ends the loop. */
  method ReadUploads(uploads: seq<Upload>) returns (r: Result<seq<Media>, HttpError>)
    ensures r == ReadAll(uploads)
  {
    var medias: seq<Media> := [];
    for i := 0 to |uploads|
      invariant |medias| == i
      invariant forall j :: 0 <= j < i ==> ReadUpload(uploads[j], None).Success?
      invariant forall j :: 0 <= j < i ==> medias[j] == ReadUpload(uploads[j], None).value
    {
      var m := ReadUpload(uploads[i], None);
      if m.Failure? {
        assert FirstFailure(uploads, i);
        var all := ReadAll(uploads);
        var k :| FirstFailure(uploads, k) && all.error == ReadUpload(uploads[k], None).error;
        assert k == i;
        return Failure(m.error);
      }
      medias := medias + [m.value];
    }
    var all := ReadAll(uploads);
    assert all.Success?;
    assert medias == all.value;
    r := Success(medias);
  }
}
