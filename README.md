# interera router: a Dafny model

The interera backend takes room photographs and sends them, with a fixed instruction, to a remote image generator. It returns the generated image and keeps a short history of generated images for each browser session. This project models the router module `src/presentation/http/rest/api/v1/interera.py` and proves properties of that model:

- **The history store** (`temp_db`) is a class `HistoryCache.TempDb` holding a `map<string, seq<Bytes>>`. Its `Append` method updates the map in place the way `_append_to_session_cache` does: `setdefault`, then `append`, then dropping all but the last `MAX_HISTORY` (10) entries. The class invariant says every stored history is non-empty and holds at most 10 images. `Step` is the value-level specification of one append. `Replay` chains appends over any interleaving of sessions.
- **Upload validation** (`_read_upload`). The MIME type the upload is judged by is the declared content type, else the fallback, else `""`. An upload whose type is outside {image/jpeg, image/png, image/webp} is refused with 415. Only after that is an empty payload refused with 400.
- The upload loop of `_run_gemini`, and the judgement of the generator's reply (502 when it is missing or empty).
- **Media-type mapping** (`_detect_media_type`), applied to the kind reported by the magic-byte sniffer.
- **Session handling.** An incoming `session` cookie is reused. Otherwise a fresh token is adopted and a cookie is set (http-only, lax, not secure, max-age 604800).
- **The three endpoints:** the two POST handlers and the history endpoint. The history endpoint returns 401 without a cookie, 404 without a stored history, and otherwise `count` and one encoded string per stored image, in order.

Outside collaborators are parameters:
- `generated: Option<Bytes>` is the generator's reply.
- `sniff: Bytes -> Option<string>` stands for `imghdr.what`.
- `encode: Bytes -> string` stands for base64 encoding.
- `freshId` is the token `uuid.uuid4().hex` would produce. It is required to be 32 lower-case hex digits, as every uuid hex string is.

Python's `x or y` on optional strings is spelled out with `Http.Truthy`: an empty cookie or an empty content type counts as absent.

Three behaviours of the code the model keeps:
- Validation consults a fallback MIME type when the declared content type is absent or empty.
- An empty `session` cookie is treated like a missing one: 401 on the history endpoint, and a new session on the POST endpoints.
- The POST handlers resolve the session only after generation succeeds, so a refused request stores nothing and sets no cookie.

`_ensure_session_id` (interera.py:75-89) has no caller: both POST handlers repeat its rule inline (163 and 169-177, 195 and 199-207). `Sessions.EnsureSessionId` models the helper. The handlers' own inline steps are proved to agree with it, because both handler methods are specified by `Interera.PostOutcome`, which is stated through `EnsureSessionId`.

Modules: `Wrappers` (Option, Result), `Http` (framework values: errors, request cookies, response cookies, uploads), `Entity` (`Media`), `Uploads`, `Sessions`, `HistoryCache`, `Interera` (the endpoints).

## Model

| member | source | states |
|---|---|---|
| `Uploads.EffectiveMime` | src/presentation/http/rest/api/v1/interera.py:112 | the declared content type when non-empty, else the fallback when non-empty; `""` exactly when both are absent or empty |
| `Uploads.ReadUpload` | src/presentation/http/rest/api/v1/interera.py:111-121 | 415 iff the effective type is outside the allow-list; 400 iff the type is allowed and the data is empty; otherwise the data and type unchanged, with the type allowed and the data non-empty |
| `Uploads.UnsupportedTypeBeforeEmptiness` | src/presentation/http/rest/api/v1/interera.py:113-120 | a disallowed type is answered 415 whatever the payload, including an empty one |
| `Uploads.PlainTextRefused` | src/presentation/http/rest/api/v1/interera.py:113-117 | an upload declared `text/plain` is refused with 415 regardless of content |
| `Uploads.DetectMediaType` | src/presentation/http/rest/api/v1/interera.py:92-100 | png, jpeg/jpg and webp map to their image types (each an iff), everything else including no kind to application/octet-stream; the result is one of the four |
| `Uploads.DetectedTypeReaccepted` | src/presentation/http/rest/api/v1/interera.py:92-121 | an image uploaded under the type the router served it with passes validation iff the sniffer recognised it and it is non-empty |
| `Uploads.ReadAll` | src/presentation/http/rest/api/v1/interera.py:134-137 | success iff every upload validates, then one Media per upload in order; otherwise the error of the first upload that fails |
| `Uploads.ReadUploads` | src/presentation/http/rest/api/v1/interera.py:130-137 | the validation loop returns exactly what `ReadAll` specifies, stopping at the first refusal |
| `Http.HttpError.Status` | src/presentation/http/rest/api/v1/interera.py:113-217 | the status code of each raised error kind, as an iff per kind: 400 empty file (120), 401 missing cookie (150), 404 no history (217), 415 disallowed type (115), 502 no image (142) |
| `Sessions.HasSession` | src/presentation/http/rest/api/v1/interera.py:77 | Python truthiness of the session cookie: it holds iff a `session` cookie was sent and is non-empty; the same test is made at 149, 169 and 199 |
| `Sessions.GetSessionId` | src/presentation/http/rest/api/v1/interera.py:71-72 | the `session` cookie's value when one was sent, absent otherwise |
| `Sessions.SessionCookie` | src/presentation/http/rest/api/v1/interera.py:81-88 | the cookie is `session` = id, http-only, same-site lax, not secure, max-age 604800 |
| `Sessions.EnsureSessionId` | src/presentation/http/rest/api/v1/interera.py:75-89 | a non-empty incoming cookie is the id and no cookie is set; otherwise the fresh id is used and a session cookie carrying exactly it is set |
| `Sessions.SessionIsSticky` | src/presentation/http/rest/api/v1/interera.py:75-89 | a client that stores the cookie it was given is served under the same id next time, with no new cookie |
| `Sessions.RequireExistingSession` | src/presentation/http/rest/api/v1/interera.py:146-151 | 401 iff no non-empty session cookie was sent; otherwise the cookie's value |
| `HistoryCache.LastN` | src/presentation/http/rest/api/v1/interera.py:107-108 | the trim `del history[:-MAX_HISTORY]`: defined as the suffix slice of the input, with length min(n, len) as its ensures |
| `HistoryCache.LastNAbsorbs` | src/presentation/http/rest/api/v1/interera.py:107-108 | trimming to the last n, appending more and trimming again equals appending everything and trimming once |
| `HistoryCache.AppendBounded` | src/presentation/http/rest/api/v1/interera.py:104-108 | the new history has length min(old + 1, 10) and ends with the new image; below the bound it is old + [img], at the bound the oldest entry is dropped |
| `HistoryCache.HistoryIn` | src/presentation/http/rest/api/v1/interera.py:104-216 | a session's stored history, and the empty history for an unknown session, which is the `setdefault(session_id, [])` default at 104 and the `not history` reading of `temp_db.get` at 215-216 |
| `HistoryCache.Step` | src/presentation/http/rest/api/v1/interera.py:103-108 | the appended session is present afterwards with its bounded history; every other session's entry is unchanged and no other key is added |
| `HistoryCache.StepKeepsBounded` | src/presentation/http/rest/api/v1/interera.py:103-108 | an append keeps every stored history non-empty and at most MAX_HISTORY long |
| `HistoryCache.StepCreatesSession` | src/presentation/http/rest/api/v1/interera.py:104-105 | appending to an unknown session creates it with history [img] |
| `HistoryCache.StepSeenFrom` | src/presentation/http/rest/api/v1/interera.py:103-108 | seen from one session, its own append extends and trims it, another session's append leaves it as it was |
| `HistoryCache.ReplayHistory` | src/presentation/http/rest/api/v1/interera.py:103-108 | after any interleaving of appends, a session's history is the last 10 of its old history followed by its own new images, in order |
| `HistoryCache.ReplaySessions` | src/presentation/http/rest/api/v1/interera.py:104 | after a run of appends, a session is stored iff it was stored before or some append was for it |
| `HistoryCache.HistoryAfterGenerations` | src/presentation/http/rest/api/v1/interera.py:103-108 | from an empty store, after N generations for a session its history has length min(N, 10) and is the last entries of those N images, in order |
| `HistoryCache.TempDb.Get` | src/presentation/http/rest/api/v1/interera.py:215 | `temp_db.get`: present iff the session is stored, with its stored history |
| `HistoryCache.TempDb.Append` | src/presentation/http/rest/api/v1/interera.py:103-108 | the in-place update leaves the store equal to `Step` of the old store and keeps the class invariant |
| `HistoryCache.TempDb.constructor` | src/presentation/http/rest/api/v1/interera.py:22 | the store starts empty and satisfies the invariant |
| `Interera.GeneratedImage` | src/presentation/http/rest/api/v1/interera.py:141-143 | a missing or empty reply is 502; otherwise the reply's bytes |
| `Interera.GenerationOutcome` | src/presentation/http/rest/api/v1/interera.py:124-143 | a validation refusal comes before the generator's reply is judged; errors are only 415, 400 or 502; a success is a non-empty image |
| `Interera.RunGemini` | src/presentation/http/rest/api/v1/interera.py:124-143 | the generation step returns exactly `GenerationOutcome` |
| `Interera.PostOutcome` | src/presentation/http/rest/api/v1/interera.py:161-208 | what both POST handlers do: a refusal leaves the store unchanged; a success appends the image to `EnsureSessionId`'s session, adds only that key, and sets a cookie iff the request had no session |
| `Interera.CreateInterera` | src/presentation/http/rest/api/v1/interera.py:154-179 | on a refusal the store is unchanged and the error is returned; on success the image is appended to the resolved session and returned with its sniffed type and the session cookie when one was minted |
| `Interera.CreateIntereraInpaint` | src/presentation/http/rest/api/v1/interera.py:182-208 | as for the plain endpoint, with the image validated before the mask |
| `Interera.EncodeAll` | src/presentation/http/rest/api/v1/interera.py:221 | one encoding per stored image, same length, the i-th the encoding of the i-th image |
| `Interera.HistoryResponse` | src/presentation/http/rest/api/v1/interera.py:211-222 | 401 iff no session cookie; 404 iff a cookie but an absent or empty history; otherwise count == len(history) == number of encodings > 0, and the i-th encoding is that of the i-th stored image |
| `Interera.GetIntereraHistory` | src/presentation/http/rest/api/v1/interera.py:211-222 | the endpoint reading the live store answers exactly `HistoryResponse` |
| `Interera.NotFoundMeansUnknown` | src/presentation/http/rest/api/v1/interera.py:215-217 | on a store the invariant holds for, a cookie-bearing request gets 404 iff its session was never stored |
| `Interera.GenerateThenHistory` | src/presentation/http/rest/api/v1/interera.py:163-222 | after a successful generation, a history request carrying the resulting cookie succeeds with count min(old + 1, 10), and its last encoding is that of the image just returned |

## Left out

- The request to the remote generator and its PNG re-encoding (`gemini_service.py`) are foreign calls. The reply is a parameter. The router passes the keyword `medias=` (interera.py:140) to a method whose parameter is `media`, a single `Media` (gemini_service.py:18). As written, that call raises `TypeError`, so every POST that passes validation ends in an unhandled 500 and `temp_db` is never written. The model assumes a call that returns a reply, and applies only the 502 rule to that reply.
- The debug writes of every upload to a `debug/` directory inside `_run_gemini` are filesystem I/O.
- The prompt texts and the formatting of `optional_detail` into the inpaint prompt only shape the opaque generator's input. The inpaint handler therefore takes no `optional_detail` parameter.
- The `image/png` fallback for an upload named `mask` cannot be reached: the handlers pass no names, so the names are `img1` and `img2`. `ReadAll` validates every upload with no fallback. `ReadUpload` keeps the fallback parameter.
- The human-readable `detail` strings of the raised errors are left out. The model keeps the error kind and its status code (`Http.HttpError.Status`).
- Magic-byte sniffing (`imghdr`), base64 encoding and uuid generation are library internals. They are the parameters `sniff`, `encode` and `freshId`.
- Concurrent requests, including racing appends to the same session, are left out. The model is sequential.
- The debug `print` of the session id is left out.
- The framework wiring (`app/app.py`, `app/di.py`), the exception handler and the unused exception classes are left out.
