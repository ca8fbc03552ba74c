# Quote signing service: a verified model

The service lets the buyer and the seller of a quote each sign their copy of
the quote's PDF. Each party holds a bearer token; the service stores only a
keyed hash of it. A `POST /sign/<token>` runs four steps:
1. It resolves the token to the first quote whose buyer or seller hash matches.
2. It checks that a `signature` image was uploaded and that the quote's
   original PDF is stored.
3. It draws the image onto page 1 at the role's anchor and stores the result
   as a new blob.
4. It records the signature in the quote with a `$set` update and recomputes
   the quote's status.

The model has four modules:
- `Quotes` (`quotes.dfy`) holds the records: quotes with a buyer and a seller
  party, blobs with their metadata, the status that a pair of signed flags
  calls for, and first-match lookup.
- `TokenAuth` (`token_auth.dfy`) holds token resolution (`find_by_token`).
  The keyed hash `htok` is any function `string -> string`.
- `Overlay` (`overlay.dfy`) holds the placement arithmetic of
  `overlay_signature`, over exact `real`s. The PDF library enters as a
  `Renderer`: a record of functions giving the page height, the image width
  and height, and the bytes after drawing the image.
- `Signing` (`signing.dfy`) holds the sign transition. `Sign` is a pure
  function from a store (the quote collection, the blob store) to a response
  and a new store. The class `SigningService` keeps both collections as
  mutable fields, and its `SignPost` method changes them step by step as
  `sign_post` does. `SignPost` is proved to agree with `Sign` and to keep the
  store invariant `Valid`.

The store invariant `Signing.Valid` has two parts:
- Every quote's status is the one that its two signed flags call for.
- Every signed party has a timestamp and a `file_id`. That `file_id` points at
  a stored blob tagged `quote_signed` for the same quote and role.

The model follows the code in three places a reader might not expect:
- A role that has already signed is signed again. A new PDF is composed and
  stored, and the role's `file_id` and `signed_at` are overwritten. There is
  no idempotent short-circuit (`Signing.ResignOverwrites`).
- An image narrower than 1 unit, including width 0, is not rejected. Its width
  is clamped to 1 before the division (`Overlay.Placement`).
- Line 100 of `signing_service.py` spells the non-final status as
  `f"{role}_signed}"`. Python rejects a single `}` in an f-string when it
  parses the module, so nothing in the file runs as written and there is no
  as-written behaviour to model. The model uses the evident intent,
  `role + "_signed"`, and says so in a comment on `Signing.ApplySign`.

## Model

| member | source | states |
|---|---|---|
| `Quotes.FirstIndex` | signing_service.py:35 | the result is the first position whose element satisfies the predicate; there is none exactly when no element does |
| `TokenAuth.FindByToken` | signing_service.py:33-39 | no result exactly when no quote has a buyer or seller hash equal to `htok(tok)`; otherwise the first matching quote, with role buyer exactly when its buyer hash matches (so buyer wins when both match), and the resolved party's hash equals `htok(tok)` |
| `TokenAuth.DistinctTokensDistinctRoles` | signing_service.py:33-39 | two tokens whose hashes differ never resolve to the same role of the same quote |
| `Overlay.Placement` | signing_service.py:45-50 | the box's left edge is `x` and its width is exactly `w`; its bottom edge is `page_height - y`; with image width at least 1 the height satisfies `h * iw == ih * w`; below 1 the width is clamped to 1, so `h == ih * w` and nothing divides by zero |
| `Overlay.AspectRatioPreserved` | signing_service.py:47-50 | for an image at least 1 wide and a positive target width, the box's height-to-width ratio equals the image's |
| `Signing.AnchorPlacement` | signing_service.py:93 | a seller signature is boxed from x=380, a buyer signature from x=120, each 180 wide, with the bottom edge 120 above the bottom of page 1 |
| `Signing.FindOriginal` | signing_service.py:90 | the original is the first blob tagged `quote_original` with the quote's id; there is none exactly when no blob is so tagged |
| `Signing.ApplySign` | signing_service.py:97-101 | the signing role becomes signed with `signed_at = now` and `file_id = fid`, keeping its token hash; the other party and the quote id are unchanged; the status is `fully_signed` exactly when the other party was already signed, and it always agrees with the two flags |
| `Overlay.OverlaySignature` | signing_service.py:41-54 | the signed PDF is what the PDF library (a `Renderer`) produces when it draws the image into a box whose left edge is `x`, whose width is `w`, whose bottom edge is `page_height - y`, and whose height is the image height scaled by `w / max(iw, 1)` (`h * iw == ih * w` for images at least 1 wide, `h == ih * w` below); these are `Placement`'s clauses, so the box is fully determined |
| `Signing.Sign` | signing_service.py:81-103 | one sign request: a non-success response leaves the store unchanged; the quote collection keeps its length; the blob store is append-only, growing by one blob on success and by none otherwise; its full contract is carried by `Signing.SignErrors`, `Signing.SignSuccess`, `Signing.SignedStatus` and `Signing.SignPreservesValid` |
| `Signing.SignErrors` | signing_service.py:83-92 | 404 exactly when the token resolves to nothing; 400 "signature required" exactly when it resolves but no file was uploaded; 400 "original pdf missing" exactly when both pass but no original is stored; on every non-success response the store is unchanged |
| `Signing.SignSuccess` | signing_service.py:93-103 | on success: exactly one blob is appended, holding the returned PDF, named `<quote_id>-<role>-signed.pdf` and tagged `quote_signed` with the quote id and role; the PDF is the original with the signature drawn at the role's anchor, 120 up and 180 wide; only the resolved quote changes, by `ApplySign` with the new blob's reference |
| `Signing.SignedStatus` | signing_service.py:97-100 | after a sign, the role is signed and the status is `fully_signed` exactly when both flags are set, which is exactly when the other party had already signed; otherwise it is `<role>_signed` |
| `Signing.SignPreservesValid` | signing_service.py:81-103 | every sign request, successful or not, keeps the store invariant: status agrees with the flags and every signature points at its own signed copy |
| `Signing.ResignOverwrites` | signing_service.py:93-98 | signing again as a role that already signed still appends a new blob, and the role's `file_id` moves to it and away from the previous copy |
| `Signing.BothSignFullySigned` | signing_service.py:99-100 | on a quote that neither party has signed, the first signer leaves status `<role>_signed` and the second leaves `fully_signed`, in either order |
| `Signing.SigningService.SignPost` | signing_service.py:81-103 | the response and the new collections are those `Sign` gives for the old ones; the store invariant is preserved |

## Left out

- HTTP routing, the `GET /sign/<token>` page with its "Already signed." notice, the `SIGN_FORM` template, `/health` and `send_file` are left out. They are request and response plumbing. The response is modelled as 404, 400 with its message, or the PDF with its download name.
- Environment reading, the `MONGO_URI` prefix check, the debug print and `app.run` are left out. They are process startup.
- MongoDB and GridFS are replaced by two sequences: quotes in natural order and blobs. A quote's position stands for its `_id`, and a blob's position stands for its file id. `find_one` is first match.
- Store failures are not modelled: the in-memory store never fails. In the service, `fs.put` can succeed and `update_one` then fail, which leaves a signed blob that no quote references.
- The model does not capture concurrency or the atomicity of `update_one`: `sign_post` reads the quote and updates it later in a separate call.
- HMAC-SHA256 is left out. `htok` is an arbitrary function, so nothing about the strength of the hash is modelled.
- PyMuPDF is left out: opening the PDF and the image, reading their sizes, `insert_image` and `save`. It enters as functions, and library failures on corrupt input (a 500 in the service) are not modelled.
- IEEE floating point is left out. The geometry uses exact `real` arithmetic.
- `datetime.utcnow()` is left out. The timestamp is a parameter.
- Missing fields are not kept apart from defaults. An absent `quote_id` reads as the empty string and an absent `signed` flag as false, which is how the `.get` calls in signing_service.py read a quote. Two cases cannot be represented: a `buyer` or `seller` sub-document stored as null, where `.get` raises and the service answers 500; and a blob with no `quote_id` in its metadata, which Mongo's filter `"metadata.quote_id": ""` does not match, whereas the model's blobs always carry a quote id.
- The uploaded file is modelled as present or absent. Werkzeug treats an upload with an empty file name as absent, and the model folds that case into absent.
