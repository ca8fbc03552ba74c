/** One signing attempt (`POST /sign/<token>`): resolve the token, check the
    upload and the original, draw the signature, store the signed PDF and
    record the signature on the quote. */
module Signing {
  import opened Quotes
  import opened TokenAuth
  import opened Overlay

  /** Layout of the two-column signature block: the seller signs on the right,
      the buyer on the left, both 120 units above the bottom of page 1. */
  const SELLER_X: real := 380.0
  const BUYER_X: real := 120.0
  const ANCHOR_Y: real := 120.0

  function AnchorX(role: Role): real {
    if role == Seller then SELLER_X else BUYER_X
  }

  /** What the request handler answers: 404, 400 with its message, or the signed PDF
      as an attachment under `downloadName`. */
  datatype Response = NotFound404 | BadRequest400(message: string) | SignedPdf(pdf: Bytes, downloadName: string)

  /** The blob the service reads as the quote's original PDF: the first one
      tagged as an original of that quote id. */
  predicate IsOriginalOf(b: Blob, qid: string) {
    b.kind == ORIGINAL_TYPE && b.quoteId == qid
  }

  function FindOriginal(blobs: seq<Blob>, qid: string): (r: Option<BlobRef>)
    ensures r.None? <==> forall k :: 0 <= k < |blobs| ==> !IsOriginalOf(blobs[k], qid)
    ensures r.Some? ==> r.value < |blobs| && IsOriginalOf(blobs[r.value], qid)
    ensures r.Some? ==> forall k :: 0 <= k < r.value ==> !IsOriginalOf(blobs[k], qid)
  {
    FirstIndex(blobs, b => IsOriginalOf(b, qid), 0)
  }

  /** The file name of a signed copy, used both for the stored blob and for the download. */
  function SignedFileName(qid: string, role: Role): string {
    qid + "-" + role.Name() + "-signed.pdf"
  }

  /** The `$set` update of a sign: the role's `signed`, `signed_at` and
      `file_id`, and a status computed from the other party's flag as it was
      before the update. `sign_post` spells the non-final status
      f"{role}_signed}"; Python rejects a single closing brace in an f-string
      when it parses the module, so signing_service.py does not load as
      written. The model writes what it evidently means, role + "_signed". */
  function ApplySign(q: Quote, role: Role, now: Timestamp, fid: BlobRef): (r: Quote)
    ensures r.PartyOf(role) == q.PartyOf(role).(signed := true, signedAt := Some(now), fileId := Some(fid))
    ensures r.PartyOf(role.Other()) == q.PartyOf(role.Other())
    ensures r.quoteId == q.quoteId
    ensures r.status == "fully_signed" <==> q.PartyOf(role.Other()).signed
    ensures StatusAgrees(r)
  {
    var p := q.PartyOf(role);
    var status :=
      if (role == Buyer && q.seller.signed) || (role == Seller && q.buyer.signed) then "fully_signed"
      else role.Name() + "_signed";
    assert role.Name() + "_signed" == (if role == Buyer then "buyer_signed" else "seller_signed");
    q.WithParty(role, p.(signed := true, signedAt := Some(now), fileId := Some(fid))).(status := status)
  }

  /** The quote collection and the file store. */
  datatype Store = Store(quotes: seq<Quote>, blobs: seq<Blob>)

  /** One sign request against a store: the response and the store afterwards.
      `signature` is the uploaded `signature` file (`None` when the request has
      none), `now` the clock reading. As in `sign_post`, a role that has already
      signed is signed again: a new PDF is composed and stored and the role's
      `file_id` is overwritten. */
  function Sign(s: Store, htok: KeyedHash, rend: Renderer, token: string, signature: Option<Bytes>, now: Timestamp): (out: (Response, Store))
    ensures !out.0.SignedPdf? ==> out.1 == s
    ensures |out.1.quotes| == |s.quotes|
    ensures |out.1.blobs| == |s.blobs| + (if out.0.SignedPdf? then 1 else 0)
    ensures out.1.blobs[..|s.blobs|] == s.blobs
  {
    match FindByToken(s.quotes, htok, token)
    case NotFound => (NotFound404, s)
    case Found(i, role) =>
      if signature.None? then (BadRequest400("signature required"), s)
      else
        var q := s.quotes[i];
        match FindOriginal(s.blobs, q.quoteId)
        case None => (BadRequest400("original pdf missing"), s)
        case Some(o) =>
          var pdf := OverlaySignature(rend, s.blobs[o].data, signature.value, AnchorX(role), ANCHOR_Y, DEFAULT_WIDTH);
          var name := SignedFileName(q.quoteId, role);
          var blob := Blob(pdf, name, SIGNED_TYPE, q.quoteId, Some(role));
          (SignedPdf(pdf, name), Store(s.quotes[i := ApplySign(q, role, now, |s.blobs|)], s.blobs + [blob]))
  }

  /** A party's signature is recorded consistently: a signed party has a
      timestamp and a reference to a stored signed copy of this quote for this role. */
  predicate PartyRecorded(q: Quote, role: Role, blobs: seq<Blob>) {
    var p := q.PartyOf(role);
    p.signed ==>
      p.signedAt.Some? && p.fileId.Some? && p.fileId.value < |blobs| &&
      blobs[p.fileId.value].kind == SIGNED_TYPE &&
      blobs[p.fileId.value].quoteId == q.quoteId &&
      blobs[p.fileId.value].role == Some(role)
  }

  predicate QuoteValid(q: Quote, blobs: seq<Blob>) {
    StatusAgrees(q) && PartyRecorded(q, Buyer, blobs) && PartyRecorded(q, Seller, blobs)
  }

  /** The store invariant: every quote's status is the one its two flags call
      for, and every signature it records points at its signed copy. */
  predicate Valid(s: Store) {
    forall k :: 0 <= k < |s.quotes| ==> QuoteValid(s.quotes[k], s.blobs)
  }

  // ---------------------------------------------------------------------------
  // Properties of a sign

  /** Each error path gives its response exactly when its guard fails, in the
      order `sign_post` checks them, and leaves the store as it was. */
  lemma SignErrors(s: Store, htok: KeyedHash, rend: Renderer, token: string, signature: Option<Bytes>, now: Timestamp)
    ensures var (resp, s') := Sign(s, htok, rend, token, signature, now);
      && (!resp.SignedPdf? ==> s' == s)
      && (resp == NotFound404 <==> FindByToken(s.quotes, htok, token).NotFound?)
      && (resp == BadRequest400("signature required") <==>
            FindByToken(s.quotes, htok, token).Found? && signature.None?)
      && (resp == BadRequest400("original pdf missing") <==>
            var res := FindByToken(s.quotes, htok, token);
            res.Found? && signature.Some? && FindOriginal(s.blobs, s.quotes[res.index].quoteId).None?)
  {
  }

  /** A successful sign by `role` on quote `i`: exactly one blob is appended,
      tagged as the signed copy of that quote for that role and holding the
      returned PDF, drawn from the original at the role's anchor; quote `i` is
      updated by `ApplySign` with a reference to the new blob, and every other
      quote is unchanged. */
  lemma SignSuccess(s: Store, htok: KeyedHash, rend: Renderer, token: string, sig: Bytes, now: Timestamp)
    requires FindByToken(s.quotes, htok, token).Found?
    requires FindOriginal(s.blobs, s.quotes[FindByToken(s.quotes, htok, token).index].quoteId).Some?
    ensures var res := FindByToken(s.quotes, htok, token);
      var (i, role) := (res.index, res.role);
      var q := s.quotes[i];
      var orig := s.blobs[FindOriginal(s.blobs, q.quoteId).value];
      var (resp, s') := Sign(s, htok, rend, token, Some(sig), now);
      && resp.SignedPdf?
      && resp.pdf == OverlaySignature(rend, orig.data, sig, AnchorX(role), ANCHOR_Y, DEFAULT_WIDTH)
      && resp.downloadName == SignedFileName(q.quoteId, role)
      && |s'.blobs| == |s.blobs| + 1 && s'.blobs[..|s.blobs|] == s.blobs
      && s'.blobs[|s.blobs|] == Blob(resp.pdf, resp.downloadName, SIGNED_TYPE, q.quoteId, Some(role))
      && |s'.quotes| == |s.quotes|
      && s'.quotes[i] == ApplySign(q, role, now, |s.blobs|)
      && (forall k :: 0 <= k < |s.quotes| && k != i ==> s'.quotes[k] == s.quotes[k])
  {
  }

  /** After any sign, the signing party is recorded as signed and the quote's
      status is `fully_signed` exactly when both parties are signed. */
  lemma SignedStatus(s: Store, htok: KeyedHash, rend: Renderer, token: string, sig: Bytes, now: Timestamp)
    requires FindByToken(s.quotes, htok, token).Found?
    requires FindOriginal(s.blobs, s.quotes[FindByToken(s.quotes, htok, token).index].quoteId).Some?
    ensures var res := FindByToken(s.quotes, htok, token);
      var q' := Sign(s, htok, rend, token, Some(sig), now).1.quotes[res.index];
      && q'.PartyOf(res.role).signed
      && (q'.status == "fully_signed" <==> q'.buyer.signed && q'.seller.signed)
      && (q'.status == "fully_signed" <==> s.quotes[res.index].PartyOf(res.role.Other()).signed)
      && (!q'.PartyOf(res.role.Other()).signed ==> q'.status == res.role.Name() + "_signed")
  {
  }

  /** Every sign, successful or not, keeps the store invariant. */
  lemma SignPreservesValid(s: Store, htok: KeyedHash, rend: Renderer, token: string, signature: Option<Bytes>, now: Timestamp)
    requires Valid(s)
    ensures Valid(Sign(s, htok, rend, token, signature, now).1)
  {
    var (resp, s') := Sign(s, htok, rend, token, signature, now);
    if resp.SignedPdf? {
      SignSuccess(s, htok, rend, token, signature.value, now);
      assert forall k :: 0 <= k < |s.blobs| ==> s'.blobs[k] == s.blobs[k];
      forall k | 0 <= k < |s'.quotes|
        ensures QuoteValid(s'.quotes[k], s'.blobs)
      {
        assert QuoteValid(s.quotes[k], s.blobs);
      }
    }
  }

  /** Signing again is not a no-op: a role that already signed gets a new
      signed copy, and its `file_id` moves off the copy it pointed at. */
  lemma ResignOverwrites(s: Store, htok: KeyedHash, rend: Renderer, token: string, sig: Bytes, now: Timestamp)
    requires Valid(s)
    requires FindByToken(s.quotes, htok, token).Found?
    requires s.quotes[FindByToken(s.quotes, htok, token).index].PartyOf(FindByToken(s.quotes, htok, token).role).signed
    requires FindOriginal(s.blobs, s.quotes[FindByToken(s.quotes, htok, token).index].quoteId).Some?
    ensures var res := FindByToken(s.quotes, htok, token);
      var s' := Sign(s, htok, rend, token, Some(sig), now).1;
      && |s'.blobs| == |s.blobs| + 1
      && s'.quotes[res.index].PartyOf(res.role).fileId == Some(|s.blobs|)
      && s'.quotes[res.index].PartyOf(res.role).fileId != s.quotes[res.index].PartyOf(res.role).fileId
  {
  }

  /** Buyer and seller signing a fresh quote, in either order, leave it fully signed. */
  lemma BothSignFullySigned(q: Quote, first: Role, t1: Timestamp, f1: BlobRef, t2: Timestamp, f2: BlobRef)
    requires !q.buyer.signed && !q.seller.signed
    ensures ApplySign(q, first, t1, f1).status == first.Name() + "_signed"
    ensures ApplySign(ApplySign(q, first, t1, f1), first.Other(), t2, f2).status == "fully_signed"
  {
  }

  /** The anchor of each role, and where the signature's bottom edge lands on the page. */
  lemma AnchorPlacement(rend: Renderer, pdf: Bytes, png: Bytes, role: Role)
    ensures var box := SignatureBox(rend, pdf, png, AnchorX(role), ANCHOR_Y, DEFAULT_WIDTH);
      && box.x0 == (if role == Seller then 380.0 else 120.0)
      && box.x1 == box.x0 + 180.0
      && box.y1 == rend.pageHeight(pdf) - 120.0
  {
  }

  // ---------------------------------------------------------------------------
  // The service with its two stores as mutable state

  class SigningService {
    var quotes: seq<Quote>
    var blobs: seq<Blob>

    constructor (quotes0: seq<Quote>, blobs0: seq<Blob>)
      ensures quotes == quotes0 && blobs == blobs0
    {
      quotes, blobs := quotes0, blobs0;
    }

    function State(): Store
      reads this
    {
      Store(quotes, blobs)
    }

    /** `sign_post`: the guards in order, then one blob appended and one quote updated. */
    method SignPost(htok: KeyedHash, rend: Renderer, token: string, signature: Option<Bytes>, now: Timestamp)
      returns (resp: Response)
      modifies this
      ensures (resp, State()) == Sign(old(State()), htok, rend, token, signature, now)
      ensures old(Valid(State())) ==> Valid(State())
    {
      ghost var s := State();
      if Valid(s) {
        SignPreservesValid(s, htok, rend, token, signature, now);
      }
      var res := FindByToken(quotes, htok, token);
      if res.NotFound? {
        return NotFound404;
      }
      var i, role := res.index, res.role;
      if signature.None? {
        return BadRequest400("signature required");
      }
      var q := quotes[i];
      var orig := FindOriginal(blobs, q.quoteId);
      if orig.None? {
        return BadRequest400("original pdf missing");
      }
      var pdf := OverlaySignature(rend, blobs[orig.value].data, signature.value, AnchorX(role), ANCHOR_Y, DEFAULT_WIDTH);
      var name := SignedFileName(q.quoteId, role);
      var fid := |blobs|;
      blobs := blobs + [Blob(pdf, name, SIGNED_TYPE, q.quoteId, Some(role))];
      quotes := quotes[i := ApplySign(q, role, now, fid)];
      resp := SignedPdf(pdf, name);
    }
  }
}
