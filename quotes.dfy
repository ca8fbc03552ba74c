/** The records the signing service reads and writes: quote documents with a
    buyer and a seller party, and the blobs (PDF files) kept beside them. */
module Quotes {

  datatype Option<+T> = None | Some(value: T)

  type Byte = bv8
  type Bytes = seq<Byte>

  /** The value the clock hands over when a party signs; its encoding does not matter here. */
  type Timestamp = int

  /** A reference to a stored blob: its position in the blob store. */
  type BlobRef = nat

  /** The two parties of a quote. signing_service.py selects their fields by the strings
      "buyer" and "seller"; `Name` gives that string back. */
  datatype Role = Buyer | Seller {
    function Name(): string {
      match this
      case Buyer => "buyer"
      case Seller => "seller"
    }

    function Other(): (r: Role)
      ensures r != this
    {
      match this
      case Buyer => Seller
      case Seller => Buyer
    }
  }

  /** One party's sub-record. A missing `token_hash` is `None`; a missing `signed`
      flag reads as false. */
  datatype Party = Party(tokenHash: Option<string>, signed: bool, signedAt: Option<Timestamp>, fileId: Option<BlobRef>)

  /** A quote document. A missing `quote_id` reads as the empty string. */
  datatype Quote = Quote(quoteId: string, buyer: Party, seller: Party, status: string) {
    function PartyOf(role: Role): Party {
      match role
      case Buyer => buyer
      case Seller => seller
    }

    function WithParty(role: Role, p: Party): (q: Quote)
      ensures q.PartyOf(role) == p && q.PartyOf(role.Other()) == PartyOf(role.Other())
      ensures q.quoteId == quoteId && q.status == status
    {
      match role
      case Buyer => this.(buyer := p)
      case Seller => this.(seller := p)
    }
  }

  /** The status a quote should carry for a given pair of signed flags. */
  function StatusOf(buyerSigned: bool, sellerSigned: bool): string {
    if buyerSigned && sellerSigned then "fully_signed"
    else if buyerSigned then "buyer_signed"
    else if sellerSigned then "seller_signed"
    else "pending"
  }

  predicate StatusAgrees(q: Quote) {
    q.status == StatusOf(q.buyer.signed, q.seller.signed)
  }

  /** The `metadata.type` tags of the two kinds of blob. */
  const ORIGINAL_TYPE: string := "quote_original"
  const SIGNED_TYPE: string := "quote_signed"

  /** A stored file: its bytes, its file name and its metadata (type, quote id, role). */
  datatype Blob = Blob(data: Bytes, filename: string, kind: string, quoteId: string, role: Option<Role>)

  /** The first position at or after `from` whose element satisfies `p`; this is
      what a `find_one` over a collection in its natural order returns. */
  function FirstIndex<T>(s: seq<T>, p: T -> bool, from: nat): (r: Option<nat>)
    requires from <= |s|
    ensures r.None? <==> forall k :: from <= k < |s| ==> !p(s[k])
    ensures r.Some? ==> from <= r.value < |s| && p(s[r.value])
    ensures r.Some? ==> forall k :: from <= k < r.value ==> !p(s[k])
    decreases |s| - from
  {
    if from == |s| then None
    else if p(s[from]) then Some(from)
    else FirstIndex(s, p, from + 1)
  }
}
