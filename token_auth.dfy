/** Resolving a bearer token to the quote and the role it was issued for. */
module TokenAuth {
  import opened Quotes

  /** The keyed digest of a token. The service uses HMAC-SHA256 under its
      signing secret; the model takes any function. */
  type KeyedHash = string -> string

  /** A quote answers to a token hash when either party's stored hash equals it. */
  predicate Matches(q: Quote, th: string) {
    q.buyer.tokenHash == Some(th) || q.seller.tokenHash == Some(th)
  }

  datatype Resolution = NotFound | Found(index: nat, role: Role)

  /** The first quote whose buyer or seller hash equals `htok(tok)`, with the role
      that matched: buyer whenever the buyer hash matches, seller otherwise. */
  function FindByToken(quotes: seq<Quote>, htok: KeyedHash, tok: string): (r: Resolution)
    ensures r.NotFound? <==> forall k :: 0 <= k < |quotes| ==> !Matches(quotes[k], htok(tok))
    ensures r.Found? ==> r.index < |quotes| && Matches(quotes[r.index], htok(tok))
    ensures r.Found? ==> forall k :: 0 <= k < r.index ==> !Matches(quotes[k], htok(tok))
    ensures r.Found? ==> (r.role == Buyer <==> quotes[r.index].buyer.tokenHash == Some(htok(tok)))
    ensures r.Found? ==> quotes[r.index].PartyOf(r.role).tokenHash == Some(htok(tok))
  {
    var th := htok(tok);
    match FirstIndex(quotes, q => Matches(q, th), 0)
    case None => NotFound
    case Some(i) => Found(i, if quotes[i].buyer.tokenHash == Some(th) then Buyer else Seller)
  }

  /** Two tokens whose hashes differ never resolve to the same role of the same quote. */
  lemma DistinctTokensDistinctRoles(quotes: seq<Quote>, htok: KeyedHash, t1: string, t2: string)
    requires htok(t1) != htok(t2)
    requires FindByToken(quotes, htok, t1).Found? && FindByToken(quotes, htok, t2).Found?
    requires FindByToken(quotes, htok, t1).index == FindByToken(quotes, htok, t2).index
    ensures FindByToken(quotes, htok, t1).role != FindByToken(quotes, htok, t2).role
  {
  }
}
