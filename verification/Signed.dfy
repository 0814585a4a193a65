/** The fail-closed check shared by every artifact an anchor signs. */
module Signed {
  import opened Wrappers
  import opened Transcript

  datatype SignedError = WrongIssuer | BadSignature | PastExpiry

  function VerifyAnchorSigned(issuerDid: Str, digest: Hash, signature: Text, notAfter: Option<Instant>, now: Instant,
                              anchor: TrustAnchor): Result<(), SignedError> {
    if issuerDid != anchor.did then Err(WrongIssuer)
    else if !Verifies(anchor.key, digest, signature) then Err(BadSignature)
    else if notAfter.Some? && now > notAfter.value then Err(PastExpiry)
    else Ok(())
  }

  /** A whole second is past an instant exactly when it is past the instant's second, which is
      all that a digest shows of it. */
  lemma WholeSecondExpiry(seconds: i64, a: Instant, b: Instant)
    requires Seconds(a) == Seconds(b)
    ensures seconds * 1_000_000_000 > a <==> seconds * 1_000_000_000 > b
  {
  }
}
