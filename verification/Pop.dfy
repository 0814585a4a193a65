/** Proof of possession: the challenge a leaf agent signs and the window in which the proof is
    fresh. */
module Pop {
  import opened Wrappers
  import opened Did
  import opened Transcript

  const FUTURE_SKEW_SECS := 5

  datatype PopChallenge = PopChallenge(nonce: Str, audience: Option<Str>, issuedAt: Instant,
                                       requestBinding: Option<Str>)
  {
    function Preimage(tokenBinding: Str): seq<Symbol> {
      Domain("agentcreds-pop-v1")
      + (StrField(nonce)
      + (OptField(audience)
      + (Le64(Seconds(issuedAt))
      + (OptField(requestBinding)
      + Bytes(tokenBinding)))))
    }

    function Digest(tokenBinding: Str): Hash {
      Sha256(Preimage(tokenBinding))
    }

    /** The holder's request binding is not compared. */
    predicate Matches(issued: PopChallenge) {
      nonce == issued.nonce && audience == issued.audience && issuedAt == issued.issuedAt
    }
  }

  /** The token binding is written bare, and comes last: two digests agree exactly when the
      challenges agree to the second and the bindings are equal. */
  lemma ChallengeDigestExact(a: PopChallenge, x: Str, b: PopChallenge, y: Str)
    ensures a.Digest(x) == b.Digest(y)
            <==> (&& a.nonce == b.nonce && a.audience == b.audience && Seconds(a.issuedAt) == Seconds(b.issuedAt)
                  && a.requestBinding == b.requestBinding && x == y)
  {
    if a.Preimage(x) == b.Preimage(y) {
      var d := Domain("agentcreds-pop-v1");
      var a3, b3 := OptField(a.requestBinding) + Bytes(x), OptField(b.requestBinding) + Bytes(y);
      var a2, b2 := Le64(Seconds(a.issuedAt)) + a3, Le64(Seconds(b.issuedAt)) + b3;
      var a1, b1 := OptField(a.audience) + a2, OptField(b.audience) + b2;
      SplitAt(d, StrField(a.nonce) + a1, d, StrField(b.nonce) + b1);
      StrFieldPrefix(a.nonce, b.nonce, a1, b1);
      OptFieldPrefix(a.audience, b.audience, a2, b2);
      Le64Prefix(Seconds(a.issuedAt), Seconds(b.issuedAt), a3, b3);
      OptFieldPrefix(a.requestBinding, b.requestBinding, Bytes(x), Bytes(y));
      BytesInjective(x, y);
    }
  }

  // -- The freshness window -------------------------------------------------------------

  /** Whole seconds of a duration in nanoseconds, rounded toward zero. */
  function WholeSeconds(d: int): int {
    if d >= 0 then d / 1_000_000_000 else -((-d) / 1_000_000_000)
  }

  predicate Fresh(issuedAt: Instant, now: Instant, maxAgeSecs: i64) {
    var age := WholeSeconds(now - issuedAt);
    -FUTURE_SKEW_SECS <= age <= maxAgeSecs
  }

  /** Rounding toward zero widens the window by almost a second at both ends: a challenge is
      fresh strictly between 6 seconds before its time and `maxAge + 1` seconds after. */
  lemma FreshExact(issuedAt: Instant, now: Instant, maxAgeSecs: i64)
    requires maxAgeSecs >= 0
    ensures Fresh(issuedAt, now, maxAgeSecs)
            <==> issuedAt - 6_000_000_000 < now < issuedAt + (maxAgeSecs + 1) * 1_000_000_000
  {
  }

  // -- Proofs ---------------------------------------------------------------------------

  /** What a proof is checked against: the leaf of a token. */
  datatype Leaf = Leaf(did: Str, binding: Str)

  datatype ProofOfPossession = ProofOfPossession(leafDid: Str, tokenBinding: Str, challenge: PopChallenge,
                                                 signature: Text)

  datatype PopError = WrongChallenge | Stale | FromTheFuture | WrongToken | WrongLeaf | BadKey | BadSignature | Unrooted
                    | WrongRequest

  function VerifyAt(keys: KeyParser, proof: ProofOfPossession, leaf: Leaf, issued: PopChallenge, maxAgeSecs: i64,
                    now: Instant)
    : Result<(), PopError>
  {
    var age := WholeSeconds(now - proof.challenge.issuedAt);
    if !proof.challenge.Matches(issued) then Err(WrongChallenge)
    else if age > maxAgeSecs then Err(Stale)
    else if age < -FUTURE_SKEW_SECS then Err(FromTheFuture)
    else if proof.tokenBinding != leaf.binding then Err(WrongToken)
    else if proof.leafDid != leaf.did then Err(WrongLeaf)
    else
      var key := keys(proof.leafDid);
      if key.None? then Err(BadKey)
      else if !Verifies(key.value, proof.challenge.Digest(proof.tokenBinding), proof.signature) then Err(BadSignature)
      else Ok(())
  }

  /** A presentation: the token must be rooted, and a proof bound to a request is good for that
      request only. */
  function VerifyPresentationAt(keys: KeyParser, rooted: bool, proof: ProofOfPossession, leaf: Leaf,
                                issued: PopChallenge, requestBinding: Str, maxAgeSecs: i64, now: Instant)
    : Result<(), PopError>
  {
    if !rooted then Err(Unrooted)
    else
      var verdict := VerifyAt(keys, proof, leaf, issued, maxAgeSecs, now);
      if verdict.Err? then verdict
      else
        var bound := proof.challenge.requestBinding;
        if bound.Some? && bound.value != requestBinding then Err(WrongRequest)
        else Ok(())
  }

  /** Proof by the leaf agent for a challenge. */
  function ProvePossession(leaf: Leaf, key: PublicKey, challenge: PopChallenge): ProofOfPossession {
    ProofOfPossession(leaf.did, leaf.binding, challenge, SignatureText(key, challenge.Digest(leaf.binding)))
  }

  lemma AcceptedSignature(keys: KeyParser, signed: ProofOfPossession, key: PublicKey, proof: ProofOfPossession)
    requires signed.signature == SignatureText(key, signed.challenge.Digest(signed.tokenBinding))
    requires proof.signature == signed.signature
    ensures (keys(proof.leafDid).Some?
             && Verifies(keys(proof.leafDid).value, proof.challenge.Digest(proof.tokenBinding), proof.signature))
            <==> (&& keys(proof.leafDid) == Some(key)
                  && proof.challenge.Digest(proof.tokenBinding) == signed.challenge.Digest(signed.tokenBinding))
  {
  }

  /** A presentation that carries the signature a leaf made is accepted exactly for that
      leaf's token, that request if the leaf bound one, and within the window. */
  lemma PresentationExact(keys: KeyParser, maker: Leaf, key: PublicKey, made: PopChallenge, proof: ProofOfPossession,
                          leaf: Leaf, issued: PopChallenge, requestBinding: Str, maxAgeSecs: i64, now: Instant)
    requires maxAgeSecs >= 0 && proof.signature == ProvePossession(maker, key, made).signature
    ensures VerifyPresentationAt(keys, true, proof, leaf, issued, requestBinding, maxAgeSecs, now).Ok?
            <==> (&& proof.challenge.nonce == issued.nonce && proof.challenge.audience == issued.audience
                  && leaf == Leaf(proof.leafDid, proof.tokenBinding)
                  && keys(leaf.did) == Some(key) && leaf.binding == maker.binding
                  && proof.challenge == made.(issuedAt := issued.issuedAt)
                  && Seconds(issued.issuedAt) == Seconds(made.issuedAt)
                  && (made.requestBinding.Some? ==> made.requestBinding.value == requestBinding)
                  && issued.issuedAt - 6_000_000_000 < now < issued.issuedAt + (maxAgeSecs + 1) * 1_000_000_000)
  {
    AcceptedSignature(keys, ProvePossession(maker, key, made), key, proof);
    ChallengeDigestExact(proof.challenge, proof.tokenBinding, made, maker.binding);
    FreshExact(proof.challenge.issuedAt, now, maxAgeSecs);
  }
}
