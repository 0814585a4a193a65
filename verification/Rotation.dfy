/** Trust-anchor key rotation: a chain of signed endorsements from an organization's root
    key to its current one, sealed by the current key together with the keys it repudiates. */
module Rotation {
  import opened Wrappers
  import opened Sorting
  import opened Did
  import opened Transcript

  /** An endorsement by an outgoing key of its successor. */
  datatype RotationStatement =
    RotationStatement(previousDid: Str, nextDid: Str, effectiveAt: Instant, signature: Text)
  {
    function Payload(): Hash {
      Sha256(Domain("agentcreds-key-rotation-v1")
             + (StrField(previousDid) + (StrField(nextDid) + Le64(Seconds(effectiveAt)))))
    }

    /** Signed by the key that `previousDid` names. */
    predicate Verify(keys: KeyParser) {
      var key := keys(previousDid);
      key.Some? && Verifies(key.value, Payload(), signature)
    }
  }

  /** Two statements have one payload exactly when they name the same keys at the same second. */
  lemma StatementPayloadExact(a: RotationStatement, b: RotationStatement)
    ensures a.Payload() == b.Payload()
            <==> (&& a.previousDid == b.previousDid && a.nextDid == b.nextDid
                  && Seconds(a.effectiveAt) == Seconds(b.effectiveAt))
  {
    if a.Payload() == b.Payload() {
      var d := Domain("agentcreds-key-rotation-v1");
      var x, y := Le64(Seconds(a.effectiveAt)), Le64(Seconds(b.effectiveAt));
      SplitAt(d, StrField(a.previousDid) + (StrField(a.nextDid) + x),
              d, StrField(b.previousDid) + (StrField(b.nextDid) + y));
      StrFieldPrefix(a.previousDid, b.previousDid, StrField(a.nextDid) + x, StrField(b.nextDid) + y);
      StrFieldPrefix(a.nextDid, b.nextDid, x, y);
      Le64Injective(Seconds(a.effectiveAt), Seconds(b.effectiveAt));
    }
  }

  datatype RotationError = NotChained | BadStatement | WrongRoot | UnknownKey | CurrentKey | WrongSealer
                         | CannotSign | Unsealed | BadSeal | Expired | Repudiated | NotInHistory

  /** A key history as a value: the portable artifact relying parties check. */
  datatype History = History(
    rootDid: Str,
    rotations: seq<RotationStatement>,
    repudiated: seq<Str>,
    notAfter: Option<Instant>,
    version: u64,
    signature: Text)
  {
    function CurrentDid(): Str {
      if rotations == [] then rootDid else rotations[|rotations| - 1].nextDid
    }

    /** Every key the organization held: the root and each successor. */
    function Dids(): seq<Str> {
      [rootDid] + seq(|rotations|, i requires 0 <= i < |rotations| => rotations[i].nextDid)
    }

    /** The keys still trusted for issuance. */
    predicate Active(did: Str) {
      did in Dids() && did !in repudiated
    }

    /** Every rotation links from the key before it and is signed by that key. */
    ghost predicate ChainVerifies(keys: KeyParser) {
      forall i | 0 <= i < |rotations| :: LinkVerifies(keys, rootDid, rotations, i)
    }

    /** The repudiated keys as a seal covers them, in order. */
    function Repudiations(): seq<Str> {
      SortBy(repudiated, StrLeq)
    }

    function Preimage(): seq<Symbol> {
      Domain("agentcreds-key-history-seal-v1")
      + (Le64(version)
      + (StrField(rootDid)
      + (Le64(|rotations|)
      + (Listing(rotations, RotationText)
      + (Le64(|repudiated|)
      + (Listing(Repudiations(), StrField)
      + OptTime(OptSeconds(notAfter))))))))
    }

    function Digest(): Hash {
      Sha256(Preimage())
    }

    predicate SealVerifies(keys: KeyParser) {
      var key := keys(CurrentDid());
      key.Some? && Verifies(key.value, Digest(), signature)
    }

    predicate FreshAt(now: Instant) {
      notAfter.Some? ==> now <= notAfter.value
    }
  }

  /** Rotation `i` leads on from the key before it, which signed it. */
  predicate LinkVerifies(keys: KeyParser, root: Str, rotations: seq<RotationStatement>, i: nat)
    requires i < |rotations|
  {
    rotations[i].previousDid == HolderBefore(root, rotations, i) && rotations[i].Verify(keys)
  }

  /** The key in office before rotation `i`. */
  function HolderBefore(root: Str, rotations: seq<RotationStatement>, i: nat): Str
    requires i <= |rotations|
  {
    if i == 0 then root else rotations[i - 1].nextDid
  }

  function RotationText(r: RotationStatement): seq<Symbol> {
    StrField(r.previousDid) + (StrField(r.nextDid) + (Le64(Seconds(r.effectiveAt)) + Field(r.signature)))
  }

  /** A linked chain holds only what its keys signed: every rotation leads on from the key in
      office, which signed the change to its successor. */
  lemma ChainIsSigned(keys: KeyParser, h: History, i: nat)
    requires h.ChainVerifies(keys) && i < |h.rotations|
    ensures h.rotations[i].previousDid == (if i == 0 then h.rootDid else h.rotations[i - 1].nextDid)
    ensures exists key :: keys(h.rotations[i].previousDid) == Some(key)
              && Verifies(key, h.rotations[i].Payload(), h.rotations[i].signature)
  {
    assert LinkVerifies(keys, h.rootDid, h.rotations, i);
    var key := keys(h.rotations[i].previousDid).value;
    assert keys(h.rotations[i].previousDid) == Some(key);
  }

  lemma HeldDids(h: History, did: Str)
    ensures did in h.Dids() <==> did == h.rootDid || exists s | s in h.rotations :: s.nextDid == did
  {
    var dids := h.Dids();
    assert dids[0] == h.rootDid && forall i | 0 <= i < |h.rotations| :: dids[i + 1] == h.rotations[i].nextDid;
    if s :| s in h.rotations && s.nextDid == did {
      var i :| 0 <= i < |h.rotations| && h.rotations[i] == s;
      assert dids[i + 1] == did;
    }
    if did in dids && did != h.rootDid {
      var i :| 0 < i < |dids| && dids[i] == did;
      assert h.rotations[i - 1] in h.rotations;
    }
  }

  /** A seal covers the repudiated keys in ascending order by byte. */
  lemma RepudiationsAscend(h: History)
    ensures multiset(h.Repudiations()) == multiset(h.repudiated)
    ensures forall i, j | 0 <= i < j < |h.Repudiations()| ::
              h.Repudiations()[i] == h.Repudiations()[j] || Precedes(h.Repudiations()[i], h.Repudiations()[j])
  {
    StrOrder();
    SortByMultiset(h.repudiated, StrLeq);
    SortBySorted(h.repudiated, StrLeq);
    var sorted := h.Repudiations();
    forall i, j | 0 <= i < j < |sorted|
      ensures sorted[i] == sorted[j] || Precedes(sorted[i], sorted[j])
    {
      assert StrLeq(sorted[i], sorted[j]);
      StrLeqExactly(sorted[i], sorted[j]);
    }
  }

  // -- The seal's transcript -----------------------------------------------------------

  /** Statements a digest cannot tell apart: their instants agree to the second. */
  predicate SameStatement(a: RotationStatement, b: RotationStatement) {
    && a.previousDid == b.previousDid && a.nextDid == b.nextDid
    && Seconds(a.effectiveAt) == Seconds(b.effectiveAt) && a.signature == b.signature
  }

  /** Histories that agree on everything a seal covers. */
  predicate SameSealed(a: History, b: History) {
    && a.version == b.version && a.rootDid == b.rootDid
    && AllSame(a.rotations, b.rotations, SameStatement)
    && multiset(a.repudiated) == multiset(b.repudiated)
    && OptSeconds(a.notAfter) == OptSeconds(b.notAfter)
  }

  /** The lengths of a history's lists are machine words. */
  predicate InMemory(h: History) {
    |h.rotations| < 0x1_0000_0000_0000_0000 && |h.repudiated| < 0x1_0000_0000_0000_0000
  }

  lemma RotationTextPrefix(x: RotationStatement, y: RotationStatement, r: seq<Symbol>, s: seq<Symbol>)
    requires RotationText(x) + r == RotationText(y) + s
    ensures SameStatement(x, y) && r == s
  {
    var x3, y3 := Field(x.signature) + r, Field(y.signature) + s;
    var x2, y2 := Le64(Seconds(x.effectiveAt)) + x3, Le64(Seconds(y.effectiveAt)) + y3;
    var x1, y1 := StrField(x.nextDid) + x2, StrField(y.nextDid) + y2;
    Nest3(StrField(x.previousDid), StrField(x.nextDid), Le64(Seconds(x.effectiveAt)), Field(x.signature), r);
    Nest3(StrField(y.previousDid), StrField(y.nextDid), Le64(Seconds(y.effectiveAt)), Field(y.signature), s);
    StrFieldPrefix(x.previousDid, y.previousDid, x1, y1);
    StrFieldPrefix(x.nextDid, y.nextDid, x2, y2);
    Le64Prefix(Seconds(x.effectiveAt), Seconds(y.effectiveAt), x3, y3);
    FieldPrefix(x.signature, y.signature, r, s);
  }

  lemma RotationListPrefix(a: seq<RotationStatement>, b: seq<RotationStatement>, r: seq<Symbol>, s: seq<Symbol>)
    requires |a| == |b| && Listing(a, RotationText) + r == Listing(b, RotationText) + s
    ensures AllSame(a, b, SameStatement) && r == s
  {
    forall x, y, t, u | RotationText(x) + t == RotationText(y) + u
      ensures SameStatement(x, y) && t == u
    {
      RotationTextPrefix(x, y, t, u);
    }
    ListingPrefix(a, b, RotationText, SameStatement, r, s);
  }

  /** Two histories have one seal transcript exactly when they agree on the version, the
      root, every rotation, the expiry, and the repudiated keys up to their order. */
  lemma SealTranscriptExact(a: History, b: History)
    requires InMemory(a) && InMemory(b)
    ensures a.Digest() == b.Digest() <==> SameSealed(a, b)
  {
    StrOrder();
    SortByPermutation(a.repudiated, b.repudiated, StrLeq);
    if SameSealed(a, b) {
      ListingSame(a.rotations, b.rotations, RotationText, SameStatement);
      assert |multiset(a.repudiated)| == |multiset(b.repudiated)|;
    }
    if a.Digest() == b.Digest() {
      SealTranscriptInjective(a, b);
    }
  }

  lemma SealTranscriptInjective(a: History, b: History)
    requires InMemory(a) && InMemory(b) && a.Preimage() == b.Preimage()
    ensures a.version == b.version && a.rootDid == b.rootDid && AllSame(a.rotations, b.rotations, SameStatement)
    ensures SortBy(a.repudiated, StrLeq) == SortBy(b.repudiated, StrLeq)
    ensures OptSeconds(a.notAfter) == OptSeconds(b.notAfter)
  {
    var as', bs := SortBy(a.repudiated, StrLeq), SortBy(b.repudiated, StrLeq);
    SortByMultiset(a.repudiated, StrLeq);
    SortByMultiset(b.repudiated, StrLeq);
    assert |as'| == |multiset(as')| == |multiset(a.repudiated)| == |a.repudiated|;
    assert |bs| == |multiset(bs)| == |multiset(b.repudiated)| == |b.repudiated|;
    var a6, b6 := OptTime(OptSeconds(a.notAfter)), OptTime(OptSeconds(b.notAfter));
    var a5, b5 := Listing(as', StrField) + a6, Listing(bs, StrField) + b6;
    var a4, b4 := Le64(|a.repudiated|) + a5, Le64(|b.repudiated|) + b5;
    var a3, b3 := Listing(a.rotations, RotationText) + a4, Listing(b.rotations, RotationText) + b4;
    var a2, b2 := Le64(|a.rotations|) + a3, Le64(|b.rotations|) + b3;
    var a1, b1 := StrField(a.rootDid) + a2, StrField(b.rootDid) + b2;
    SplitAt(Domain("agentcreds-key-history-seal-v1"), Le64(a.version) + a1,
            Domain("agentcreds-key-history-seal-v1"), Le64(b.version) + b1);
    Le64Prefix(a.version, b.version, a1, b1);
    StrFieldPrefix(a.rootDid, b.rootDid, a2, b2);
    Le64Prefix(|a.rotations|, |b.rotations|, a3, b3);
    RotationListPrefix(a.rotations, b.rotations, a4, b4);
    Le64Prefix(|a.repudiated|, |b.repudiated|, a5, b5);
    StrListPrefix(as', bs, a6, b6);
    OptTimeInjective(OptSeconds(a.notAfter), OptSeconds(b.notAfter));
  }

  /** A history that verifies under the signature its key made over `sealed` is `sealed`, up
      to what the seal does not cover. */
  lemma SealBinds(keys: KeyParser, sealed: History, h: History, key: PublicKey)
    requires InMemory(sealed) && InMemory(h)
    requires h.signature == SignatureText(key, sealed.Digest())
    ensures h.SealVerifies(keys) <==> SameSealed(sealed, h) && keys(h.CurrentDid()) == Some(key)
  {
    SealTranscriptExact(sealed, h);
  }

  // -- The operations -------------------------------------------------------------------

  datatype Op =
    | Push(statement: RotationStatement)
    | Repudiate(did: Str)
    | Seal(anchor: TrustAnchor, version: u64, notAfter: Option<Instant>)

  function Genesis(root: Str): History {
    History(root, [], [], None, 0, [])
  }

  predicate Succeeds(keys: KeyParser, h: History, op: Op) {
    match op
    case Push(statement) => statement.previousDid == h.CurrentDid() && statement.Verify(keys)
    case Repudiate(did) => did in h.Dids() && did != h.CurrentDid()
    case Seal(anchor, _, _) => anchor.did == h.CurrentDid() && anchor.signs
  }

  /** The history after `op`, which a seal that cannot sign changes too. */
  function Step(keys: KeyParser, h: History, op: Op): History {
    match op
    case Push(statement) =>
      if Succeeds(keys, h, op) then h.(rotations := h.rotations + [statement]) else h
    case Repudiate(did) =>
      if !Succeeds(keys, h, op) then h
      else h.(repudiated := if did in h.repudiated then h.repudiated else h.repudiated + [did], signature := [])
    case Seal(anchor, version, notAfter) =>
      var unsigned := h.(version := version, notAfter := notAfter, signature := []);
      if anchor.did != h.CurrentDid() then h
      else if !anchor.signs then unsigned
      else unsigned.(signature := SignatureText(anchor.key, unsigned.Digest()))
  }

  /** A relying party's whole check of an issuer. */
  ghost predicate Authorizes(keys: KeyParser, h: History, trustedRoot: Str, issuer: Str, now: Instant) {
    && h.rootDid == trustedRoot && h.ChainVerifies(keys)
    && h.signature != [] && h.SealVerifies(keys) && h.FreshAt(now)
    && h.Active(issuer) && keys(issuer).Some?
  }

  /** A key history under construction. */
  class KeyHistory {
    const keys: KeyParser
    var rootDid: Str
    var rotations: seq<RotationStatement>
    var repudiated: seq<Str>
    var notAfter: Option<Instant>
    var version: u64
    var signature: Text

    function View(): History
      reads this
    {
      History(rootDid, rotations, repudiated, notAfter, version, signature)
    }

    constructor (root: Str, parser: KeyParser)
      ensures View() == Genesis(root) && keys == parser
      ensures rootDid == root && rotations == [] && repudiated == [] && notAfter == None && version == 0
      ensures signature == []
    {
      keys := parser;
      rootDid, rotations, repudiated, notAfter, version, signature := root, [], [], None, 0, [];
    }

    method DigestNow() returns (h: Hash)
      ensures h == View().Digest()
    {
      var sorted := SortBy(repudiated, StrLeq);
      var expiry := OptTime(OptSeconds(notAfter));
      ghost var r5 := Listing(sorted, StrField) + expiry;
      ghost var r4 := Le64(|repudiated|) + r5;
      ghost var r3 := Listing(rotations, RotationText) + r4;
      ghost var r2 := Le64(|rotations|) + r3;
      ghost var r1 := StrField(rootDid) + r2;
      var hasher := new Hasher("agentcreds-key-history-seal-v1");
      hasher.Update(Le64(version), r1);
      hasher.Update(StrField(rootDid), r2);
      hasher.Update(Le64(|rotations|), r3);
      hasher.UpdateEach(rotations, RotationText, r4);
      hasher.Update(Le64(|repudiated|), r5);
      hasher.UpdateEach(sorted, StrField, expiry);
      hasher.Update(expiry, []);
      assert expiry + [] == expiry && hasher.absorbed + [] == hasher.absorbed;
      h := hasher.Finalize();
    }

    method PushStatement(statement: RotationStatement) returns (r: Result<(), RotationError>)
      modifies this
      ensures r.Ok? <==> statement.previousDid == old(View().CurrentDid()) && statement.Verify(keys)
      ensures View() == old(View()).(rotations := if r.Ok? then old(rotations) + [statement] else old(rotations))
      ensures r.Ok? <==> Succeeds(keys, old(View()), Push(statement))
      ensures View() == Step(keys, old(View()), Push(statement))
    {
      if statement.previousDid != View().CurrentDid() {
        return Err(NotChained);
      }
      if !statement.Verify(keys) {
        return Err(BadStatement);
      }
      rotations := rotations + [statement];
      r := Ok(());
    }

    method RepudiateKey(did: Str) returns (r: Result<(), RotationError>)
      modifies this
      ensures r.Ok? <==> (did == rootDid || exists s | s in old(rotations) :: s.nextDid == did)
                         && did != old(View().CurrentDid())
      ensures r.Err? ==> View() == old(View())
      ensures r.Ok? ==>
                && View() == old(View()).(repudiated := repudiated, signature := [])
                && repudiated == if did in old(repudiated) then old(repudiated) else old(repudiated) + [did]
      ensures r.Ok? <==> Succeeds(keys, old(View()), Repudiate(did))
      ensures View() == Step(keys, old(View()), Repudiate(did))
    {
      HeldDids(View(), did);
      if did !in View().Dids() {
        return Err(UnknownKey);
      }
      if did == View().CurrentDid() {
        return Err(CurrentKey);
      }
      if did !in repudiated {
        repudiated := repudiated + [did];
      }
      signature := [];
      r := Ok(());
    }

    method SealBy(current: TrustAnchor, newVersion: u64, expiry: Option<Instant>) returns (r: Result<(), RotationError>)
      modifies this
      ensures r.Ok? <==> current.did == old(View().CurrentDid()) && current.signs
      ensures current.did != old(View().CurrentDid()) ==> View() == old(View())
      ensures current.did == old(View().CurrentDid()) ==>
                && View() == old(View()).(version := newVersion, notAfter := expiry, signature := signature)
                && (signature == if r.Ok? then SignatureText(current.key, View().Digest()) else [])
      ensures r.Ok? <==> Succeeds(keys, old(View()), Seal(current, newVersion, expiry))
      ensures View() == Step(keys, old(View()), Seal(current, newVersion, expiry))
    {
      if current.did != View().CurrentDid() {
        return Err(WrongSealer);
      }
      version := newVersion;
      notAfter := expiry;
      signature := [];
      var digest := DigestNow();
      match Sign(current, digest)
      case Err(_) => r := Err(CannotSign);
      case Ok(text) =>
        signature := text;
        r := Ok(());
    }

    method Verify(trustedRoot: Str) returns (r: Result<Str, RotationError>)
      ensures r.Ok? <==> rootDid == trustedRoot && View().ChainVerifies(keys)
      ensures r.Ok? ==> r.value == View().CurrentDid()
    {
      if rootDid != trustedRoot {
        return Err(WrongRoot);
      }
      var current := rootDid;
      for i := 0 to |rotations|
        invariant current == HolderBefore(rootDid, rotations, i)
        invariant forall j | 0 <= j < i :: LinkVerifies(keys, rootDid, rotations, j)
      {
        assert LinkVerifies(keys, rootDid, rotations, i)
          <==> rotations[i].previousDid == current && rotations[i].Verify(keys);
        if rotations[i].previousDid != current {
          return Err(NotChained);
        }
        if !rotations[i].Verify(keys) {
          return Err(BadStatement);
        }
        current := rotations[i].nextDid;
      }
      r := Ok(current);
    }

    method VerifySealed(trustedRoot: Str) returns (r: Result<Str, RotationError>)
      ensures r.Ok?
              <==> rootDid == trustedRoot && View().ChainVerifies(keys) && signature != [] && View().SealVerifies(keys)
      ensures r.Ok? ==> r.value == View().CurrentDid()
    {
      r := Verify(trustedRoot);
      if r.Err? {
        return;
      }
      if signature == [] {
        return Err(Unsealed);
      }
      var key := keys(r.value);
      var digest := DigestNow();
      if key.None? || !Verifies(key.value, digest, signature) {
        return Err(BadSeal);
      }
    }

    method AuthorizeIssuer(trustedRoot: Str, issuer: Str, now: Instant) returns (r: Result<TrustAnchor, RotationError>)
      ensures r.Ok? <==> Authorizes(keys, View(), trustedRoot, issuer, now)
      ensures r.Ok? ==> r.value.did == issuer && Certified(keys, r.value) && !r.value.signs
    {
      var current := VerifySealed(trustedRoot);
      if current.Err? {
        return Err(current.error);
      }
      if !View().FreshAt(now) {
        return Err(Expired);
      }
      if issuer in repudiated {
        return Err(Repudiated);
      }
      if issuer !in View().Dids() {
        return Err(NotInHistory);
      }
      match keys(issuer)
      case Some(key) => r := Ok(TrustAnchor(issuer, key, false));
      case None => r := Err(BadStatement);
    }
  }
}
