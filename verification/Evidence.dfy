/** Building, sealing and verifying evidence bundles. */
module Evidence {
  import opened Wrappers
  import opened Sorting
  import opened Transcript
  import opened Adr
  import opened AdrStreams
  import opened Compliance
  import A = Audit
  import AR = AuditRuns

  // -- The builder ----------------------------------------------------------------------

  predicate BySeq(a: AuthzDecision, b: AuthzDecision) {
    a.seqNo <= b.seqNo
  }

  /** The decisions of one delegation flow. */
  function Matching(all: seq<AuthzDecision>, vcId: Str): seq<AuthzDecision> {
    if all == [] then []
    else (if all[0].vcId == vcId then [all[0]] else []) + Matching(all[1..], vcId)
  }

  datatype EvidenceBundleBuilder = EvidenceBundleBuilder(
    correlationId: Str,
    subjectDid: Option<Str>,
    window: Option<(Instant, Instant)>,
    decisions: seq<AuthzDecision>,
    checkpoint: Option<AdrCheckpoint>,
    custody: seq<A.CompositeEntry>,
    custodyRoot: Option<Text>)
  {
    function Decisions(ds: seq<AuthzDecision>): EvidenceBundleBuilder {
      this.(decisions := SortBy(ds, BySeq))
    }

    function DecisionsMatching(all: seq<AuthzDecision>): EvidenceBundleBuilder {
      this.(decisions := SortBy(Matching(all, correlationId), BySeq))
    }

    function Subject(did: Str): EvidenceBundleBuilder {
      this.(subjectDid := Some(did))
    }

    function Window(start: Instant, end: Instant): EvidenceBundleBuilder {
      this.(window := Some((start, end)))
    }

    function StreamCheckpoint(c: AdrCheckpoint): EvidenceBundleBuilder {
      this.(checkpoint := Some(c))
    }

    function CustodyFrom(correlation: Str, entries: seq<A.CompositeEntry>): EvidenceBundleBuilder {
      this.(custody := entries, custodyRoot := Some(HexText(A.RootHash(correlation, entries))))
    }

    function Unsigned(bundleId: Str, generatedAt: Instant, anchor: TrustAnchor): EvidenceBundle {
      EvidenceBundle(bundleId, generatedAt, anchor.did, correlationId, subjectDid,
                     if window.Some? then Some(window.value.0) else None,
                     if window.Some? then Some(window.value.1) else None,
                     decisions, HexText(ReplayHead(decisions)), checkpoint, custody, custodyRoot, [])
    }

    function Sealed(bundleId: Str, generatedAt: Instant, anchor: TrustAnchor): EvidenceBundle {
      var bundle := Unsigned(bundleId, generatedAt, anchor);
      bundle.(signature := SignatureText(anchor.key, bundle.Digest()))
    }
  }

  method DigestOfBundle(b: EvidenceBundle) returns (h: Hash)
    ensures h == b.Digest()
  {
    var root, head := Field(OrNoText(b.custodyRoot)), Field(b.decisionsHead);
    ghost var c2 := Listing(b.custody, A.EntryText) + root;
    ghost var c0 := CheckpointText(b.checkpoint) + b.CustodyText();
    ghost var d2 := head + c0;
    ghost var d1 := Listing(b.decisions, DigestText) + d2;
    var hasher := new Hasher("agentcreds-evidence-bundle-v1");
    hasher.Update(b.ScopeText(), b.RecordsText() + c0);
    Nest2(Le64(|b.decisions|), Listing(b.decisions, DigestText), head, c0);
    hasher.Update(Le64(|b.decisions|), d1);
    hasher.UpdateEach(b.decisions, DigestText, d2);
    hasher.Update(head, c0);
    hasher.Update(CheckpointText(b.checkpoint), b.CustodyText());
    hasher.Update(Le64(|b.custody|), c2);
    hasher.UpdateEach(b.custody, A.EntryText, root);
    hasher.Update(root, []);
    assert root + [] == root && hasher.absorbed + [] == hasher.absorbed;
    h := hasher.Finalize();
  }

  method Seal(builder: EvidenceBundleBuilder, bundleId: Str, generatedAt: Instant, anchor: TrustAnchor)
    returns (r: Result<EvidenceBundle, AnchorError>)
    ensures r == if anchor.signs then Ok(builder.Sealed(bundleId, generatedAt, anchor)) else Err(NoPrivateKey)
  {
    var head := Replay(builder.decisions);
    var bundle := builder.Unsigned(bundleId, generatedAt, anchor).(decisionsHead := HexText(head));
    var digest := DigestOfBundle(bundle);
    match Sign(anchor, digest)
    case Err(e) => r := Err(e);
    case Ok(text) => r := Ok(bundle.(signature := text));
  }

  // -- Verification ---------------------------------------------------------------------

  datatype EvidenceError = WrongIssuer | BadSignature | WrongHead | BadCheckpoint

  datatype EvidenceReport = EvidenceReport(
    correlationId: Str,
    decisions: nat,
    allowed: nat,
    denied: nat,
    signals: seq<Signal>,
    checkpointVerified: bool,
    custodyEntries: nat)

  predicate Accepts(b: EvidenceBundle, anchor: TrustAnchor) {
    && b.issuerDid == anchor.did && Verifies(anchor.key, b.Digest(), b.signature)
    && HexText(ReplayHead(b.decisions)) == b.decisionsHead
    && (b.checkpoint.Some? ==> b.checkpoint.value.VerifiesUnder(anchor))
  }

  function CountOf(ds: seq<AuthzDecision>, outcome: Decision): nat {
    if ds == [] then 0
    else CountOf(ds[..|ds| - 1], outcome) + (if ds[|ds| - 1].decision == outcome then 1 else 0)
  }

  /** Where the decisions have an outcome. */
  function Positions(ds: seq<AuthzDecision>, outcome: Decision): set<nat> {
    set i | 0 <= i < |ds| && ds[i].decision == outcome
  }

  /** The count is of the records with that outcome. */
  lemma {:induction false} CountIsOfOutcome(ds: seq<AuthzDecision>, outcome: Decision)
    ensures CountOf(ds, outcome) == |Positions(ds, outcome)|
    decreases |ds|
  {
    if ds != [] {
      var init, last := ds[..|ds| - 1], |ds| - 1;
      CountIsOfOutcome(init, outcome);
      assert Positions(ds, outcome) == Positions(init, outcome) + if ds[last].decision == outcome then {last} else {};
    } else {
      assert Positions(ds, outcome) == {};
    }
  }

  lemma {:induction false} AllowsAndDenies(ds: seq<AuthzDecision>)
    ensures CountOf(ds, Allow) + CountOf(ds, Deny) == |ds|
  {
    if ds != [] {
      AllowsAndDenies(ds[..|ds| - 1]);
    }
  }

  ghost predicate Raised(ds: seq<AuthzDecision>, s: Signal) {
    exists d | d in ds :: s in d.signals
  }

  ghost predicate RaisedByDenial(ds: seq<AuthzDecision>, s: Signal) {
    exists d | d in ds :: d.decision == Deny && s in d.signals
  }

  predicate NoRepeats(signals: seq<Signal>) {
    forall i, j | 0 <= i < j < |signals| :: signals[i] != signals[j]
  }

  /** The distinct signals of all the records. */
  method DistinctSignals(ds: seq<AuthzDecision>) returns (signals: seq<Signal>)
    ensures NoRepeats(signals) && forall s :: s in signals <==> Raised(ds, s)
  {
    signals := [];
    for i := 0 to |ds|
      invariant NoRepeats(signals)
      invariant forall s :: s in signals <==> Raised(ds[..i], s)
    {
      ghost var before := signals;
      for j := 0 to |ds[i].signals|
        invariant NoRepeats(signals)
        invariant forall s :: s in signals <==> s in before || s in ds[i].signals[..j]
      {
        if ds[i].signals[j] !in signals {
          signals := signals + [ds[i].signals[j]];
        }
      }
      assert ds[i].signals[..|ds[i].signals|] == ds[i].signals;
      RaisedNext(ds, i);
    }
    assert ds[..|ds|] == ds;
  }

  lemma RaisedNext(ds: seq<AuthzDecision>, i: nat)
    requires i < |ds|
    ensures forall s :: Raised(ds[..i + 1], s) <==> Raised(ds[..i], s) || s in ds[i].signals
  {
    TakeSnoc(ds, i);
    assert forall d | d in ds[..i] + [ds[i]] :: d in ds[..i] || d == ds[i];
    assert ds[i] in ds[..i] + [ds[i]];
    assert forall d | d in ds[..i] :: d in ds[..i] + [ds[i]];
  }

  /** The report is that of the bundle. */
  ghost predicate Reports(r: EvidenceReport, b: EvidenceBundle) {
    && r.correlationId == b.correlationId
    && r.decisions == |b.decisions| && r.custodyEntries == |b.custody|
    && r.allowed == |set i | 0 <= i < |b.decisions| && b.decisions[i].decision == Allow|
    && r.denied == |set i | 0 <= i < |b.decisions| && b.decisions[i].decision == Deny|
    && (forall s :: s in r.signals <==> exists d | d in b.decisions :: s in d.signals)
    && (forall i, j | 0 <= i < j < |r.signals| :: r.signals[i] != r.signals[j])
    && r.checkpointVerified == b.checkpoint.Some?
  }

  method VerifyBundle(b: EvidenceBundle, anchor: TrustAnchor) returns (r: Result<EvidenceReport, EvidenceError>)
    ensures r.Ok? <==> Accepts(b, anchor)
    ensures r.Ok? ==> Reports(r.value, b)
  {
    if b.issuerDid != anchor.did {
      return Err(WrongIssuer);
    }
    var digest := DigestOfBundle(b);
    if !Verifies(anchor.key, digest, b.signature) {
      return Err(BadSignature);
    }
    var head := Replay(b.decisions);
    if HexText(head) != b.decisionsHead {
      return Err(WrongHead);
    }
    if b.checkpoint.Some? && !b.checkpoint.value.VerifiesUnder(anchor) {
      return Err(BadCheckpoint);
    }
    var allowed := CountOf(b.decisions, Allow);
    AllowsAndDenies(b.decisions);
    CountIsOfOutcome(b.decisions, Allow);
    CountIsOfOutcome(b.decisions, Deny);
    assert Positions(b.decisions, Allow) == set i | 0 <= i < |b.decisions| && b.decisions[i].decision == Allow;
    assert Positions(b.decisions, Deny) == set i | 0 <= i < |b.decisions| && b.decisions[i].decision == Deny;
    var signals := DistinctSignals(b.decisions);
    r := Ok(EvidenceReport(b.correlationId, |b.decisions|, allowed, |b.decisions| - allowed, signals,
                           b.checkpoint.Some?, |b.custody|));
  }

  /** The reported signals are those of the denials, as the report describes them. */
  ghost predicate OfDenials(r: EvidenceReport, b: EvidenceBundle) {
    forall s :: s in r.signals <==> RaisedByDenial(b.decisions, s)
  }

  /** They are exactly when every signal of an allow is raised by a denial too. */
  lemma SignalsAreOfDenialsExactly(r: EvidenceReport, b: EvidenceBundle)
    requires Reports(r, b)
    ensures OfDenials(r, b)
            <==> forall d, s | d in b.decisions && d.decision == Allow && s in d.signals ::
                   RaisedByDenial(b.decisions, s)
  {
    forall s | Raised(b.decisions, s) && !RaisedByDenial(b.decisions, s)
      ensures exists d | d in b.decisions :: d.decision == Allow && s in d.signals
    {
    }
    forall d, s | d in b.decisions && s in d.signals
      ensures s in r.signals
    {
      assert Raised(b.decisions, s);
    }
  }

  /** A bundle of one allow that carries a signal is an input where they are not. */
  lemma AllowCanRaise(r: EvidenceReport, b: EvidenceBundle, d: AuthzDecision, s: Signal)
    requires Reports(r, b) && b.decisions == [d] && d.decision == Allow && s in d.signals
    ensures s in r.signals && !OfDenials(r, b)
  {
    assert d in b.decisions;
    assert !RaisedByDenial(b.decisions, s);
  }

  /** Of records the code itself made, in whatever order and flow, they always are. */
  lemma MadeRecordsReportDenials(r: EvidenceReport, b: EvidenceBundle)
    requires Reports(r, b) && forall d | d in b.decisions :: Made(d)
    ensures OfDenials(r, b)
  {
    SignalsAreOfDenialsExactly(r, b);
  }

  /** What a verification came to is what the report counts and lists. */
  lemma JudgedIsReported(r: EvidenceReport, b: EvidenceBundle, fields: AuthzDecision, verdict: Result<(), Denial>)
    requires Reports(r, b) && fields.Judged(verdict) in b.decisions
    ensures verdict.Err? ==> r.denied > 0 && verdict.error.signal in r.signals
    ensures verdict.Ok? ==> r.allowed > 0
  {
    var d := fields.Judged(verdict);
    var i :| 0 <= i < |b.decisions| && b.decisions[i] == d;
    var outcome := if verdict.Ok? then Allow else Deny;
    assert i in Positions(b.decisions, outcome);
    assert Positions(b.decisions, outcome) != {};
    assert Positions(b.decisions, Allow) == set i | 0 <= i < |b.decisions| && b.decisions[i].decision == Allow;
    assert Positions(b.decisions, Deny) == set i | 0 <= i < |b.decisions| && b.decisions[i].decision == Deny;
    if verdict.Err? {
      assert verdict.error.signal in d.signals;
      assert Raised(b.decisions, verdict.error.signal);
    }
  }

  // -- What a bundle proves -------------------------------------------------------------

  lemma SealedIsSigned(builder: EvidenceBundleBuilder, bundleId: Str, generatedAt: Instant, anchor: TrustAnchor)
    ensures var s := builder.Sealed(bundleId, generatedAt, anchor);
      s.signature == SignatureText(anchor.key, s.Digest()) && s.issuerDid == anchor.did
      && HexText(ReplayHead(s.decisions)) == s.decisionsHead
  {
    var s, u := builder.Sealed(bundleId, generatedAt, anchor), builder.Unsigned(bundleId, generatedAt, anchor);
    assert s.ScopeText() == u.ScopeText() && s.RecordsText() == u.RecordsText() && s.CustodyText() == u.CustodyText();
    assert s.Digest() == u.Digest();
  }

  /** A sealed bundle is accepted exactly when its embedded checkpoint, if any, verifies under
      the same anchor. */
  lemma SealedBundleVerifies(builder: EvidenceBundleBuilder, bundleId: Str, generatedAt: Instant, anchor: TrustAnchor)
    ensures Accepts(builder.Sealed(bundleId, generatedAt, anchor), anchor)
            <==> (builder.checkpoint.Some? ==> builder.checkpoint.value.VerifiesUnder(anchor))
  {
    SealedIsSigned(builder, bundleId, generatedAt, anchor);
  }

  /** A bundle under the signature of a sealed one is accepted exactly when nothing that shows
      was changed, the checkpoint verifies, and the decisions are the sealed ones in order:
      sequence numbers included, which no decision's digest covers but the head does. */
  lemma AcceptedBundleIsSealed(builder: EvidenceBundleBuilder, bundleId: Str, generatedAt: Instant, anchor: TrustAnchor,
                               b: EvidenceBundle)
    requires builder.Sealed(bundleId, generatedAt, anchor).Fits() && b.Fits()
    requires b.signature == builder.Sealed(bundleId, generatedAt, anchor).signature
    ensures var s := builder.Sealed(bundleId, generatedAt, anchor);
      Accepts(b, anchor)
      <==> && SameSealed(b, s) && AllSame(b.decisions, s.decisions, SameRecord)
           && (b.checkpoint.Some? ==> b.checkpoint.value.VerifiesUnder(anchor))
  {
    var s := builder.Sealed(bundleId, generatedAt, anchor);
    SealedIsSigned(builder, bundleId, generatedAt, anchor);
    BundleDigestExact(b, s);
    ReplayExact(b.decisions, s.decisions);
    HexInjective(ReplayHead(b.decisions), ReplayHead(s.decisions));
  }

  /** A sealed bundle says what the builder was given, and no window or subject if none was. */
  lemma SealedBundleSays(builder: EvidenceBundleBuilder, did: Str, start: Instant, end: Instant, c: AdrCheckpoint,
                         bundleId: Str, generatedAt: Instant, anchor: TrustAnchor)
    ensures var b := builder.Subject(did).Window(start, end).StreamCheckpoint(c).Sealed(bundleId, generatedAt, anchor);
      && b.subjectDid == Some(did) && b.windowStart == Some(start) && b.windowEnd == Some(end)
      && b.checkpoint == Some(c)
    ensures var b := builder.Sealed(bundleId, generatedAt, anchor);
      && b.bundleId == bundleId && b.generatedAt == generatedAt && b.issuerDid == anchor.did
      && b.correlationId == builder.correlationId && b.decisions == builder.decisions
      && b.custody == builder.custody && b.custodyRoot == builder.custodyRoot
      && (builder.window.None? ==> b.windowStart.None? && b.windowEnd.None?)
      && (builder.subjectDid.None? ==> b.subjectDid.None?)
  {
  }

  // -- Custody --------------------------------------------------------------------------

  /** A bundle that carries a compositor's chain of custody and shows what was sealed shows a
      chain with the root it names. */
  lemma CustodyReproducesRoot(builder: EvidenceBundleBuilder, correlation: Str, entries: seq<A.CompositeEntry>,
                              bundleId: Str, generatedAt: Instant, anchor: TrustAnchor, b: EvidenceBundle)
    requires SameSealed(b, builder.CustodyFrom(correlation, entries).Sealed(bundleId, generatedAt, anchor))
    ensures OrNoText(b.custodyRoot) == HexText(A.RootHash(correlation, b.custody))
  {
    AR.RootHashExact(correlation, b.custody, correlation, entries);
  }

  // -- Order ----------------------------------------------------------------------------

  lemma BySeqIsTotal()
    ensures TotalPreorder(BySeq)
  {
  }

  lemma {:induction false} NumberedMembers(first: nat, ds: seq<AuthzDecision>, d: AuthzDecision)
    requires first + |ds| < 0x1_0000_0000_0000_0000 && d in Numbered(first, ds)
    ensures first <= d.seqNo
    decreases |ds|
  {
    if d in Numbered(first + 1, ds[1..]) {
      NumberedMembers(first + 1, ds[1..], d);
    }
  }

  lemma {:induction false} MatchingMembers(all: seq<AuthzDecision>, vcId: Str, d: AuthzDecision)
    requires d in Matching(all, vcId)
    ensures d in all
  {
    if d in Matching(all[1..], vcId) {
      MatchingMembers(all[1..], vcId, d);
    }
  }

  ghost predicate Increasing(ds: seq<AuthzDecision>) {
    forall i, j | 0 <= i < j < |ds| :: ds[i].seqNo < ds[j].seqNo
  }

  lemma ConsIncreases(d: AuthzDecision, rest: seq<AuthzDecision>)
    requires Increasing(rest) && forall x | x in rest :: d.seqNo < x.seqNo
    ensures Increasing([d] + rest)
  {
    var s := [d] + rest;
    forall i, j | 0 <= i < j < |s|
      ensures s[i].seqNo < s[j].seqNo
    {
      assert s[j] == rest[j - 1];
      if i > 0 {
        assert s[i] == rest[i - 1];
      }
    }
  }

  /** Numbered records are strictly increasing. */
  lemma {:induction false} NumberedIncrease(first: nat, ds: seq<AuthzDecision>)
    requires first + |ds| < 0x1_0000_0000_0000_0000
    ensures Increasing(Numbered(first, ds))
    decreases |ds|
  {
    if ds != [] {
      var rest := Numbered(first + 1, ds[1..]);
      NumberedIncrease(first + 1, ds[1..]);
      forall d | d in rest
        ensures first < d.seqNo
      {
        NumberedMembers(first + 1, ds[1..], d);
      }
      ConsIncreases(ds[0].(seqNo := first), rest);
    }
  }

  lemma TailIncreases(log: seq<AuthzDecision>)
    requires log != [] && Increasing(log)
    ensures Increasing(log[1..]) && forall d | d in log[1..] :: log[0].seqNo < d.seqNo
  {
  }

  /** And so are those of one flow among them. */
  lemma {:induction false} MatchingIncrease(log: seq<AuthzDecision>, vcId: Str)
    requires Increasing(log)
    ensures Increasing(Matching(log, vcId))
    decreases |log|
  {
    if log != [] {
      var rest := Matching(log[1..], vcId);
      TailIncreases(log);
      MatchingIncrease(log[1..], vcId);
      if log[0].vcId == vcId {
        forall d | d in rest
          ensures log[0].seqNo < d.seqNo
        {
          MatchingMembers(log[1..], vcId, d);
        }
        ConsIncreases(log[0], rest);
      } else {
        assert [] + rest == rest;
      }
    }
  }

  /** Sorting any order of an increasing log restores it. */
  lemma SortRestores(log: seq<AuthzDecision>, shuffled: seq<AuthzDecision>)
    requires Increasing(log) && multiset(shuffled) == multiset(log)
    ensures SortBy(shuffled, BySeq) == log
  {
    BySeqIsTotal();
    SortBySorted(shuffled, BySeq);
    SortByMultiset(shuffled, BySeq);
    assert SortedBy(log, BySeq);
    assert AntisymmetricOn(log, BySeq);
    SortedUnique(log, SortBy(shuffled, BySeq), BySeq);
  }

  lemma {:induction false} MatchingCount(all: seq<AuthzDecision>, vcId: Str, d: AuthzDecision)
    ensures multiset(Matching(all, vcId))[d] == if d.vcId == vcId then multiset(all)[d] else 0
  {
    if all != [] {
      MatchingCount(all[1..], vcId, d);
      assert all == [all[0]] + all[1..];
    }
  }

  lemma MatchingPermuted(a: seq<AuthzDecision>, b: seq<AuthzDecision>, vcId: Str)
    requires multiset(a) == multiset(b)
    ensures multiset(Matching(a, vcId)) == multiset(Matching(b, vcId))
  {
    forall d
      ensures multiset(Matching(a, vcId))[d] == multiset(Matching(b, vcId))[d]
    {
      MatchingCount(a, vcId, d);
      MatchingCount(b, vcId, d);
    }
  }

  lemma StreamIncreases(ds: seq<AuthzDecision>, vcId: Str)
    requires |ds| < 0x1_0000_0000_0000_0000
    ensures Increasing(Records(Genesis(), ds)) && Increasing(Matching(Records(Genesis(), ds), vcId))
  {
    RecordsAreNumbered(Genesis(), ds);
    NumberedIncrease(0, ds);
    MatchingIncrease(Records(Genesis(), ds), vcId);
  }

  /** Whatever order the records of a stream arrive in, the bundle holds them, or those of its
      flow, in the order they were recorded; with all of them its head is the stream's. */
  lemma BundleRestoresOrder(builder: EvidenceBundleBuilder, ds: seq<AuthzDecision>, shuffled: seq<AuthzDecision>)
    requires |ds| < 0x1_0000_0000_0000_0000 && multiset(shuffled) == multiset(Records(Genesis(), ds))
    ensures builder.Decisions(shuffled).decisions == Records(Genesis(), ds)
    ensures builder.DecisionsMatching(shuffled).decisions == Matching(Records(Genesis(), ds), builder.correlationId)
    ensures ReplayHead(builder.Decisions(shuffled).decisions) == RecordAll(Genesis(), ds).head
  {
    var vcId, log := builder.correlationId, Records(Genesis(), ds);
    StreamIncreases(ds, vcId);
    SortRestores(log, shuffled);
    MatchingPermuted(shuffled, log, vcId);
    SortRestores(Matching(log, vcId), Matching(shuffled, vcId));
    ReplayFollowsRecording(Genesis(), ds);
  }
}
