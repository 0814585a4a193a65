/** Evidence bundles: a signed export of decision records, with an optional checkpoint of the
    live stream and an optional chain of custody. */
module Compliance {
  import opened Wrappers
  import opened Transcript
  import opened Adr
  import opened AdrStreams
  import A = Audit
  import AR = AuditRuns

  datatype EvidenceBundle = EvidenceBundle(
    bundleId: Str,
    generatedAt: Instant,
    issuerDid: Str,
    correlationId: Str,
    subjectDid: Option<Str>,
    windowStart: Option<Instant>,
    windowEnd: Option<Instant>,
    decisions: seq<AuthzDecision>,
    decisionsHead: Text,
    checkpoint: Option<AdrCheckpoint>,
    custody: seq<A.CompositeEntry>,
    custodyRoot: Option<Text>,
    signature: Text)
  {
    function Preimage(): seq<Symbol> {
      Domain("agentcreds-evidence-bundle-v1") + (ScopeText() + (RecordsText()
        + (CheckpointText(checkpoint) + CustodyText())))
    }

    function ScopeText(): seq<Symbol> {
      StrField(bundleId)
      + (Le64(Seconds(generatedAt))
      + (StrField(issuerDid)
      + (StrField(correlationId)
      + (StrField(OrEmpty(subjectDid))
      + (Le64(OrEpoch(windowStart)) + Le64(OrEpoch(windowEnd)))))))
    }

    function RecordsText(): seq<Symbol> {
      Le64(|decisions|) + (Listing(decisions, DigestText) + Field(decisionsHead))
    }

    function CustodyText(): seq<Symbol> {
      Le64(|custody|) + (Listing(custody, A.EntryText) + Field(OrNoText(custodyRoot)))
    }

    function Digest(): Hash {
      Sha256(Preimage())
    }

    /** The lengths of a bundle's lists are machine words. */
    predicate Fits() {
      |decisions| < 0x1_0000_0000_0000_0000 && |custody| < 0x1_0000_0000_0000_0000 && InMemory(decisions)
    }
  }

  /** A window bound that is not stated reads as the epoch. */
  function OrEpoch(t: Option<Instant>): i64 {
    if t.Some? then Seconds(t.value) else 0
  }

  function OrNoText(t: Option<Text>): Text {
    if t.Some? then t.value else []
  }

  /** A record's digest, bare. */
  lemma PreimageDomain(b: EvidenceBundle)
    ensures Domain("agentcreds-evidence-bundle-v1") <= b.Preimage()
  {
  }

  function DigestText(d: AuthzDecision): seq<Symbol> {
    [Raw(d.Digest())]
  }

  function CheckpointText(c: Option<AdrCheckpoint>): seq<Symbol> {
    [Byte(Tag(c))] + (if c.Some? then CheckpointFields(c.value) else [])
  }

  function CheckpointFields(c: AdrCheckpoint): seq<Symbol> {
    Le64(c.count) + (Field(c.head) + (StrField(c.issuerDid) + Field(c.signature)))
  }

  // -- The bundle's transcript ----------------------------------------------------------

  /** Bundles whose digests agree: sequence numbers, fractions of seconds and the difference
      between what is absent and what is empty, or the epoch, do not show. */
  predicate SameSealed(a: EvidenceBundle, b: EvidenceBundle) {
    && SameScope(a, b)
    && AllSame(a.decisions, b.decisions, SameDecision)
    && a.decisionsHead == b.decisionsHead && a.checkpoint == b.checkpoint
    && AllSame(a.custody, b.custody, AR.SameEntry) && OrNoText(a.custodyRoot) == OrNoText(b.custodyRoot)
  }

  predicate SameScope(a: EvidenceBundle, b: EvidenceBundle) {
    && a.bundleId == b.bundleId && Seconds(a.generatedAt) == Seconds(b.generatedAt) && a.issuerDid == b.issuerDid
    && a.correlationId == b.correlationId && OrEmpty(a.subjectDid) == OrEmpty(b.subjectDid)
    && OrEpoch(a.windowStart) == OrEpoch(b.windowStart) && OrEpoch(a.windowEnd) == OrEpoch(b.windowEnd)
  }

  predicate SameDecision(a: AuthzDecision, b: AuthzDecision) {
    a.Shown() == b.Shown()
  }

  lemma ScopePrefix(a: EvidenceBundle, b: EvidenceBundle, r: seq<Symbol>, s: seq<Symbol>)
    requires a.ScopeText() + r == b.ScopeText() + s
    ensures SameScope(a, b) && r == s
  {
    var a6, b6 := Le64(OrEpoch(a.windowEnd)) + r, Le64(OrEpoch(b.windowEnd)) + s;
    var a5, b5 := Le64(OrEpoch(a.windowStart)) + a6, Le64(OrEpoch(b.windowStart)) + b6;
    var a4, b4 := StrField(OrEmpty(a.subjectDid)) + a5, StrField(OrEmpty(b.subjectDid)) + b5;
    var a3, b3 := StrField(a.correlationId) + a4, StrField(b.correlationId) + b4;
    var a2, b2 := StrField(a.issuerDid) + a3, StrField(b.issuerDid) + b3;
    ScopeNesting(a, r);
    ScopeNesting(b, s);
    StrFieldPrefix(a.bundleId, b.bundleId, Le64(Seconds(a.generatedAt)) + a2, Le64(Seconds(b.generatedAt)) + b2);
    Le64Prefix(Seconds(a.generatedAt), Seconds(b.generatedAt), a2, b2);
    StrFieldPrefix(a.issuerDid, b.issuerDid, a3, b3);
    StrFieldPrefix(a.correlationId, b.correlationId, a4, b4);
    StrFieldPrefix(OrEmpty(a.subjectDid), OrEmpty(b.subjectDid), a5, b5);
    Le64Prefix(OrEpoch(a.windowStart), OrEpoch(b.windowStart), a6, b6);
    Le64Prefix(OrEpoch(a.windowEnd), OrEpoch(b.windowEnd), r, s);
  }

  lemma ScopeNesting(b: EvidenceBundle, rest: seq<Symbol>)
    ensures b.ScopeText() + rest
         == StrField(b.bundleId) + (Le64(Seconds(b.generatedAt)) + (StrField(b.issuerDid) + (StrField(b.correlationId)
            + (StrField(OrEmpty(b.subjectDid)) + (Le64(OrEpoch(b.windowStart))
            + (Le64(OrEpoch(b.windowEnd)) + rest))))))
  {
    var window := Le64(OrEpoch(b.windowStart)) + Le64(OrEpoch(b.windowEnd));
    Nest4(StrField(b.bundleId), Le64(Seconds(b.generatedAt)), StrField(b.issuerDid), StrField(b.correlationId),
          StrField(OrEmpty(b.subjectDid)) + window, rest);
    Associate(StrField(OrEmpty(b.subjectDid)), window, rest);
    Associate(Le64(OrEpoch(b.windowStart)), Le64(OrEpoch(b.windowEnd)), rest);
  }

  lemma {:induction false} DigestListPrefix(a: seq<AuthzDecision>, b: seq<AuthzDecision>, r: seq<Symbol>,
                                            s: seq<Symbol>)
    requires |a| == |b| && InMemory(a) && InMemory(b)
    requires Listing(a, DigestText) + r == Listing(b, DigestText) + s
    ensures AllSame(a, b, SameDecision) && r == s
  {
    if a == [] {
      SplitAt([], r, [], s);
    } else {
      var x, y := Listing(a[1..], DigestText) + r, Listing(b[1..], DigestText) + s;
      Associate(DigestText(a[0]), Listing(a[1..], DigestText), r);
      Associate(DigestText(b[0]), Listing(b[1..], DigestText), s);
      SplitAt(DigestText(a[0]), x, DigestText(b[0]), y);
      assert DigestText(a[0])[0] == DigestText(b[0])[0];
      DecisionDigestExact(a[0], b[0]);
      DigestListPrefix(a[1..], b[1..], r, s);
      AllSameCons(a, b, SameDecision);
    }
  }

  lemma RecordsPrefix(a: EvidenceBundle, b: EvidenceBundle, r: seq<Symbol>, s: seq<Symbol>)
    requires a.Fits() && b.Fits() && a.RecordsText() + r == b.RecordsText() + s
    ensures AllSame(a.decisions, b.decisions, SameDecision) && a.decisionsHead == b.decisionsHead && r == s
  {
    Nest2(Le64(|a.decisions|), Listing(a.decisions, DigestText), Field(a.decisionsHead), r);
    Nest2(Le64(|b.decisions|), Listing(b.decisions, DigestText), Field(b.decisionsHead), s);
    var a2, b2 := Field(a.decisionsHead) + r, Field(b.decisionsHead) + s;
    Le64Prefix(|a.decisions|, |b.decisions|, Listing(a.decisions, DigestText) + a2,
               Listing(b.decisions, DigestText) + b2);
    DigestListPrefix(a.decisions, b.decisions, a2, b2);
    FieldPrefix(a.decisionsHead, b.decisionsHead, r, s);
  }

  lemma CheckpointPrefix(a: Option<AdrCheckpoint>, b: Option<AdrCheckpoint>, r: seq<Symbol>, s: seq<Symbol>)
    requires CheckpointText(a) + r == CheckpointText(b) + s
    ensures a == b && r == s
  {
    var x := if a.Some? then CheckpointFields(a.value) else [];
    var y := if b.Some? then CheckpointFields(b.value) else [];
    TagPrefix(Tag(a), x, r, Tag(b), y, s);
    if a.Some? {
      CheckpointFieldsPrefix(a.value, b.value, r, s);
    } else {
      SplitAt([], r, [], s);
    }
  }

  lemma CheckpointFieldsPrefix(a: AdrCheckpoint, b: AdrCheckpoint, r: seq<Symbol>, s: seq<Symbol>)
    requires CheckpointFields(a) + r == CheckpointFields(b) + s
    ensures a == b && r == s
  {
    Nest3(Le64(a.count), Field(a.head), StrField(a.issuerDid), Field(a.signature), r);
    Nest3(Le64(b.count), Field(b.head), StrField(b.issuerDid), Field(b.signature), s);
    var a3, b3 := Field(a.signature) + r, Field(b.signature) + s;
    var a2, b2 := StrField(a.issuerDid) + a3, StrField(b.issuerDid) + b3;
    Le64Prefix(a.count, b.count, Field(a.head) + a2, Field(b.head) + b2);
    FieldPrefix(a.head, b.head, a2, b2);
    StrFieldPrefix(a.issuerDid, b.issuerDid, a3, b3);
    FieldPrefix(a.signature, b.signature, r, s);
  }

  lemma CustodyInjective(a: EvidenceBundle, b: EvidenceBundle)
    requires a.Fits() && b.Fits() && a.CustodyText() == b.CustodyText()
    ensures AllSame(a.custody, b.custody, AR.SameEntry) && OrNoText(a.custodyRoot) == OrNoText(b.custodyRoot)
  {
    var x, y := Field(OrNoText(a.custodyRoot)), Field(OrNoText(b.custodyRoot));
    Le64Prefix(|a.custody|, |b.custody|, Listing(a.custody, A.EntryText) + x, Listing(b.custody, A.EntryText) + y);
    AR.EntryListPrefix(a.custody, b.custody, x, y);
    assert x + [] == x && y + [] == y;
    FieldPrefix(OrNoText(a.custodyRoot), OrNoText(b.custodyRoot), [], []);
  }

  lemma SameSealedSameTexts(a: EvidenceBundle, b: EvidenceBundle)
    requires a.Fits() && b.Fits() && SameSealed(a, b)
    ensures a.Preimage() == b.Preimage()
  {
    forall i | 0 <= i < |a.decisions|
      ensures a.decisions[i].Digest() == b.decisions[i].Digest()
    {
      assert SameDecision(a.decisions[i], b.decisions[i]);
      DecisionDigestExact(a.decisions[i], b.decisions[i]);
    }
    assert AllSame(a.decisions, b.decisions, SameDigest);
    ListingSame(a.decisions, b.decisions, DigestText, SameDigest);
    ListingSame(a.custody, b.custody, A.EntryText, AR.SameEntry);
    assert a.ScopeText() == b.ScopeText() && a.RecordsText() == b.RecordsText() && a.CustodyText() == b.CustodyText();
  }

  predicate SameDigest(a: AuthzDecision, b: AuthzDecision) {
    a.Digest() == b.Digest()
  }

  /** A window that is not stated shows as the epoch, and a subject as the empty string. */
  lemma AbsentShowsAs(b: EvidenceBundle)
    requires b.windowStart.None? && b.windowEnd.None? && b.subjectDid.None?
    ensures b.Digest() == b.(windowStart := Some(0), windowEnd := Some(0), subjectDid := Some([])).Digest()
  {
    var c := b.(windowStart := Some(0), windowEnd := Some(0), subjectDid := Some([]));
    assert b.ScopeText() == c.ScopeText() && b.RecordsText() == c.RecordsText() && b.CustodyText() == c.CustodyText();
  }

  /** Two bundles have one digest exactly when they agree on everything that shows. */
  lemma BundleDigestExact(a: EvidenceBundle, b: EvidenceBundle)
    requires a.Fits() && b.Fits()
    ensures a.Digest() == b.Digest() <==> SameSealed(a, b)
  {
    if SameSealed(a, b) {
      SameSealedSameTexts(a, b);
    }
    if a.Preimage() == b.Preimage() {
      var d := Domain("agentcreds-evidence-bundle-v1");
      var a3, b3 := CheckpointText(a.checkpoint) + a.CustodyText(), CheckpointText(b.checkpoint) + b.CustodyText();
      var a2, b2 := a.RecordsText() + a3, b.RecordsText() + b3;
      SplitAt(d, a.ScopeText() + a2, d, b.ScopeText() + b2);
      ScopePrefix(a, b, a2, b2);
      RecordsPrefix(a, b, a3, b3);
      CheckpointPrefix(a.checkpoint, b.checkpoint, a.CustodyText(), b.CustodyText());
      CustodyInjective(a, b);
    }
  }
}
