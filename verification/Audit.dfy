/** Cross-organization audit: each organization's private log, the signed commitments it
    shares, and the compositor that merges them into one chain of custody. */
module Audit {
  import opened Wrappers
  import opened Sorting
  import opened Transcript

  datatype AuditError = WrongCorrelation | WrongOrg | BadSignature | Conflict | NoEntry | CannotSign

  /** One action an organization logged. */
  datatype AuditRecord = AuditRecord(
    correlationId: Str,
    orgId: Str,
    seqNo: u64,
    agentDid: Str,
    action: Str,
    outcome: Str,
    timestamp: Instant,
    salt: Str)
  {
    function Preimage(): seq<Symbol> {
      Domain("agentcreds-audit-record-v1")
      + (StrField(correlationId)
      + (StrField(orgId)
      + (Le64(seqNo)
      + (StrField(agentDid)
      + (StrField(action)
      + (StrField(outcome)
      + (Le64(Seconds(timestamp))
      + StrField(salt))))))))
    }

    function Commitment(): Hash {
      Sha256(Preimage())
    }

    /** What a commitment binds: everything but the fraction of the second. */
    function Shown(): AuditRecord {
      this.(timestamp := Seconds(timestamp) * 1_000_000_000)
    }
  }

  /** Two records have one commitment exactly when they agree on everything it binds. */
  lemma CommitmentExact(a: AuditRecord, b: AuditRecord)
    ensures a.Commitment() == b.Commitment() <==> a.Shown() == b.Shown()
  {
    assert Seconds(a.Shown().timestamp) == Seconds(a.timestamp) && Seconds(b.Shown().timestamp) == Seconds(b.timestamp);
    if a.Shown() == b.Shown() {
      assert a.Preimage() == a.Shown().Preimage() && b.Preimage() == b.Shown().Preimage();
    }
    if a.Preimage() == b.Preimage() {
      var a7, b7 := Le64(Seconds(a.timestamp)) + StrField(a.salt), Le64(Seconds(b.timestamp)) + StrField(b.salt);
      var a6, b6 := StrField(a.outcome) + a7, StrField(b.outcome) + b7;
      var a5, b5 := StrField(a.action) + a6, StrField(b.action) + b6;
      var a4, b4 := StrField(a.agentDid) + a5, StrField(b.agentDid) + b5;
      var a3, b3 := Le64(a.seqNo) + a4, Le64(b.seqNo) + b4;
      var a2, b2 := StrField(a.orgId) + a3, StrField(b.orgId) + b3;
      var d := Domain("agentcreds-audit-record-v1");
      SplitAt(d, StrField(a.correlationId) + a2, d, StrField(b.correlationId) + b2);
      StrFieldPrefix(a.correlationId, b.correlationId, a2, b2);
      StrFieldPrefix(a.orgId, b.orgId, a3, b3);
      Le64Prefix(a.seqNo, b.seqNo, a4, b4);
      StrFieldPrefix(a.agentDid, b.agentDid, a5, b5);
      StrFieldPrefix(a.action, b.action, a6, b6);
      StrFieldPrefix(a.outcome, b.outcome, a7, b7);
      Le64Prefix(Seconds(a.timestamp), Seconds(b.timestamp), StrField(a.salt), StrField(b.salt));
      StrFieldInjective(a.salt, b.salt);
    }
  }

  /** The form of a record that is shared: no payload, a commitment to it, and a signature. */
  datatype AuditCommitment = AuditCommitment(
    correlationId: Str,
    orgId: Str,
    seqNo: u64,
    timestamp: Instant,
    commitment: Text,
    signature: Text)
  {
    function Preimage(): seq<Symbol> {
      Domain("agentcreds-audit-commitment-v1")
      + (StrField(correlationId)
      + (StrField(orgId)
      + (Le64(seqNo)
      + (Le64(Seconds(timestamp))
      + Field(commitment)))))
    }

    function Payload(): Hash {
      Sha256(Preimage())
    }

    predicate VerifiesUnder(anchor: TrustAnchor) {
      orgId == anchor.did && Verifies(anchor.key, Payload(), signature)
    }
  }

  /** Two commitments have one payload exactly when they agree on everything but the signature
      and the fraction of the second. */
  lemma CommitmentPayloadExact(a: AuditCommitment, b: AuditCommitment)
    ensures a.Payload() == b.Payload()
            <==> (&& a.correlationId == b.correlationId && a.orgId == b.orgId && a.seqNo == b.seqNo
                  && Seconds(a.timestamp) == Seconds(b.timestamp) && a.commitment == b.commitment)
  {
    if a.Preimage() == b.Preimage() {
      var a4, b4 := Field(a.commitment), Field(b.commitment);
      var a3, b3 := Le64(Seconds(a.timestamp)) + a4, Le64(Seconds(b.timestamp)) + b4;
      var a2, b2 := Le64(a.seqNo) + a3, Le64(b.seqNo) + b3;
      var a1, b1 := StrField(a.orgId) + a2, StrField(b.orgId) + b2;
      var d := Domain("agentcreds-audit-commitment-v1");
      SplitAt(d, StrField(a.correlationId) + a1, d, StrField(b.correlationId) + b1);
      StrFieldPrefix(a.correlationId, b.correlationId, a1, b1);
      StrFieldPrefix(a.orgId, b.orgId, a2, b2);
      Le64Prefix(a.seqNo, b.seqNo, a3, b3);
      Le64Prefix(Seconds(a.timestamp), Seconds(b.timestamp), a4, b4);
      FieldInjective(a.commitment, b.commitment);
    }
  }

  // -- An organization's log ------------------------------------------------------------

  function CommitmentOf(r: AuditRecord, anchor: TrustAnchor): AuditCommitment {
    var c := AuditCommitment(r.correlationId, r.orgId, r.seqNo, r.timestamp, HexText(r.Commitment()), []);
    c.(signature := SignatureText(anchor.key, c.Payload()))
  }

  function Exported(records: seq<AuditRecord>, anchor: TrustAnchor): (cs: seq<AuditCommitment>)
    ensures |cs| == |records| && forall i | 0 <= i < |cs| :: cs[i] == CommitmentOf(records[i], anchor)
  {
    seq(|records|, i requires 0 <= i < |records| => CommitmentOf(records[i], anchor))
  }

  /** A log numbers its records from zero and marks them as its own. */
  ghost predicate WellKept(correlationId: Str, orgId: Str, records: seq<AuditRecord>) {
    forall i | 0 <= i < |records| ::
      records[i].correlationId == correlationId && records[i].orgId == orgId && records[i].seqNo == i
  }

  class AuditLog {
    const correlationId: Str
    const orgId: Str
    var records: seq<AuditRecord>

    ghost predicate Valid()
      reads this
    {
      WellKept(correlationId, orgId, records)
    }

    constructor (correlation: Str, org: Str)
      ensures Valid() && correlationId == correlation && orgId == org && records == []
    {
      correlationId, orgId, records := correlation, org, [];
    }

    method RecordAt(agentDid: Str, action: Str, outcome: Str, timestamp: Instant, salt: Str) returns (seqNo: u64)
      requires Valid() && |records| < 0x1_0000_0000_0000_0000
      modifies this
      ensures Valid() && seqNo == |old(records)|
      ensures records
           == old(records) + [AuditRecord(correlationId, orgId, seqNo, agentDid, action, outcome, timestamp, salt)]
    {
      seqNo := |records|;
      records := records + [AuditRecord(correlationId, orgId, seqNo, agentDid, action, outcome, timestamp, salt)];
    }

    method Export(anchor: TrustAnchor) returns (r: Result<seq<AuditCommitment>, AuditError>)
      ensures r == if anchor.did != orgId then Err(WrongOrg)
                   else if records == [] || anchor.signs then Ok(Exported(records, anchor))
                   else Err(CannotSign)
    {
      if anchor.did != orgId {
        return Err(WrongOrg);
      }
      var out: seq<AuditCommitment> := [];
      for i := 0 to |records|
        invariant |out| == i && (i > 0 ==> anchor.signs)
        invariant forall j | 0 <= j < i :: out[j] == CommitmentOf(records[j], anchor)
      {
        var record := records[i];
        var c := AuditCommitment(record.correlationId, record.orgId, record.seqNo, record.timestamp,
                                 HexText(record.Commitment()), []);
        match Sign(anchor, c.Payload())
        case Err(_) => return Err(CannotSign);
        case Ok(text) => out := out + [c.(signature := text)];
      }
      assert out == Exported(records, anchor);
      r := Ok(out);
    }
  }

  // -- The compositor -------------------------------------------------------------------

  datatype CompositeEntry = CompositeEntry(orgId: Str, seqNo: u64, timestamp: Instant, commitment: Text)

  function EntryOf(c: AuditCommitment): CompositeEntry {
    CompositeEntry(c.orgId, c.seqNo, c.timestamp, c.commitment)
  }

  /** By time, then organization, then sequence number. */
  predicate ByTime(a: CompositeEntry, b: CompositeEntry) {
    || a.timestamp < b.timestamp
    || (a.timestamp == b.timestamp && (if a.orgId != b.orgId then StrLeq(a.orgId, b.orgId) else a.seqNo <= b.seqNo))
  }

  function Find(entries: seq<CompositeEntry>, orgId: Str, seqNo: u64): (r: Option<CompositeEntry>)
    ensures r.Some? ==> r.value in entries && r.value.orgId == orgId && r.value.seqNo == seqNo
    ensures r.None? ==> forall e | e in entries :: !(e.orgId == orgId && e.seqNo == seqNo)
  {
    if entries == [] then None
    else if entries[0].orgId == orgId && entries[0].seqNo == seqNo then Some(entries[0])
    else
      assert forall e | e in entries :: e == entries[0] || e in entries[1..];
      Find(entries[1..], orgId, seqNo)
  }

  function Absorb(correlationId: Str, entries: seq<CompositeEntry>, c: AuditCommitment, anchor: TrustAnchor)
    : Result<seq<CompositeEntry>, AuditError>
  {
    if c.correlationId != correlationId then Err(WrongCorrelation)
    else if c.orgId != anchor.did then Err(WrongOrg)
    else if !c.VerifiesUnder(anchor) then Err(BadSignature)
    else
      match Find(entries, c.orgId, c.seqNo)
      case None => Ok(entries + [EntryOf(c)])
      case Some(e) => if e.commitment != c.commitment then Err(Conflict) else Ok(entries)
  }

  /** What an ingestion leaves behind, and why it failed if it did. */
  datatype Ingested = Ingested(entries: seq<CompositeEntry>, error: Option<AuditError>)

  function AbsorbAll(correlationId: Str, entries: seq<CompositeEntry>, cs: seq<AuditCommitment>,
                     anchor: TrustAnchor): Ingested
    decreases |cs|
  {
    if cs == [] then Ingested(entries, None)
    else
      match Absorb(correlationId, entries, cs[0], anchor)
      case Err(e) => Ingested(entries, Some(e))
      case Ok(more) => AbsorbAll(correlationId, more, cs[1..], anchor)
  }

  /** A failing commitment ends the ingestion before the sort. */
  function Ingest(correlationId: Str, entries: seq<CompositeEntry>, cs: seq<AuditCommitment>,
                  anchor: TrustAnchor): Ingested {
    var r := AbsorbAll(correlationId, entries, cs, anchor);
    if r.error.Some? then r else Ingested(SortBy(r.entries, ByTime), None)
  }

  function EntryText(e: CompositeEntry): seq<Symbol> {
    StrField(e.orgId) + (Le64(e.seqNo) + (Le64(Seconds(e.timestamp)) + Field(e.commitment)))
  }

  function RootPreimage(correlationId: Str, entries: seq<CompositeEntry>): seq<Symbol> {
    Domain("agentcreds-audit-commitment-v1") + (StrField(correlationId) + Listing(entries, EntryText))
  }

  function RootHash(correlationId: Str, entries: seq<CompositeEntry>): Hash {
    Sha256(RootPreimage(correlationId, entries))
  }

  /** Whether a disclosed record is the one committed to. */
  function VerifyDisclosed(entries: seq<CompositeEntry>, record: AuditRecord): Result<bool, AuditError> {
    match Find(entries, record.orgId, record.seqNo)
    case None => Err(NoEntry)
    case Some(e) => Ok(e.commitment == HexText(record.Commitment()))
  }

  class AuditCompositor {
    const correlationId: Str
    var entries: seq<CompositeEntry>

    constructor (correlation: Str)
      ensures correlationId == correlation && entries == []
    {
      correlationId, entries := correlation, [];
    }

    method IngestBatch(commitments: seq<AuditCommitment>, anchor: TrustAnchor) returns (r: Result<(), AuditError>)
      modifies this
      ensures var after := Ingest(correlationId, old(entries), commitments, anchor);
        && entries == after.entries
        && r == if after.error.Some? then Err(after.error.value) else Ok(())
    {
      ghost var whole := AbsorbAll(correlationId, entries, commitments, anchor);
      assert commitments[0..] == commitments;
      for i := 0 to |commitments|
        invariant AbsorbAll(correlationId, entries, commitments[i..], anchor) == whole
      {
        var c := commitments[i];
        DropCons(commitments, i);
        if c.correlationId != correlationId {
          return Err(WrongCorrelation);
        }
        if c.orgId != anchor.did {
          return Err(WrongOrg);
        }
        if !c.VerifiesUnder(anchor) {
          return Err(BadSignature);
        }
        match Find(entries, c.orgId, c.seqNo)
        case Some(existing) =>
          if existing.commitment != c.commitment {
            return Err(Conflict);
          }
        case None =>
          entries := entries + [EntryOf(c)];
      }
      entries := SortBy(entries, ByTime);
      r := Ok(());
    }

    method RootOf() returns (h: Hash)
      ensures h == RootHash(correlationId, entries)
    {
      var hasher := new Hasher("agentcreds-audit-commitment-v1");
      hasher.Update(StrField(correlationId), Listing(entries, EntryText));
      hasher.UpdateEach(entries, EntryText, []);
      assert Listing(entries, EntryText) + [] == Listing(entries, EntryText) && hasher.absorbed + [] == hasher.absorbed;
      h := hasher.Finalize();
    }
  }

  lemma DropCons<T>(s: seq<T>, i: nat)
    requires i < |s|
    ensures s[i..] != [] && s[i..][0] == s[i] && s[i..][1..] == s[i + 1..]
  {
  }
}
