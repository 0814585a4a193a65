/** What a compositor holds of an organization whose key signed only its log, as the log
    grows and is exported again. */
module AuditGrowth {
  import opened Wrappers
  import opened Transcript
  import opened Audit
  import opened AuditRuns

  // -- An exported log ------------------------------------------------------------------

  lemma ExportIsAuthentic(correlationId: Str, records: seq<AuditRecord>, anchor: TrustAnchor)
    requires WellKept(correlationId, anchor.did, records)
    ensures AllAuthentic(correlationId, Exported(records, anchor), anchor)
    ensures EntriesOf(Exported(records, anchor)) == Logged(records)
  {
    var cs := Exported(records, anchor);
    forall c | c in cs
      ensures Authentic(correlationId, anchor, c) && EntryOf(c) in Logged(records)
    {
      var i :| 0 <= i < |cs| && cs[i] == c;
      ExportedVerifies(records[i], anchor);
      assert records[i] in records;
    }
    forall r | r in records
      ensures LoggedEntry(r) in EntriesOf(cs)
    {
      var i :| 0 <= i < |records| && records[i] == r;
      assert cs[i] in cs && EntryOf(cs[i]) == LoggedEntry(r);
    }
  }

  /** What the records of a log are composited as. */
  ghost function Logged(records: seq<AuditRecord>): iset<CompositeEntry> {
    iset r | r in records :: LoggedEntry(r)
  }

  /** An entry that shows a record of the log. */
  ghost predicate ShowsLogged(e: CompositeEntry, records: seq<AuditRecord>) {
    exists r | r in records :: SameEntry(e, LoggedEntry(r))
  }

  // -- Ingesting what agrees ------------------------------------------------------------

  /** One commitment per organization and sequence number, whatever the timestamps. */
  ghost predicate Agreeing(entries: iset<CompositeEntry>) {
    forall a, b | a in entries && b in entries && SameKey(a, b) :: a.commitment == b.commitment
  }

  /** The members of `more` whose organization and number `entries` does not hold. */
  ghost function NotHeld(entries: seq<CompositeEntry>, more: iset<CompositeEntry>): iset<CompositeEntry> {
    iset e | e in more && forall x | x in entries :: !SameKey(x, e)
  }

  lemma NotHeldFound(entries: seq<CompositeEntry>, e: CompositeEntry, rest: iset<CompositeEntry>)
    requires exists x | x in entries :: SameKey(x, e)
    ensures NotHeld(entries, iset{e} + rest) == NotHeld(entries, rest)
  {
  }

  lemma NotHeldAdded(entries: seq<CompositeEntry>, e: CompositeEntry, rest: iset<CompositeEntry>)
    requires Consistent(iset{e} + rest) && forall x | x in entries :: !SameKey(x, e)
    ensures NotHeld(entries, iset{e} + rest) == iset{e} + NotHeld(entries + [e], rest)
  {
    assert SameKey(e, e);
    forall y
      ensures y in NotHeld(entries, iset{e} + rest) <==> y in iset{e} + NotHeld(entries + [e], rest)
    {
      assert forall x :: x in entries + [e] <==> x in entries || x == e;
      if y in rest && y != e {
        assert !SameKey(e, y);
      }
    }
  }

  lemma AbsorbAgreeing(correlationId: Str, entries: seq<CompositeEntry>, c: AuditCommitment, anchor: TrustAnchor)
    requires Authentic(correlationId, anchor, c)
    requires forall x | x in entries && SameKey(x, EntryOf(c)) :: x.commitment == c.commitment
    ensures (exists x | x in entries :: SameKey(x, EntryOf(c)))
            ==> Absorb(correlationId, entries, c, anchor) == Ok(entries)
    ensures (forall x | x in entries :: !SameKey(x, EntryOf(c)))
            ==> Absorb(correlationId, entries, c, anchor) == Ok(entries + [EntryOf(c)])
  {
    var found := Find(entries, c.orgId, c.seqNo);
    assert found.Some? ==> SameKey(found.value, EntryOf(c));
  }

  lemma AgreeingParts(entries: seq<CompositeEntry>, e: CompositeEntry, rest: iset<CompositeEntry>)
    requires Consistent(iset{e} + rest) && Agreeing(Members(entries) + (iset{e} + rest))
    ensures Consistent(rest) && Agreeing(Members(entries) + rest) && Agreeing(Members(entries + [e]) + rest)
    ensures forall x | x in entries && SameKey(x, e) :: x.commitment == e.commitment
    ensures Members(entries + [e]) == Members(entries) + iset{e}
  {
    forall x
      ensures x in Members(entries + [e]) <==> x in Members(entries) + iset{e}
    {
    }
  }

  lemma AgreeingStep(correlationId: Str, entries: seq<CompositeEntry>, c: AuditCommitment, anchor: TrustAnchor,
                     rest: iset<CompositeEntry>) returns (next: seq<CompositeEntry>)
    requires Authentic(correlationId, anchor, c)
    requires Consistent(iset{EntryOf(c)} + rest) && Agreeing(Members(entries) + (iset{EntryOf(c)} + rest))
    ensures Absorb(correlationId, entries, c, anchor) == Ok(next)
    ensures Consistent(rest) && Agreeing(Members(next) + rest)
    ensures Members(next) + NotHeld(next, rest) == Members(entries) + NotHeld(entries, iset{EntryOf(c)} + rest)
  {
    var e := EntryOf(c);
    AgreeingParts(entries, e, rest);
    AbsorbAgreeing(correlationId, entries, c, anchor);
    if exists x | x in entries :: SameKey(x, e) {
      next := entries;
      NotHeldFound(entries, e, rest);
    } else {
      next := entries + [e];
      NotHeldAdded(entries, e, rest);
    }
  }

  /** Authentic commitments that agree with what is held are all accepted, and exactly those
      not held yet are added. */
  lemma {:induction false} AgreeingAbsorbed(correlationId: Str, entries: seq<CompositeEntry>,
                                            cs: seq<AuditCommitment>, anchor: TrustAnchor)
    requires AllAuthentic(correlationId, cs, anchor) && Consistent(EntriesOf(cs))
    requires Agreeing(Members(entries) + EntriesOf(cs))
    ensures var r := AbsorbAll(correlationId, entries, cs, anchor);
      r.error.None? && Members(r.entries) == Members(entries) + NotHeld(entries, EntriesOf(cs))
    decreases |cs|
  {
    if cs == [] {
      assert NotHeld(entries, EntriesOf(cs)) == iset{};
    } else {
      assert Authentic(correlationId, anchor, cs[0]);
      EntriesOfCons(cs);
      var next := AgreeingStep(correlationId, entries, cs[0], anchor, EntriesOf(cs[1..]));
      AgreeingAbsorbed(correlationId, next, cs[1..], anchor);
    }
  }

  lemma AgreeingIngested(correlationId: Str, entries: seq<CompositeEntry>, cs: seq<AuditCommitment>,
                         anchor: TrustAnchor)
    requires UniqueKeys(entries) && AllAuthentic(correlationId, cs, anchor) && Consistent(EntriesOf(cs))
    requires Agreeing(Members(entries) + EntriesOf(cs))
    ensures var after := Ingest(correlationId, entries, cs, anchor);
      && after.error.None? && UniqueKeys(after.entries)
      && Members(after.entries) == Members(entries) + NotHeld(entries, EntriesOf(cs))
  {
    AgreeingAbsorbed(correlationId, entries, cs, anchor);
    AbsorbAllKeepsKeysUnique(correlationId, entries, cs, anchor);
    var absorbed := AbsorbAll(correlationId, entries, cs, anchor).entries;
    SortKeepsKeysUnique(absorbed);
    SortKeepsAllMembers(absorbed);
  }

  // -- Growing logs ---------------------------------------------------------------------

  lemma LogIsConsistent(correlationId: Str, orgId: Str, records: seq<AuditRecord>)
    requires WellKept(correlationId, orgId, records)
    ensures Consistent(Logged(records))
  {
  }

  lemma LogAgrees(correlationId: Str, entries: seq<CompositeEntry>, orgId: Str, records: seq<AuditRecord>)
    requires UniqueKeys(entries) && WellKept(correlationId, orgId, records)
    requires forall e | e in entries && e.orgId == orgId :: ShowsLogged(e, records)
    ensures Agreeing(Members(entries) + Logged(records))
  {
    forall a, b | a in Members(entries) + Logged(records) && b in Members(entries) + Logged(records) && SameKey(a, b)
      ensures a.commitment == b.commitment
    {
      if a.orgId == orgId {
        OneRecord(correlationId, orgId, records, a, b);
      } else {
        assert forall r | r in records :: r.orgId == orgId;
      }
    }
  }

  lemma OneRecord(correlationId: Str, orgId: Str, records: seq<AuditRecord>, a: CompositeEntry, b: CompositeEntry)
    requires WellKept(correlationId, orgId, records) && a.seqNo == b.seqNo
    requires a in Logged(records) || ShowsLogged(a, records)
    requires b in Logged(records) || ShowsLogged(b, records)
    ensures a.commitment == b.commitment
  {
    var i :| 0 <= i < |records| && SameEntry(a, LoggedEntry(records[i]));
    var j :| 0 <= j < |records| && SameEntry(b, LoggedEntry(records[j]));
  }

  /** While all that an organization has composited shows records of its log, a later export of
      the log never conflicts and adds exactly the records not held yet. */
  lemma LaterExportAddsTheLog(correlationId: Str, entries: seq<CompositeEntry>, records: seq<AuditRecord>,
                              anchor: TrustAnchor)
    requires UniqueKeys(entries) && WellKept(correlationId, anchor.did, records)
    requires forall e | e in entries && e.orgId == anchor.did :: ShowsLogged(e, records)
    ensures var after := Ingest(correlationId, entries, Exported(records, anchor), anchor);
      && after.error.None? && UniqueKeys(after.entries)
      && Members(after.entries) == Members(entries) + NotHeld(entries, Logged(records))
  {
    ExportIsAuthentic(correlationId, records, anchor);
    LogIsConsistent(correlationId, anchor.did, records);
    LogAgrees(correlationId, entries, anchor.did, records);
    AgreeingIngested(correlationId, entries, Exported(records, anchor), anchor);
  }

  /** What a key signs when it exports a record. */
  function RecordPayload(r: AuditRecord): Hash {
    AuditCommitment(r.correlationId, r.orgId, r.seqNo, r.timestamp, HexText(r.Commitment()), []).Payload()
  }

  /** Every signature that verifies in the run under an anchor of this organization was made to
      export a record of its log. */
  ghost predicate SignedOnlyLog(batches: seq<Batch>, orgId: Str, records: seq<AuditRecord>) {
    forall b, c | b in batches && c in b.commitments && b.anchor.did == orgId
                  && Verifies(b.anchor.key, c.Payload(), c.signature) ::
      exists r | r in records :: c.Payload() == RecordPayload(r)
  }

  lemma PayloadShowsRecord(c: AuditCommitment, r: AuditRecord)
    requires c.Payload() == RecordPayload(r)
    ensures SameEntry(EntryOf(c), LoggedEntry(r))
  {
    CommitmentPayloadExact(c, AuditCommitment(r.correlationId, r.orgId, r.seqNo, r.timestamp,
                                              HexText(r.Commitment()), []));
  }

  lemma VouchedShowsLogged(correlationId: Str, batches: seq<Batch>, orgId: Str, records: seq<AuditRecord>,
                           e: CompositeEntry)
    requires SignedOnlyLog(batches, orgId, records) && e.orgId == orgId && Vouched(correlationId, batches, e)
    ensures ShowsLogged(e, records)
  {
    var b, c :| b in batches && c in b.commitments
      && Authentic(correlationId, b.anchor, c) && EntryOf(c) == e && b.anchor.did == e.orgId;
    var r :| r in records && c.Payload() == RecordPayload(r);
    PayloadShowsRecord(c, r);
  }

  lemma RunShowsOnlyTheLog(correlationId: Str, batches: seq<Batch>, orgId: Str, records: seq<AuditRecord>)
    requires SignedOnlyLog(batches, orgId, records)
    ensures forall e | e in Compose(correlationId, batches) && e.orgId == orgId :: ShowsLogged(e, records)
  {
    RunInvariant(correlationId, batches);
    forall e | e in Compose(correlationId, batches) && e.orgId == orgId
      ensures ShowsLogged(e, records)
    {
      VouchedShowsLogged(correlationId, batches, orgId, records, e);
    }
  }

  lemma GrownLogIsShown(entries: seq<CompositeEntry>, orgId: Str, logged: seq<AuditRecord>, grown: seq<AuditRecord>)
    requires logged <= grown && forall e | e in entries && e.orgId == orgId :: ShowsLogged(e, logged)
    ensures forall e | e in entries && e.orgId == orgId :: ShowsLogged(e, grown)
  {
    forall e | e in entries && e.orgId == orgId
      ensures ShowsLogged(e, grown)
    {
      var i :| 0 <= i < |logged| && SameEntry(e, LoggedEntry(logged[i]));
      assert grown[i] in grown;
    }
  }

  lemma RecordIsShown(correlationId: Str, before: seq<CompositeEntry>, after: seq<CompositeEntry>, orgId: Str,
                      records: seq<AuditRecord>, r: AuditRecord)
    requires WellKept(correlationId, orgId, records) && r in records
    requires forall e | e in before && e.orgId == orgId :: ShowsLogged(e, records)
    requires Members(after) == Members(before) + NotHeld(before, Logged(records))
    ensures exists e | e in after :: SameEntry(e, LoggedEntry(r))
  {
    var mine := LoggedEntry(r);
    if x :| x in before && SameKey(x, mine) {
      assert ShowsLogged(x, records);
      var i :| 0 <= i < |records| && SameEntry(x, LoggedEntry(records[i]));
      var j :| 0 <= j < |records| && records[j] == r;
      assert i == j;
      assert x in Members(after);
      assert x in after;
    } else {
      assert mine in NotHeld(before, Logged(records));
      assert mine in Members(after);
      assert mine in after;
    }
  }

  lemma RecordsAreShown(correlationId: Str, before: seq<CompositeEntry>, after: seq<CompositeEntry>, orgId: Str,
                        records: seq<AuditRecord>)
    requires WellKept(correlationId, orgId, records)
    requires forall e | e in before && e.orgId == orgId :: ShowsLogged(e, records)
    requires Members(after) == Members(before) + NotHeld(before, Logged(records))
    ensures forall r | r in records :: exists e | e in after :: SameEntry(e, LoggedEntry(r))
  {
    forall r | r in records
      ensures exists e | e in after :: SameEntry(e, LoggedEntry(r))
    {
      RecordIsShown(correlationId, before, after, orgId, records, r);
    }
  }

  /** So over every run in which an organization's key signed only its log, failing ingestions
      and other organizations included, exporting the log as it has grown never conflicts: it
      adds exactly the records not held yet, and then every record is shown. */
  lemma ExportNeverConflicts(correlationId: Str, batches: seq<Batch>, anchor: TrustAnchor,
                             logged: seq<AuditRecord>, grown: seq<AuditRecord>)
    requires SignedOnlyLog(batches, anchor.did, logged) && logged <= grown
    requires WellKept(correlationId, anchor.did, grown)
    ensures var before := Compose(correlationId, batches);
      var after := Ingest(correlationId, before, Exported(grown, anchor), anchor);
      && after.error.None? && UniqueKeys(after.entries)
      && Members(after.entries) == Members(before) + NotHeld(before, Logged(grown))
      && forall r | r in grown :: exists e | e in after.entries :: SameEntry(e, LoggedEntry(r))
  {
    var before := Compose(correlationId, batches);
    RunShowsOnlyTheLog(correlationId, batches, anchor.did, logged);
    RunInvariant(correlationId, batches);
    GrownLogIsShown(before, anchor.did, logged, grown);
    LaterExportAddsTheLog(correlationId, before, grown, anchor);
    RecordsAreShown(correlationId, before, Ingest(correlationId, before, Exported(grown, anchor), anchor).entries,
                    anchor.did, grown);
  }

  /** And a record disclosed for the organization is accepted only if it is in its log, up to
      the fraction of its second. */
  lemma DisclosedIsLogged(correlationId: Str, batches: seq<Batch>, orgId: Str, records: seq<AuditRecord>,
                          record: AuditRecord)
    requires SignedOnlyLog(batches, orgId, records) && record.orgId == orgId
    requires VerifyDisclosed(Compose(correlationId, batches), record) == Ok(true)
    ensures exists r | r in records :: r.Shown() == record.Shown()
  {
    var entries := Compose(correlationId, batches);
    RunShowsOnlyTheLog(correlationId, batches, orgId, records);
    var e := Find(entries, record.orgId, record.seqNo).value;
    assert ShowsLogged(e, records);
    var r :| r in records && SameEntry(e, LoggedEntry(r));
    CommitmentExact(record, r);
    HexInjective(record.Commitment(), r.Commitment());
  }

  /** A disclosed record is accepted for a shown one exactly when it is that record, up to the
      fraction of its second. */
  lemma DisclosureExact(entries: seq<CompositeEntry>, e: CompositeEntry, logged: AuditRecord, record: AuditRecord)
    requires UniqueKeys(entries) && e in entries && SameEntry(e, LoggedEntry(logged))
    requires record.orgId == logged.orgId && record.seqNo == logged.seqNo
    ensures VerifyDisclosed(entries, record) == Ok(record.Shown() == logged.Shown())
  {
    var found := Find(entries, record.orgId, record.seqNo);
    assert found.Some? && SameKey(found.value, e);
    CommitmentExact(record, logged);
    HexInjective(record.Commitment(), logged.Commitment());
  }
}
