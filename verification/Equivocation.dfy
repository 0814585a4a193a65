/** Equivocation is caught: a run of ingestions goes through exactly when every commitment in it
    is authentic and no organization committed to two different things under one number. */
module Equivocation {
  import opened Transcript
  import opened Audit
  import opened AuditRuns

  /** What a compositor accepts of one commitment, and what it does then: it is for its
      correlation, by the organization whose anchor signed it, and agrees with what is held. */
  lemma AbsorbExactly(correlationId: Str, entries: seq<CompositeEntry>, c: AuditCommitment, anchor: TrustAnchor)
    requires UniqueKeys(entries)
    ensures var r := Absorb(correlationId, entries, c, anchor);
      && (r.Ok? <==> && c.correlationId == correlationId && c.orgId == anchor.did
                     && Verifies(anchor.key, c.Payload(), c.signature)
                     && forall e | e in entries && e.orgId == c.orgId && e.seqNo == c.seqNo ::
                          e.commitment == c.commitment)
      && (r.Ok? ==> r.value == if Holds(entries, c) then entries
                               else entries + [CompositeEntry(c.orgId, c.seqNo, c.timestamp, c.commitment)])
  {
    var found := Find(entries, c.orgId, c.seqNo);
    if found.Some? {
      forall e | e in entries && e.orgId == c.orgId && e.seqNo == c.seqNo
        ensures e == found.value
      {
        var i :| 0 <= i < |entries| && entries[i] == e;
        var j :| 0 <= j < |entries| && entries[j] == found.value;
        assert SameKey(entries[i], entries[j]);
      }
    }
  }

  /** An entry shows the commitment. */
  ghost predicate Holds(entries: seq<CompositeEntry>, c: AuditCommitment) {
    exists e | e in entries :: e.orgId == c.orgId && e.seqNo == c.seqNo && e.commitment == c.commitment
  }

  /** Two commitments under one number of an organization commit to the same. */
  predicate Agree(a: AuditCommitment, b: AuditCommitment) {
    a.orgId == b.orgId && a.seqNo == b.seqNo ==> a.commitment == b.commitment
  }

  ghost predicate AllAgree(cs: seq<AuditCommitment>) {
    forall a, b | a in cs && b in cs :: Agree(a, b)
  }

  predicate Fits(e: CompositeEntry, c: AuditCommitment) {
    e.orgId == c.orgId && e.seqNo == c.seqNo ==> e.commitment == c.commitment
  }

  /** And with what is held. */
  ghost predicate AllFit(entries: seq<CompositeEntry>, cs: seq<AuditCommitment>) {
    forall e, c | e in entries && c in cs :: Fits(e, c)
  }

  lemma HoldsMore(entries: seq<CompositeEntry>, more: seq<CompositeEntry>, c: AuditCommitment)
    requires Holds(entries, c) && forall e | e in entries :: e in more
    ensures Holds(more, c)
  {
  }

  lemma AbsorbKeepsUnique(correlationId: Str, entries: seq<CompositeEntry>, c: AuditCommitment, anchor: TrustAnchor)
    requires UniqueKeys(entries) && Absorb(correlationId, entries, c, anchor).Ok?
    ensures UniqueKeys(Absorb(correlationId, entries, c, anchor).value)
    ensures forall e | e in entries :: e in Absorb(correlationId, entries, c, anchor).value
    ensures Holds(Absorb(correlationId, entries, c, anchor).value, c)
  {
    var found := Find(entries, c.orgId, c.seqNo);
    if found.None? {
      AppendKeepsKeysUnique(entries, EntryOf(c));
      assert EntryOf(c) in entries + [EntryOf(c)];
    }
  }

  /** A batch that goes through is authentic, and all of it is held. */
  lemma {:induction false} AbsorbedIsHeld(correlationId: Str, entries: seq<CompositeEntry>, cs: seq<AuditCommitment>,
                                          anchor: TrustAnchor)
    requires UniqueKeys(entries) && AbsorbAll(correlationId, entries, cs, anchor).error.None?
    ensures AllAuthentic(correlationId, cs, anchor)
    ensures var after := AbsorbAll(correlationId, entries, cs, anchor).entries;
      && (forall e | e in entries :: e in after) && (forall c | c in cs :: Holds(after, c))
    decreases |cs|
  {
    if cs != [] {
      var more := Absorb(correlationId, entries, cs[0], anchor).value;
      AbsorbKeepsUnique(correlationId, entries, cs[0], anchor);
      AbsorbedIsHeld(correlationId, more, cs[1..], anchor);
      var after := AbsorbAll(correlationId, more, cs[1..], anchor).entries;
      HoldsMore(more, after, cs[0]);
      assert Authentic(correlationId, anchor, cs[0]);
      assert forall c | c in cs :: c == cs[0] || c in cs[1..];
    }
  }

  lemma FitsAfter(correlationId: Str, entries: seq<CompositeEntry>, cs: seq<AuditCommitment>, anchor: TrustAnchor)
    requires UniqueKeys(entries) && cs != [] && AllAgree(cs) && AllFit(entries, cs)
    requires Authentic(correlationId, anchor, cs[0])
    ensures Absorb(correlationId, entries, cs[0], anchor).Ok?
    ensures AllAgree(cs[1..]) && AllFit(Absorb(correlationId, entries, cs[0], anchor).value, cs[1..])
  {
    assert cs[0] in cs && forall c | c in cs[1..] :: c in cs;
    AbsorbExactly(correlationId, entries, cs[0], anchor);
    forall e | e in entries && e.orgId == cs[0].orgId && e.seqNo == cs[0].seqNo
      ensures e.commitment == cs[0].commitment
    {
      assert Fits(e, cs[0]);
    }
    forall e, c | e in Absorb(correlationId, entries, cs[0], anchor).value && c in cs[1..]
      ensures Fits(e, c)
    {
      assert Agree(cs[0], c);
    }
  }

  /** And an authentic batch that agrees with itself and with what is held goes through. */
  lemma {:induction false} AgreeingGoesThrough(correlationId: Str, entries: seq<CompositeEntry>,
                                               cs: seq<AuditCommitment>, anchor: TrustAnchor)
    requires UniqueKeys(entries) && AllAuthentic(correlationId, cs, anchor) && AllAgree(cs) && AllFit(entries, cs)
    ensures AbsorbAll(correlationId, entries, cs, anchor).error.None?
    decreases |cs|
  {
    if cs != [] {
      assert cs[0] in cs && Authentic(correlationId, anchor, cs[0]);
      FitsAfter(correlationId, entries, cs, anchor);
      AbsorbKeepsUnique(correlationId, entries, cs[0], anchor);
      assert forall c | c in cs[1..] :: c in cs;
      AgreeingGoesThrough(correlationId, Absorb(correlationId, entries, cs[0], anchor).value, cs[1..], anchor);
    }
  }

  // -- Runs -----------------------------------------------------------------------------

  /** Every ingestion of the run went through. */
  ghost predicate AllSucceed(correlationId: Str, batches: seq<Batch>) {
    batches == []
    || var init, last := batches[..|batches| - 1], batches[|batches| - 1];
       AllSucceed(correlationId, init)
       && Ingest(correlationId, Compose(correlationId, init), last.commitments, last.anchor).error.None?
  }

  /** Nowhere in the run does an organization commit to two things under one number. */
  ghost predicate NoEquivocation(batches: seq<Batch>) {
    forall a, b | InRun(batches, a) && InRun(batches, b) :: Agree(a, b)
  }

  ghost predicate InRun(batches: seq<Batch>, c: AuditCommitment) {
    exists b | b in batches :: c in b.commitments
  }

  lemma InRunSnoc(batches: seq<Batch>, c: AuditCommitment)
    requires batches != []
    ensures InRun(batches, c) <==> InRun(batches[..|batches| - 1], c) || c in batches[|batches| - 1].commitments
  {
    var init, last := batches[..|batches| - 1], batches[|batches| - 1];
    assert forall b | b in batches :: b in init || b == last;
    assert last in batches && forall b | b in init :: b in batches;
  }

  lemma {:induction false} SuccessIsHeld(correlationId: Str, batches: seq<Batch>)
    requires AllSucceed(correlationId, batches)
    ensures RunAuthentic(correlationId, batches)
    ensures forall c | InRun(batches, c) :: Holds(Compose(correlationId, batches), c)
  {
    if batches != [] {
      var init, last := batches[..|batches| - 1], batches[|batches| - 1];
      var before := Compose(correlationId, init);
      SuccessIsHeld(correlationId, init);
      RunInvariant(correlationId, init);
      AbsorbedIsHeld(correlationId, before, last.commitments, last.anchor);
      var absorbed := AbsorbAll(correlationId, before, last.commitments, last.anchor).entries;
      forall e | e in absorbed
        ensures e in Compose(correlationId, batches)
      {
        SortKeepsMembers(absorbed, e);
      }
      forall c | InRun(batches, c)
        ensures Holds(Compose(correlationId, batches), c)
      {
        InRunSnoc(batches, c);
        if InRun(init, c) {
          HoldsMore(before, absorbed, c);
        }
        HoldsMore(absorbed, Compose(correlationId, batches), c);
      }
      assert forall b | b in batches :: b in init || b == last;
    }
  }

  lemma HeldAgree(entries: seq<CompositeEntry>, a: AuditCommitment, b: AuditCommitment)
    requires UniqueKeys(entries) && Holds(entries, a) && Holds(entries, b)
    ensures Agree(a, b)
  {
    var x :| x in entries && x.orgId == a.orgId && x.seqNo == a.seqNo && x.commitment == a.commitment;
    var y :| y in entries && y.orgId == b.orgId && y.seqNo == b.seqNo && y.commitment == b.commitment;
    if a.orgId == b.orgId && a.seqNo == b.seqNo {
      var i :| 0 <= i < |entries| && entries[i] == x;
      var j :| 0 <= j < |entries| && entries[j] == y;
      assert SameKey(entries[i], entries[j]);
    }
  }

  lemma HeldFits(correlationId: Str, init: seq<Batch>, last: Batch)
    requires NoEquivocation(init + [last])
    ensures AllAgree(last.commitments) && AllFit(Compose(correlationId, init), last.commitments)
  {
    var batches := init + [last];
    assert batches[..|batches| - 1] == init && batches[|batches| - 1] == last;
    forall c | c in last.commitments || InRun(init, c)
      ensures InRun(batches, c)
    {
      InRunSnoc(batches, c);
    }
    RunInvariant(correlationId, init);
    forall e, c | e in Compose(correlationId, init) && c in last.commitments
      ensures Fits(e, c)
    {
      var b, d :| b in init && d in b.commitments && Authentic(correlationId, b.anchor, d) && EntryOf(d) == e
                  && b.anchor.did == e.orgId;
      assert InRun(init, d) && Agree(d, c);
    }
  }

  /** The whole run goes through exactly when everything in it is authentic and nobody
      equivocates, in whatever batches and order. */
  lemma {:induction false} EquivocationIsCaught(correlationId: Str, batches: seq<Batch>)
    ensures AllSucceed(correlationId, batches) <==> RunAuthentic(correlationId, batches) && NoEquivocation(batches)
  {
    if AllSucceed(correlationId, batches) {
      SuccessIsHeld(correlationId, batches);
      RunInvariant(correlationId, batches);
      forall a, b | InRun(batches, a) && InRun(batches, b)
        ensures Agree(a, b)
      {
        HeldAgree(Compose(correlationId, batches), a, b);
      }
    }
    if RunAuthentic(correlationId, batches) && NoEquivocation(batches) && batches != [] {
      var init, last := batches[..|batches| - 1], batches[|batches| - 1];
      assert batches == init + [last] && last in batches;
      forall c | InRun(init, c)
        ensures InRun(batches, c)
      {
        InRunSnoc(batches, c);
      }
      assert forall b | b in init :: b in batches;
      EquivocationIsCaught(correlationId, init);
      RunInvariant(correlationId, init);
      HeldFits(correlationId, init, last);
      AgreeingGoesThrough(correlationId, Compose(correlationId, init), last.commitments, last.anchor);
    }
  }
}
