/** What every run of exports and ingestions keeps, failing ingestions included, and when two
    runs composite to the same chain of custody. */
module AuditRuns {
  import opened Wrappers
  import opened Sorting
  import opened Transcript
  import opened Audit

  /** One organization's commitments as handed to the compositor. */
  datatype Batch = Batch(commitments: seq<AuditCommitment>, anchor: TrustAnchor)

  /** The entries after a run of ingestions, each failing or not. */
  function Compose(correlationId: Str, batches: seq<Batch>): seq<CompositeEntry> {
    if batches == [] then []
    else
      var last := batches[|batches| - 1];
      Ingest(correlationId, Compose(correlationId, batches[..|batches| - 1]), last.commitments, last.anchor).entries
  }

  ghost predicate SameKey(a: CompositeEntry, b: CompositeEntry) {
    a.orgId == b.orgId && a.seqNo == b.seqNo
  }

  /** Every entry is held once, and no two share an organization and sequence number. */
  ghost predicate UniqueKeys(entries: seq<CompositeEntry>) {
    && (forall e | e in entries :: multiset(entries)[e] == 1)
    && (forall a, b | a in entries && b in entries && SameKey(a, b) :: a == b)
  }

  /** One timestamp and commitment per organization and sequence number. */
  ghost predicate Consistent(entries: iset<CompositeEntry>) {
    forall a, b | a in entries && b in entries && SameKey(a, b) :: a == b
  }

  ghost predicate Authentic(correlationId: Str, anchor: TrustAnchor, c: AuditCommitment) {
    c.correlationId == correlationId && c.VerifiesUnder(anchor)
  }

  ghost predicate AllAuthentic(correlationId: Str, cs: seq<AuditCommitment>, anchor: TrustAnchor) {
    forall c | c in cs :: Authentic(correlationId, anchor, c)
  }

  ghost function Members(entries: seq<CompositeEntry>): iset<CompositeEntry> {
    iset e | e in entries
  }

  ghost function EntriesOf(cs: seq<AuditCommitment>): iset<CompositeEntry> {
    iset c | c in cs :: EntryOf(c)
  }

  // -- The order ------------------------------------------------------------------------

  lemma ByTimeIsTotal()
    ensures TotalPreorder(ByTime)
  {
    StrOrder();
    forall a, b
      ensures ByTime(a, b) || ByTime(b, a)
    {
      assert StrLeq(a.orgId, b.orgId) || StrLeq(b.orgId, a.orgId);
    }
    forall a, b, c | ByTime(a, b) && ByTime(b, c)
      ensures ByTime(a, c)
    {
      ByTimeTransitive(a, b, c);
    }
  }

  lemma ByTimeTransitive(a: CompositeEntry, b: CompositeEntry, c: CompositeEntry)
    requires ByTime(a, b) && ByTime(b, c)
    ensures ByTime(a, c)
  {
    if a.timestamp == b.timestamp == c.timestamp && a.orgId != b.orgId && b.orgId != c.orgId {
      LexTransitive(a.orgId, b.orgId, c.orgId);
      if a.orgId == c.orgId {
        LexAntisymmetric(a.orgId, b.orgId);
      }
    }
  }

  lemma EquivalentEntriesShareKey(a: CompositeEntry, b: CompositeEntry)
    requires ByTime(a, b) && ByTime(b, a)
    ensures SameKey(a, b)
  {
    if a.orgId != b.orgId {
      LexAntisymmetric(a.orgId, b.orgId);
    }
  }

  /** A chain of custody is in order exactly when it is chronological, and at one instant by
      organization, byte by byte, and then in the organization's own numbering. */
  lemma SortedIsChronological(entries: seq<CompositeEntry>)
    ensures SortedBy(entries, ByTime)
            <==> forall i, j | 0 <= i < j < |entries| ::
                   var a, b := entries[i], entries[j];
                   || a.timestamp < b.timestamp
                   || (a.timestamp == b.timestamp
                       && (Precedes(a.orgId, b.orgId) || (a.orgId == b.orgId && a.seqNo <= b.seqNo)))
  {
    forall i, j | 0 <= i < j < |entries|
      ensures var a, b := entries[i], entries[j];
        ByTime(a, b)
        <==> || a.timestamp < b.timestamp
             || (a.timestamp == b.timestamp
                 && (Precedes(a.orgId, b.orgId) || (a.orgId == b.orgId && a.seqNo <= b.seqNo)))
    {
      StrLeqExactly(entries[i].orgId, entries[j].orgId);
      NothingPrecedesItself(entries[i].orgId);
    }
  }

  // -- Keys stay unique and entries authentic ------------------------------------------

  lemma AppendKeepsKeysUnique(entries: seq<CompositeEntry>, e: CompositeEntry)
    requires UniqueKeys(entries) && forall x | x in entries :: !SameKey(x, e)
    ensures UniqueKeys(entries + [e])
  {
    assert SameKey(e, e);
    assert multiset(entries)[e] == 0;
    forall x | x in entries + [e]
      ensures multiset(entries + [e])[x] == 1
    {
      assert multiset(entries + [e])[x] == multiset(entries)[x] + multiset{e}[x];
      assert x in entries || x == e;
    }
  }

  lemma {:induction false} AbsorbAllKeepsKeysUnique(correlationId: Str, entries: seq<CompositeEntry>,
                                                    cs: seq<AuditCommitment>, anchor: TrustAnchor)
    requires UniqueKeys(entries)
    ensures UniqueKeys(AbsorbAll(correlationId, entries, cs, anchor).entries)
    decreases |cs|
  {
    if cs != [] {
      var next := Absorb(correlationId, entries, cs[0], anchor);
      if next.Ok? {
        if next.value != entries {
          AppendKeepsKeysUnique(entries, EntryOf(cs[0]));
        }
        AbsorbAllKeepsKeysUnique(correlationId, next.value, cs[1..], anchor);
      }
    }
  }

  lemma SortKeepsKeysUnique(entries: seq<CompositeEntry>)
    requires UniqueKeys(entries)
    ensures UniqueKeys(SortBy(entries, ByTime))
  {
    SortByMultiset(entries, ByTime);
    forall e
      ensures e in SortBy(entries, ByTime) <==> e in entries
    {
      SortKeepsMembers(entries, e);
    }
  }

  lemma {:induction false} AbsorbedAreAuthentic(correlationId: Str, entries: seq<CompositeEntry>,
                                                cs: seq<AuditCommitment>, anchor: TrustAnchor, e: CompositeEntry)
    requires e in AbsorbAll(correlationId, entries, cs, anchor).entries && e !in entries
    ensures exists c | c in cs :: Authentic(correlationId, anchor, c) && EntryOf(c) == e
    decreases |cs|
  {
    var next := Absorb(correlationId, entries, cs[0], anchor);
    if e in next.value {
      assert Authentic(correlationId, anchor, cs[0]) && EntryOf(cs[0]) == e;
    } else {
      AbsorbedAreAuthentic(correlationId, next.value, cs[1..], anchor, e);
    }
  }

  lemma SortKeepsMembers(entries: seq<CompositeEntry>, e: CompositeEntry)
    ensures e in SortBy(entries, ByTime) <==> e in entries
  {
    SortByMultiset(entries, ByTime);
    assert e in multiset(SortBy(entries, ByTime)) <==> e in multiset(entries);
  }

  lemma SortKeepsAllMembers(entries: seq<CompositeEntry>)
    ensures Members(SortBy(entries, ByTime)) == Members(entries)
  {
    forall e
      ensures e in Members(SortBy(entries, ByTime)) <==> e in Members(entries)
    {
      SortKeepsMembers(entries, e);
    }
  }

  /** A batch of the run that carries an authentic commitment for `e`. */
  ghost predicate Vouched(correlationId: Str, batches: seq<Batch>, e: CompositeEntry) {
    exists b, c | b in batches && c in b.commitments ::
      Authentic(correlationId, b.anchor, c) && EntryOf(c) == e && b.anchor.did == e.orgId
  }

  /** Over every run, failing ingestions included, no organization's sequence number is
      composited twice and every entry was signed by its organization. */
  lemma {:induction false} RunInvariant(correlationId: Str, batches: seq<Batch>)
    ensures UniqueKeys(Compose(correlationId, batches))
    ensures forall e | e in Compose(correlationId, batches) :: Vouched(correlationId, batches, e)
  {
    if batches != [] {
      var init, last := batches[..|batches| - 1], batches[|batches| - 1];
      RunInvariant(correlationId, init);
      var before := Compose(correlationId, init);
      var absorbed := AbsorbAll(correlationId, before, last.commitments, last.anchor);
      AbsorbAllKeepsKeysUnique(correlationId, before, last.commitments, last.anchor);
      SortKeepsKeysUnique(absorbed.entries);
      forall e | e in Compose(correlationId, batches)
        ensures Vouched(correlationId, batches, e)
      {
        SortKeepsMembers(absorbed.entries, e);
        if e in before {
          assert Vouched(correlationId, init, e);
        } else {
          AbsorbedAreAuthentic(correlationId, before, last.commitments, last.anchor, e);
          assert last in batches;
        }
      }
    }
  }

  // -- Consistent commitments composite alike ------------------------------------------

  lemma {:induction false} ConsistentAbsorbed(correlationId: Str, entries: seq<CompositeEntry>,
                                              cs: seq<AuditCommitment>, anchor: TrustAnchor)
    requires AllAuthentic(correlationId, cs, anchor) && Consistent(Members(entries) + EntriesOf(cs))
    ensures var r := AbsorbAll(correlationId, entries, cs, anchor);
      r.error.None? && Members(r.entries) == Members(entries) + EntriesOf(cs)
    decreases |cs|
  {
    if cs == [] {
      assert EntriesOf(cs) == iset{};
    } else {
      var c := cs[0];
      assert Authentic(correlationId, anchor, c) && EntryOf(c) in EntriesOf(cs);
      EntriesOfCons(cs);
      var found := Find(entries, c.orgId, c.seqNo);
      if found.Some? {
        assert found.value in Members(entries) && SameKey(found.value, EntryOf(c));
        assert Members(entries) + EntriesOf(cs) == Members(entries) + EntriesOf(cs[1..]);
        ConsistentAbsorbed(correlationId, entries, cs[1..], anchor);
      } else {
        var more := entries + [EntryOf(c)];
        assert Members(more) == Members(entries) + iset{EntryOf(c)};
        assert Members(entries) + EntriesOf(cs) == Members(more) + EntriesOf(cs[1..]);
        ConsistentAbsorbed(correlationId, more, cs[1..], anchor);
      }
    }
  }

  lemma EntriesOfCons(cs: seq<AuditCommitment>)
    requires cs != []
    ensures EntriesOf(cs) == iset{EntryOf(cs[0])} + EntriesOf(cs[1..])
  {
    assert forall c | c in cs :: c == cs[0] || c in cs[1..];
  }

  /** All that a run of batches commits to. */
  ghost function Committed(batches: seq<Batch>): iset<CompositeEntry> {
    iset b, c | b in batches && c in b.commitments :: EntryOf(c)
  }

  ghost predicate RunAuthentic(correlationId: Str, batches: seq<Batch>) {
    forall b | b in batches :: AllAuthentic(correlationId, b.commitments, b.anchor)
  }

  lemma CommittedSnoc(batches: seq<Batch>)
    requires batches != []
    ensures Committed(batches) == Committed(batches[..|batches| - 1]) + EntriesOf(batches[|batches| - 1].commitments)
  {
    var init, last := batches[..|batches| - 1], batches[|batches| - 1];
    assert forall b | b in batches :: b in init || b == last;
    assert forall b | b in init :: b in batches;
    assert last in batches;
  }

  /** A run of authentic and consistent batches holds exactly what they commit to, in order. */
  lemma {:induction false} ConsistentRun(correlationId: Str, batches: seq<Batch>)
    requires RunAuthentic(correlationId, batches) && Consistent(Committed(batches))
    ensures Members(Compose(correlationId, batches)) == Committed(batches)
    ensures SortedBy(Compose(correlationId, batches), ByTime)
  {
    if batches != [] {
      var init, last := batches[..|batches| - 1], batches[|batches| - 1];
      CommittedSnoc(batches);
      assert last in batches;
      ConsistentRun(correlationId, init);
      var before := Compose(correlationId, init);
      ConsistentAbsorbed(correlationId, before, last.commitments, last.anchor);
      var absorbed := AbsorbAll(correlationId, before, last.commitments, last.anchor).entries;
      ByTimeIsTotal();
      SortBySorted(absorbed, ByTime);
      SortKeepsAllMembers(absorbed);
    }
  }

  lemma SameMembersSameMultiset(a: seq<CompositeEntry>, b: seq<CompositeEntry>)
    requires UniqueKeys(a) && UniqueKeys(b) && Members(a) == Members(b)
    ensures multiset(a) == multiset(b)
  {
    forall e
      ensures multiset(a)[e] == multiset(b)[e]
    {
      assert e in Members(a) <==> e in Members(b);
      assert multiset(a)[e] == if e in a then 1 else 0;
      assert multiset(b)[e] == if e in b then 1 else 0;
    }
  }

  /** Two runs over the same authentic and consistent commitments, in whatever batches, order
      and repetition, hold one chain of custody: the unique list of them sorted by time. */
  lemma OrderNeverShows(correlationId: Str, runA: seq<Batch>, runB: seq<Batch>)
    requires RunAuthentic(correlationId, runA) && RunAuthentic(correlationId, runB)
    requires Committed(runA) == Committed(runB) && Consistent(Committed(runA))
    ensures Compose(correlationId, runA) == Compose(correlationId, runB)
    ensures RootHash(correlationId, Compose(correlationId, runA))
         == RootHash(correlationId, Compose(correlationId, runB))
  {
    var a, b := Compose(correlationId, runA), Compose(correlationId, runB);
    ConsistentRun(correlationId, runA);
    ConsistentRun(correlationId, runB);
    RunInvariant(correlationId, runA);
    RunInvariant(correlationId, runB);
    SameMembersSameMultiset(a, b);
    ByTimeIsTotal();
    assert AntisymmetricOn(a, ByTime) by {
      forall x, y | x in a && y in a && ByTime(x, y) && ByTime(y, x)
        ensures x == y
      {
        EquivalentEntriesShareKey(x, y);
      }
    }
    SortedUnique(a, b, ByTime);
  }

  // -- The root hash --------------------------------------------------------------------

  predicate SameEntry(a: CompositeEntry, b: CompositeEntry) {
    && a.orgId == b.orgId && a.seqNo == b.seqNo
    && Seconds(a.timestamp) == Seconds(b.timestamp)
    && a.commitment == b.commitment
  }

  lemma EntryTextPrefix(x: CompositeEntry, y: CompositeEntry, r: seq<Symbol>, s: seq<Symbol>)
    requires EntryText(x) + r == EntryText(y) + s
    ensures SameEntry(x, y) && r == s
  {
    Nest3(StrField(x.orgId), Le64(x.seqNo), Le64(Seconds(x.timestamp)), Field(x.commitment), r);
    Nest3(StrField(y.orgId), Le64(y.seqNo), Le64(Seconds(y.timestamp)), Field(y.commitment), s);
    var x2, y2 := Field(x.commitment) + r, Field(y.commitment) + s;
    var x1, y1 := Le64(Seconds(x.timestamp)) + x2, Le64(Seconds(y.timestamp)) + y2;
    StrFieldPrefix(x.orgId, y.orgId, Le64(x.seqNo) + x1, Le64(y.seqNo) + y1);
    Le64Prefix(x.seqNo, y.seqNo, x1, y1);
    Le64Prefix(Seconds(x.timestamp), Seconds(y.timestamp), x2, y2);
    FieldPrefix(x.commitment, y.commitment, r, s);
  }

  lemma EntryListPrefix(a: seq<CompositeEntry>, b: seq<CompositeEntry>, r: seq<Symbol>, s: seq<Symbol>)
    requires |a| == |b| && Listing(a, EntryText) + r == Listing(b, EntryText) + s
    ensures AllSame(a, b, SameEntry) && r == s
  {
    forall x, y, t, u | EntryText(x) + t == EntryText(y) + u
      ensures SameEntry(x, y) && t == u
    {
      EntryTextPrefix(x, y, t, u);
    }
    ListingPrefix(a, b, EntryText, SameEntry, r, s);
  }

  /** No count is written, and none is needed: nothing follows the entries. */
  lemma {:induction false} EntriesFillTheRest(a: seq<CompositeEntry>, b: seq<CompositeEntry>)
    requires Listing(a, EntryText) == Listing(b, EntryText)
    ensures AllSame(a, b, SameEntry)
  {
    if a != [] && b != [] {
      EntryTextPrefix(a[0], b[0], Listing(a[1..], EntryText), Listing(b[1..], EntryText));
      EntriesFillTheRest(a[1..], b[1..]);
      AllSameCons(a, b, SameEntry);
    }
  }

  /** Two chains of custody have one root hash exactly when they are for one correlation and
      show the same entries in the same order. */
  lemma RootHashExact(c: Str, a: seq<CompositeEntry>, d: Str, b: seq<CompositeEntry>)
    ensures RootHash(c, a) == RootHash(d, b) <==> c == d && AllSame(a, b, SameEntry)
  {
    if c == d && AllSame(a, b, SameEntry) {
      ListingSame(a, b, EntryText, SameEntry);
    }
    if RootPreimage(c, a) == RootPreimage(d, b) {
      var domain := Domain("agentcreds-audit-commitment-v1");
      SplitAt(domain, StrField(c) + Listing(a, EntryText), domain, StrField(d) + Listing(b, EntryText));
      StrFieldPrefix(c, d, Listing(a, EntryText), Listing(b, EntryText));
      EntriesFillTheRest(a, b);
    }
  }

  // -- When the chain is in order -------------------------------------------------------

  /** The entries that an ingestion adds, up to the first commitment it refuses, in the order
      of the commitments. */
  function Additions(correlationId: Str, entries: seq<CompositeEntry>, cs: seq<AuditCommitment>, anchor: TrustAnchor)
    : seq<CompositeEntry>
    decreases |cs|
  {
    if cs == [] || Absorb(correlationId, entries, cs[0], anchor).Err? then []
    else if Find(entries, cs[0].orgId, cs[0].seqNo).Some? then Additions(correlationId, entries, cs[1..], anchor)
    else [EntryOf(cs[0])] + Additions(correlationId, entries + [EntryOf(cs[0])], cs[1..], anchor)
  }

  /** Before the sort, an ingestion leaves the earlier entries in place and appends. */
  lemma {:induction false} IngestionAppends(correlationId: Str, entries: seq<CompositeEntry>,
                                            cs: seq<AuditCommitment>, anchor: TrustAnchor)
    ensures AbsorbAll(correlationId, entries, cs, anchor).entries
         == entries + Additions(correlationId, entries, cs, anchor)
    decreases |cs|
  {
    var next := if cs == [] then Err(NoEntry) else Absorb(correlationId, entries, cs[0], anchor);
    if next.Ok? {
      IngestionAppends(correlationId, next.value, cs[1..], anchor);
      if Find(entries, cs[0].orgId, cs[0].seqNo).None? {
        Associate(entries, [EntryOf(cs[0])], Additions(correlationId, next.value, cs[1..], anchor));
      }
    } else {
      assert entries + [] == entries;
    }
  }

  /** `added` begins where `entries` ends. */
  predicate Continues(entries: seq<CompositeEntry>, added: seq<CompositeEntry>) {
    entries == [] || added == [] || ByTime(entries[|entries| - 1], added[0])
  }

  lemma PartsInOrder(a: seq<CompositeEntry>, b: seq<CompositeEntry>)
    requires SortedBy(a + b, ByTime)
    ensures SortedBy(a, ByTime) && SortedBy(b, ByTime) && Continues(a, b)
  {
    var s := a + b;
    assert forall i | 0 <= i < |a| :: s[i] == a[i];
    assert forall i | 0 <= i < |b| :: s[|a| + i] == b[i];
  }

  lemma AcrossInOrder(a: seq<CompositeEntry>, b: seq<CompositeEntry>, i: nat, j: nat)
    requires SortedBy(a, ByTime) && SortedBy(b, ByTime) && Continues(a, b) && i < |a| && j < |b|
    ensures ByTime(a[i], b[j])
  {
    ByTimeIsTotal();
    var last, first := a[|a| - 1], b[0];
    assert ByTime(last, last) && ByTime(first, first);
    assert ByTime(a[i], last) && ByTime(last, first) && ByTime(first, b[j]);
  }

  lemma AppendInOrder(a: seq<CompositeEntry>, b: seq<CompositeEntry>)
    ensures SortedBy(a + b, ByTime) <==> SortedBy(a, ByTime) && SortedBy(b, ByTime) && Continues(a, b)
  {
    var s := a + b;
    if SortedBy(s, ByTime) {
      PartsInOrder(a, b);
    }
    if SortedBy(a, ByTime) && SortedBy(b, ByTime) && Continues(a, b) {
      forall i, j | 0 <= i < j < |s|
        ensures ByTime(s[i], s[j])
      {
        if i < |a| <= j {
          AcrossInOrder(a, b, i, j - |a|);
        }
      }
    }
  }

  /** Whether a run leaves its chain in order: a success sorts it, whatever failed before; a
      failure keeps it in order only if what it added continues it in order. */
  ghost predicate EndsInOrder(correlationId: Str, batches: seq<Batch>) {
    batches == []
    || var before, last := Compose(correlationId, batches[..|batches| - 1]), batches[|batches| - 1];
       var added := Additions(correlationId, before, last.commitments, last.anchor);
       || Ingest(correlationId, before, last.commitments, last.anchor).error.None?
       || (EndsInOrder(correlationId, batches[..|batches| - 1]) && SortedBy(added, ByTime) && Continues(before, added))
  }

  /** Over every run the chain of custody is in order exactly then. */
  lemma {:induction false} InOrderExactly(correlationId: Str, batches: seq<Batch>)
    ensures SortedBy(Compose(correlationId, batches), ByTime) <==> EndsInOrder(correlationId, batches)
  {
    if batches != [] {
      var init, last := batches[..|batches| - 1], batches[|batches| - 1];
      var before := Compose(correlationId, init);
      InOrderExactly(correlationId, init);
      IngestionAppends(correlationId, before, last.commitments, last.anchor);
      AppendInOrder(before, Additions(correlationId, before, last.commitments, last.anchor));
      ByTimeIsTotal();
      SortBySorted(AbsorbAll(correlationId, before, last.commitments, last.anchor).entries, ByTime);
    }
  }

  function LoggedEntry(r: AuditRecord): CompositeEntry {
    CompositeEntry(r.orgId, r.seqNo, r.timestamp, HexText(r.Commitment()))
  }

  lemma ExportedVerifies(r: AuditRecord, anchor: TrustAnchor)
    requires r.orgId == anchor.did
    ensures CommitmentOf(r, anchor).VerifiesUnder(anchor) && EntryOf(CommitmentOf(r, anchor)) == LoggedEntry(r)
  {
    var c := CommitmentOf(r, anchor);
    assert c.Payload() == c.(signature := []).Payload();
  }

  /** A later record, an earlier one and one of another correlation: the ingestion fails and
      leaves the first two behind, out of order. */
  lemma FailureLeavesUnsorted(correlationId: Str, other: Str, late: AuditRecord, early: AuditRecord,
                              anchor: TrustAnchor)
    requires other != correlationId && late.timestamp > early.timestamp && late.seqNo != early.seqNo
    requires late.correlationId == early.correlationId == correlationId && late.orgId == early.orgId == anchor.did
    ensures var cs := [CommitmentOf(late, anchor), CommitmentOf(early, anchor),
                       CommitmentOf(early.(correlationId := other), anchor)];
      var after := Ingest(correlationId, [], cs, anchor);
      && after == Ingested([LoggedEntry(late), LoggedEntry(early)], Some(WrongCorrelation))
      && !SortedBy(after.entries, ByTime)
  {
    var x, y := CommitmentOf(late, anchor), CommitmentOf(early, anchor);
    var z := CommitmentOf(early.(correlationId := other), anchor);
    var e1, e2 := [EntryOf(x)], [EntryOf(x), EntryOf(y)];
    var result := Ingested(e2, Some(WrongCorrelation));
    AbsorbFresh(correlationId, [], late, anchor);
    AbsorbFresh(correlationId, e1, early, anchor);
    assert [] + [EntryOf(x)] == e1 && e1 + [EntryOf(y)] == e2;
    assert AbsorbAll(correlationId, e2, [z], anchor) == result;
    assert [y, z][1..] == [z];
    assert AbsorbAll(correlationId, e1, [y, z], anchor) == result;
    assert [x, y, z][1..] == [y, z];
    assert AbsorbAll(correlationId, [], [x, y, z], anchor) == result;
    assert !ByTime(e2[0], e2[1]);
  }

  lemma AbsorbFresh(correlationId: Str, entries: seq<CompositeEntry>, r: AuditRecord, anchor: TrustAnchor)
    requires r.correlationId == correlationId && r.orgId == anchor.did
    requires forall e | e in entries :: e.seqNo != r.seqNo
    ensures Absorb(correlationId, entries, CommitmentOf(r, anchor), anchor) == Ok(entries + [LoggedEntry(r)])
  {
    ExportedVerifies(r, anchor);
  }
}
