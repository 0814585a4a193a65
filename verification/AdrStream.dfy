/** The decision stream: a hash chain over the recorded decisions, resumable from its count
    and head, with signed checkpoints and bounded in-memory sinks. */
module AdrStreams {
  import opened Wrappers
  import opened Transcript
  import opened Adr

  const CHAIN_DOMAIN := "agentcreds-adr-chain-v1"

  function GenesisHead(): Hash {
    Sha256(Domain(CHAIN_DOMAIN))
  }

  /** Fold one decision into the chain. */
  function Fold(previous: Hash, seqNo: u64, digest: Hash): Hash {
    Sha256(Domain(CHAIN_DOMAIN) + ([Raw(previous)] + (Le64(seqNo) + [Raw(digest)])))
  }

  lemma FoldInjective(p: Hash, m: u64, d: Hash, q: Hash, n: u64, e: Hash)
    requires Fold(p, m, d) == Fold(q, n, e)
    ensures p == q && m == n && d == e
  {
    var x, y := Le64(m) + [Raw(d)], Le64(n) + [Raw(e)];
    SplitAt(Domain(CHAIN_DOMAIN), [Raw(p)] + x, Domain(CHAIN_DOMAIN), [Raw(q)] + y);
    SplitAt([Raw(p)], x, [Raw(q)], y);
    Le64Prefix(m, n, [Raw(d)], [Raw(e)]);
    assert [Raw(d)][0] == [Raw(e)][0];
  }

  lemma FoldIsNotGenesis(p: Hash, m: u64, d: Hash)
    ensures Fold(p, m, d) != GenesisHead()
  {
    assert |Domain(CHAIN_DOMAIN) + ([Raw(p)] + (Le64(m) + [Raw(d)]))| > |Domain(CHAIN_DOMAIN)|;
  }

  /** The head that a log's decisions, in order, lead to from `head`. */
  function ReplayFrom(head: Hash, log: seq<AuthzDecision>): Hash
    decreases |log|
  {
    if log == [] then head else ReplayFrom(Fold(head, log[0].seqNo, log[0].Digest()), log[1..])
  }

  function ReplayHead(log: seq<AuthzDecision>): Hash {
    ReplayFrom(GenesisHead(), log)
  }

  lemma {:induction false} ReplayAppend(head: Hash, a: seq<AuthzDecision>, b: seq<AuthzDecision>)
    ensures ReplayFrom(head, a + b) == ReplayFrom(ReplayFrom(head, a), b)
    decreases |a|
  {
    if a == [] {
      assert a + b == b;
    } else {
      assert (a + b)[0] == a[0] && (a + b)[1..] == a[1..] + b;
      ReplayAppend(Fold(head, a[0].seqNo, a[0].Digest()), a[1..], b);
    }
  }

  lemma ReplaySnoc(head: Hash, log: seq<AuthzDecision>, d: AuthzDecision)
    ensures ReplayFrom(head, log + [d]) == Fold(ReplayFrom(head, log), d.seqNo, d.Digest())
  {
    ReplayAppend(head, log, [d]);
    assert [d][1..] == [];
  }

  lemma ReplayNext(log: seq<AuthzDecision>, i: nat)
    requires i < |log|
    ensures ReplayHead(log[..i + 1]) == Fold(ReplayHead(log[..i]), log[i].seqNo, log[i].Digest())
  {
    ReplaySnoc(GenesisHead(), log[..i], log[i]);
    TakeSnoc(log, i);
  }

  method Replay(log: seq<AuthzDecision>) returns (head: Hash)
    ensures head == ReplayHead(log)
  {
    var hasher := new Hasher(CHAIN_DOMAIN);
    head := hasher.Finalize();
    for i := 0 to |log|
      invariant head == ReplayHead(log[..i])
    {
      var digest := DigestOf(log[i]);
      ReplayNext(log, i);
      head := Fold(head, log[i].seqNo, digest);
    }
    assert log[..|log|] == log;
  }

  // -- Recording ------------------------------------------------------------------------

  /** A stream as a value: how many decisions it recorded and its chain head. */
  datatype Chain = Chain(count: u64, head: Hash)

  function Genesis(): Chain {
    Chain(0, GenesisHead())
  }

  /** The counter wraps as a machine word does. */
  function Next(count: u64): u64 {
    if count == 0xffff_ffff_ffff_ffff then 0 else count + 1
  }

  function Advance(c: Chain, d: AuthzDecision): Chain {
    Chain(Next(c.count), Fold(c.head, c.count, d.Digest()))
  }

  function Stamp(c: Chain, d: AuthzDecision): AuthzDecision {
    d.(seqNo := c.count)
  }

  /** The stream after recording `ds`. */
  function RecordAll(c: Chain, ds: seq<AuthzDecision>): Chain
    decreases |ds|
  {
    if ds == [] then c else RecordAll(Advance(c, ds[0]), ds[1..])
  }

  /** The stamped records it returned for them. */
  function Records(c: Chain, ds: seq<AuthzDecision>): seq<AuthzDecision>
    decreases |ds|
  {
    if ds == [] then [] else [Stamp(c, ds[0])] + Records(Advance(c, ds[0]), ds[1..])
  }

  lemma StampKeepsDigest(c: Chain, d: AuthzDecision)
    ensures Stamp(c, d).Digest() == d.Digest()
  {
    var s := Stamp(c, d);
    assert s.HeadText() == d.HeadText() && s.PartiesText() == d.PartiesText();
    assert s.RequestText() == d.RequestText() && s.AccountText() == d.AccountText();
  }

  /** Replaying the records a stream returned, from where it started, gives its head. */
  lemma {:induction false} ReplayFollowsRecording(c: Chain, ds: seq<AuthzDecision>)
    ensures ReplayFrom(c.head, Records(c, ds)) == RecordAll(c, ds).head
    decreases |ds|
  {
    if ds != [] {
      StampKeepsDigest(c, ds[0]);
      ReplayFollowsRecording(Advance(c, ds[0]), ds[1..]);
      var rest := Records(Advance(c, ds[0]), ds[1..]);
      assert ([Stamp(c, ds[0])] + rest)[1..] == rest;
    }
  }

  /** A stream resumed at a saved count and head continues as if it had never stopped. */
  lemma {:induction false} ResumingNeverShows(c: Chain, before: seq<AuthzDecision>, after: seq<AuthzDecision>)
    ensures RecordAll(c, before + after) == RecordAll(RecordAll(c, before), after)
    ensures Records(c, before + after) == Records(c, before) + Records(RecordAll(c, before), after)
    decreases |before|
  {
    if before == [] {
      assert before + after == after;
      assert [] + Records(c, after) == Records(c, after);
    } else {
      assert (before + after)[0] == before[0] && (before + after)[1..] == before[1..] + after;
      ResumingNeverShows(Advance(c, before[0]), before[1..], after);
      Associate([Stamp(c, before[0])], Records(Advance(c, before[0]), before[1..]),
                Records(RecordAll(c, before), after));
    }
  }

  /** The decisions numbered from `first`. */
  function Numbered(first: nat, ds: seq<AuthzDecision>): seq<AuthzDecision>
    requires first + |ds| < 0x1_0000_0000_0000_0000
    decreases |ds|
  {
    if ds == [] then [] else [ds[0].(seqNo := first)] + Numbered(first + 1, ds[1..])
  }

  lemma {:induction false} NumberedAt(first: nat, ds: seq<AuthzDecision>, i: nat)
    requires first + |ds| < 0x1_0000_0000_0000_0000 && i < |ds|
    ensures |Numbered(first, ds)| == |ds| && Numbered(first, ds)[i] == ds[i].(seqNo := first + i)
    decreases |ds|
  {
    if |ds| > 1 {
      NumberedAt(first + 1, ds[1..], if i > 0 then i - 1 else 0);
    }
  }

  lemma {:induction false} CountAdvances(c: Chain, ds: seq<AuthzDecision>)
    requires c.count + |ds| < 0x1_0000_0000_0000_0000
    ensures RecordAll(c, ds).count == c.count + |ds|
    decreases |ds|
  {
    if ds != [] {
      CountAdvances(Advance(c, ds[0]), ds[1..]);
    }
  }

  /** A stream numbers what it records one after the other. */
  lemma {:induction false} RecordsAreNumbered(c: Chain, ds: seq<AuthzDecision>)
    requires c.count + |ds| < 0x1_0000_0000_0000_0000
    ensures Records(c, ds) == Numbered(c.count, ds)
    decreases |ds|
  {
    if ds != [] {
      var next, rest := Advance(c, ds[0]), ds[1..];
      RecordsAreNumbered(next, rest);
      NumberedCons(c.count, ds);
      assert next.count == c.count + 1;
      assert Stamp(c, ds[0]) == ds[0].(seqNo := c.count);
    }
  }

  lemma NumberedCons(first: nat, ds: seq<AuthzDecision>)
    requires first + |ds| < 0x1_0000_0000_0000_0000 && ds != []
    ensures Numbered(first, ds) == [ds[0].(seqNo := first)] + Numbered(first + 1, ds[1..])
  {
  }

  // -- What a head proves ---------------------------------------------------------------

  /** Records that the chain cannot tell apart. */
  predicate SameRecord(a: AuthzDecision, b: AuthzDecision) {
    a.seqNo == b.seqNo && a.Shown() == b.Shown()
  }

  /** The lengths of the signal lists are machine words. */
  predicate InMemory(log: seq<AuthzDecision>) {
    forall d | d in log :: d.Fits()
  }

  lemma {:induction false} SameRecordsReplay(head: Hash, a: seq<AuthzDecision>, b: seq<AuthzDecision>)
    requires InMemory(a) && InMemory(b) && AllSame(a, b, SameRecord)
    ensures ReplayFrom(head, a) == ReplayFrom(head, b)
    decreases |a|
  {
    if a != [] {
      assert SameRecord(a[0], b[0]);
      DecisionDigestExact(a[0], b[0]);
      AllSameTail(a, b, SameRecord);
      SameRecordsReplay(Fold(head, a[0].seqNo, a[0].Digest()), a[1..], b[1..]);
    }
  }

  lemma {:induction false} ReplayInjective(g: Hash, a: seq<AuthzDecision>, h: Hash, b: seq<AuthzDecision>)
    requires InMemory(a) && InMemory(b) && |a| == |b| && ReplayFrom(g, a) == ReplayFrom(h, b)
    ensures g == h && AllSame(a, b, SameRecord)
    decreases |a|
  {
    if a != [] {
      var x, y := a[0], b[0];
      ReplayInjective(Fold(g, x.seqNo, x.Digest()), a[1..], Fold(h, y.seqNo, y.Digest()), b[1..]);
      FoldInjective(g, x.seqNo, x.Digest(), h, y.seqNo, y.Digest());
      DecisionDigestExact(x, y);
      AllSameCons(a, b, SameRecord);
    }
  }

  /** A longer log leads elsewhere: its last `|a|` records would have to start at genesis. */
  lemma LongerLogDiffers(a: seq<AuthzDecision>, b: seq<AuthzDecision>)
    requires InMemory(a) && InMemory(b) && |a| < |b|
    ensures ReplayHead(a) != ReplayHead(b)
  {
    var k := |b| - |a|;
    var start, last, end := b[..k - 1], b[k - 1], b[k..];
    assert b == (start + [last]) + end;
    ReplayAppend(GenesisHead(), start + [last], end);
    ReplaySnoc(GenesisHead(), start, last);
    FoldIsNotGenesis(ReplayHead(start), last.seqNo, last.Digest());
    if ReplayHead(a) == ReplayHead(b) {
      ReplayInjective(GenesisHead(), a, ReplayHead(start + [last]), end);
    }
  }

  /** Two logs lead to one head exactly when they hold the same records in the same order. */
  lemma ReplayExact(a: seq<AuthzDecision>, b: seq<AuthzDecision>)
    requires InMemory(a) && InMemory(b)
    ensures ReplayHead(a) == ReplayHead(b) <==> AllSame(a, b, SameRecord)
  {
    if |a| < |b| {
      LongerLogDiffers(a, b);
    } else if |a| > |b| {
      LongerLogDiffers(b, a);
    } else {
      if ReplayHead(a) == ReplayHead(b) {
        ReplayInjective(GenesisHead(), a, GenesisHead(), b);
      }
      if AllSame(a, b, SameRecord) {
        SameRecordsReplay(GenesisHead(), a, b);
      }
    }
  }

  // -- Checkpoints ----------------------------------------------------------------------

  datatype AdrCheckpoint = AdrCheckpoint(count: u64, head: Text, issuerDid: Str, signature: Text)
  {
    function Preimage(): seq<Symbol> {
      Domain("agentcreds-adr-checkpoint-v1") + (Le64(count) + (Field(head) + StrField(issuerDid)))
    }

    function Payload(): Hash {
      Sha256(Preimage())
    }

    predicate VerifiesUnder(anchor: TrustAnchor) {
      issuerDid == anchor.did && Verifies(anchor.key, Payload(), signature)
    }
  }

  function CheckpointOf(c: Chain, anchor: TrustAnchor): AdrCheckpoint {
    var cp := AdrCheckpoint(c.count, HexText(c.head), anchor.did, []);
    cp.(signature := SignatureText(anchor.key, cp.Payload()))
  }

  /** A checkpoint under the anchor's signature of `signed` is accepted exactly when it is
      `signed`. */
  lemma CheckpointIsTamperEvident(signed: AdrCheckpoint, cp: AdrCheckpoint, anchor: TrustAnchor)
    requires signed.issuerDid == anchor.did
    requires cp.signature == signed.signature == SignatureText(anchor.key, signed.Payload())
    ensures cp.VerifiesUnder(anchor) <==> cp == signed
  {
    if cp.Preimage() == signed.Preimage() {
      var d := Domain("agentcreds-adr-checkpoint-v1");
      var x1, y1 := Field(cp.head) + StrField(cp.issuerDid), Field(signed.head) + StrField(signed.issuerDid);
      SplitAt(d, Le64(cp.count) + x1, d, Le64(signed.count) + y1);
      Le64Prefix(cp.count, signed.count, x1, y1);
      FieldPrefix(cp.head, signed.head, StrField(cp.issuerDid), StrField(signed.issuerDid));
    }
  }

  lemma {:induction false} NumberedInMemory(first: nat, ds: seq<AuthzDecision>)
    requires first + |ds| < 0x1_0000_0000_0000_0000 && InMemory(ds)
    ensures InMemory(Numbered(first, ds))
    decreases |ds|
  {
    if ds != [] {
      assert ds[0] in ds;
      NumberedInMemory(first + 1, ds[1..]);
    }
  }

  /** The head of a fresh stream proves its log. */
  lemma HeadProvesLog(ds: seq<AuthzDecision>, log: seq<AuthzDecision>)
    requires |ds| < 0x1_0000_0000_0000_0000 && InMemory(ds) && InMemory(log)
    ensures ReplayHead(log) == RecordAll(Genesis(), ds).head <==> AllSame(log, Numbered(0, ds), SameRecord)
  {
    ReplayFollowsRecording(Genesis(), ds);
    RecordsAreNumbered(Genesis(), ds);
    NumberedInMemory(0, ds);
    ReplayExact(log, Numbered(0, ds));
  }

  /** A log that leads to an authentic checkpoint's head is the log of the stream that was
      checkpointed: `count` records, numbered from zero, showing the same decisions. */
  lemma CheckpointProvesLog(ds: seq<AuthzDecision>, cp: AdrCheckpoint, anchor: TrustAnchor, log: seq<AuthzDecision>)
    requires |ds| < 0x1_0000_0000_0000_0000 && InMemory(ds) && InMemory(log)
    requires cp.signature == CheckpointOf(RecordAll(Genesis(), ds), anchor).signature && cp.VerifiesUnder(anchor)
    ensures cp.count == |ds|
    ensures HexText(ReplayHead(log)) == cp.head <==> AllSame(log, Numbered(0, ds), SameRecord)
  {
    var c := RecordAll(Genesis(), ds);
    CheckpointIsSigned(c, anchor);
    CheckpointIsTamperEvident(CheckpointOf(c, anchor), cp, anchor);
    CountAdvances(Genesis(), ds);
    HeadProvesLog(ds, log);
    HexInjective(ReplayHead(log), c.head);
  }

  lemma CheckpointIsSigned(c: Chain, anchor: TrustAnchor)
    ensures var cp := CheckpointOf(c, anchor);
      cp.signature == SignatureText(anchor.key, cp.Payload()) && cp.VerifiesUnder(anchor)
  {
    var cp := CheckpointOf(c, anchor);
    assert cp.Payload() == cp.(signature := []).Payload();
  }

  // -- Sinks and the stream itself ------------------------------------------------------

  /** What a sink that keeps at most `capacity` decisions holds after one more. */
  function Retain(records: seq<AuthzDecision>, capacity: nat, d: AuthzDecision): seq<AuthzDecision> {
    (if |records| >= capacity && records != [] then records[1..] else records) + [d]
  }

  /** And after the same decision `copies` times over. */
  function RetainCopies(records: seq<AuthzDecision>, capacity: nat, d: AuthzDecision, copies: nat): seq<AuthzDecision> {
    if copies == 0 then records else Retain(RetainCopies(records, capacity, d, copies - 1), capacity, d)
  }

  /** What it holds after `ds`. */
  function RetainAll(records: seq<AuthzDecision>, capacity: nat, ds: seq<AuthzDecision>): seq<AuthzDecision> {
    if ds == [] then records else Retain(RetainAll(records, capacity, ds[..|ds| - 1]), capacity, ds[|ds| - 1])
  }

  /** The last `capacity` of `ds`, or all of them. */
  function MostRecent(ds: seq<AuthzDecision>, capacity: nat): seq<AuthzDecision> {
    if |ds| <= capacity then ds else ds[|ds| - capacity..]
  }

  lemma RetainedIsRecent(ds: seq<AuthzDecision>, capacity: nat, d: AuthzDecision)
    requires capacity > 0
    ensures Retain(MostRecent(ds, capacity), capacity, d) == MostRecent(ds + [d], capacity)
  {
  }

  /** A sink always holds the most recent decisions, oldest first. */
  lemma {:induction false} SinkHoldsMostRecent(records: seq<AuthzDecision>, capacity: nat, ds: seq<AuthzDecision>)
    requires capacity > 0 && |records| <= capacity
    ensures RetainAll(records, capacity, ds) == MostRecent(records + ds, capacity)
    decreases |ds|
  {
    if ds == [] {
      assert records + ds == records;
    } else {
      var init, d := ds[..|ds| - 1], ds[|ds| - 1];
      SinkHoldsMostRecent(records, capacity, init);
      RetainedIsRecent(records + init, capacity, d);
      assert records + init + [d] == records + ds;
    }
  }

  function Copies(d: AuthzDecision, n: nat): (ds: seq<AuthzDecision>)
    ensures |ds| == n && forall i | 0 <= i < n :: ds[i] == d
  {
    seq(n, _ => d)
  }

  lemma {:induction false} CopiesAreRetained(records: seq<AuthzDecision>, capacity: nat, d: AuthzDecision, copies: nat)
    requires capacity > 0 && |records| <= capacity
    ensures RetainCopies(records, capacity, d, copies) == MostRecent(records + Copies(d, copies), capacity)
    decreases copies
  {
    if copies == 0 {
      assert records + Copies(d, 0) == records;
    } else {
      CopiesAreRetained(records, capacity, d, copies - 1);
      RetainedIsRecent(records + Copies(d, copies - 1), capacity, d);
      assert records + Copies(d, copies - 1) + [d] == records + Copies(d, copies);
    }
  }

  /** A bounded record of recent decisions. */
  class InMemorySink {
    const capacity: nat
    var records: seq<AuthzDecision>

    predicate Valid()
      reads this
    {
      1 <= capacity && |records| <= capacity
    }

    constructor (atLeast: nat)
      ensures Valid() && records == [] && capacity == if atLeast == 0 then 1 else atLeast
    {
      capacity := if atLeast == 0 then 1 else atLeast;
      records := [];
    }

    method Emit(d: AuthzDecision)
      requires Valid()
      modifies this
      ensures Valid() && records == Retain(old(records), capacity, d)
    {
      if |records| >= capacity {
        records := records[1..];
      }
      records := records + [d];
    }
  }

  lemma CopiesTaken(sinks: seq<InMemorySink>, i: nat)
    requires i < |sinks|
    ensures forall s :: multiset(sinks[..i + 1])[s] == multiset(sinks[..i])[s] + if s == sinks[i] then 1 else 0
  {
    TakeSnoc(sinks, i);
    assert multiset(sinks[..i + 1]) == multiset(sinks[..i]) + multiset{sinks[i]};
  }

  /** Hand a decision to every sink, as often as it is subscribed. */
  method EmitToAll(sinks: seq<InMemorySink>, d: AuthzDecision)
    requires forall s | s in sinks :: s.Valid()
    modifies sinks
    ensures forall s | s in sinks :: s.Valid()
    ensures forall s | s in sinks :: s.records == RetainCopies(old(s.records), s.capacity, d, multiset(sinks)[s])
  {
    for i := 0 to |sinks|
      invariant forall s | s in sinks :: s.Valid()
      invariant forall s | s in sinks ::
                  s.records == RetainCopies(old(s.records), s.capacity, d, multiset(sinks[..i])[s])
    {
      CopiesTaken(sinks, i);
      sinks[i].Emit(d);
    }
    assert sinks[..|sinks|] == sinks;
  }

  /** Stamps each decision, advances the chain and hands the decision to every sink; one sink
      may be subscribed more than once. */
  class AdrStream {
    var sinks: seq<InMemorySink>
    var count: u64
    var head: Hash

    function View(): Chain
      reads this
    {
      Chain(count, head)
    }

    ghost predicate Valid()
      reads this, sinks
    {
      forall s | s in sinks :: s.Valid()
    }

    constructor ()
      ensures Valid() && View() == Genesis() && sinks == []
    {
      sinks, count, head := [], 0, GenesisHead();
    }

    /** Continue from a saved count and head. */
    constructor Resume(saved: Chain)
      ensures Valid() && View() == saved && sinks == []
    {
      sinks, count, head := [], saved.count, saved.head;
    }

    method Subscribe(sink: InMemorySink)
      requires Valid() && sink.Valid()
      modifies this
      ensures Valid() && sinks == old(sinks) + [sink] && View() == old(View())
    {
      sinks := sinks + [sink];
    }

    method Record(d: AuthzDecision) returns (stamped: AuthzDecision)
      requires Valid()
      modifies this, sinks
      ensures Valid() && sinks == old(sinks)
      ensures stamped == d.(seqNo := old(count)) && stamped == Stamp(old(View()), d)
      ensures View() == Advance(old(View()), d)
      ensures count == if old(count) == 0xffff_ffff_ffff_ffff then 0 else old(count) + 1
      ensures forall s | s in sinks ::
                s.records == MostRecent(old(s.records) + Copies(stamped, multiset(sinks)[s]), s.capacity)
    {
      stamped := d.(seqNo := count);
      StampKeepsDigest(View(), d);
      var digest := DigestOf(stamped);
      head := Fold(head, count, digest);
      count := Next(count);
      EmitToAll(sinks, stamped);
      forall s | s in sinks
        ensures s.records == MostRecent(old(s.records) + Copies(stamped, multiset(sinks)[s]), s.capacity)
      {
        assert old(s.Valid());
        CopiesAreRetained(old(s.records), s.capacity, stamped, multiset(sinks)[s]);
      }
    }

    method SignCheckpoint(anchor: TrustAnchor) returns (r: Result<AdrCheckpoint, AnchorError>)
      ensures r == if anchor.signs then Ok(CheckpointOf(View(), anchor)) else Err(NoPrivateKey)
      ensures r.Ok? ==>
                && r.value.count == count && r.value.head == HexText(head) && r.value.issuerDid == anchor.did
                && r.value.VerifiesUnder(anchor)
    {
      var cp := AdrCheckpoint(count, HexText(head), anchor.did, []);
      match Sign(anchor, cp.Payload())
      case Err(e) => r := Err(e);
      case Ok(text) => r := Ok(cp.(signature := text));
    }
  }

  datatype ResumeError = HeadNotHex

  /** Resume a stream from its count and head as text. */
  method ResumeAt(count: u64, head: Text) returns (r: Result<AdrStream, ResumeError>)
    ensures r.Ok? <==> |head| == 1 && head[0].Hex?
    ensures r.Ok? ==> fresh(r.value) && r.value.Valid() && r.value.count == count && HexText(r.value.head) == head
  {
    if |head| != 1 || !head[0].Hex? {
      return Err(HeadNotHex);
    }
    var stream := new AdrStream.Resume(Chain(count, head[0].h));
    r := Ok(stream);
  }
}
