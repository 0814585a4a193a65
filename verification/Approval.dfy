/** Human approval: the anchor-signed directory of approver keys, the evidence an approver
    signs, and the record of evidence already relied upon. */
module Approval {
  import opened Wrappers
  import opened Sorting
  import opened Did
  import opened Transcript
  import opened Signed

  /** "approval-key": the kind of evidence an approver's own key signs. */
  const GATE_KEY: Str := [97, 112, 112, 114, 111, 118, 97, 108, 45, 107, 101, 121]

  datatype ApproverEntry = ApproverEntry(approverId: Str, approverDid: Str, roles: seq<Str>, notAfter: Option<Instant>)

  datatype ApproverDirectory = ApproverDirectory(
    version: u64,
    generatedAt: Instant,
    issuerDid: Str,
    entries: seq<ApproverEntry>,
    notAfter: Option<Instant>,
    signature: Text)
  {
    /** No count of the entries is written. */
    function Preimage(): seq<Symbol> {
      Domain("agentcreds-approver-directory-v1")
      + (Le64(version)
      + (Le64(Seconds(generatedAt))
      + (StrField(issuerDid)
      + (Listing(entries, EntryText)
      + OptTime(OptSeconds(notAfter))))))
    }

    function Digest(): Hash {
      Sha256(Preimage())
    }

    function VerifyCurrent(anchor: TrustAnchor, now: Instant): Result<(), SignedError> {
      VerifyAnchorSigned(issuerDid, Digest(), signature, notAfter, now, anchor)
    }

    function Lookup(approverDid: Str, now: Instant): Option<ApproverEntry> {
      FirstLive(entries, approverDid, now)
    }
  }

  function EntryText(e: ApproverEntry): seq<Symbol> {
    StrField(e.approverId)
    + (StrField(e.approverDid)
    + (Le64(|e.roles|)
    + (Listing(e.roles, StrField)
    + OptTime(OptSeconds(e.notAfter)))))
  }

  predicate Enrolled(e: ApproverEntry, did: Str, now: Instant) {
    e.approverDid == did && (e.notAfter.Some? ==> now <= e.notAfter.value)
  }

  /** Entry `i` is the approver's and has not expired. */
  predicate LiveAt(entries: seq<ApproverEntry>, did: Str, now: Instant, i: nat)
    requires i < |entries|
  {
    entries[i].approverDid == did && (entries[i].notAfter == None || now <= entries[i].notAfter.value)
  }

  /** And no entry before it is. */
  ghost predicate FirstLiveAt(entries: seq<ApproverEntry>, did: Str, now: Instant, i: nat)
    requires i < |entries|
  {
    LiveAt(entries, did, now, i) && forall j | 0 <= j < i :: !LiveAt(entries, did, now, j)
  }

  function FirstLive(entries: seq<ApproverEntry>, did: Str, now: Instant): Option<ApproverEntry> {
    if entries == [] then None
    else if Enrolled(entries[0], did, now) then Some(entries[0])
    else FirstLive(entries[1..], did, now)
  }

  /** The lookup gives the first live entry, if there is one. */
  lemma {:induction false} FirstLiveExactly(entries: seq<ApproverEntry>, did: Str, now: Instant)
    ensures FirstLive(entries, did, now).None? <==> forall i | 0 <= i < |entries| :: !LiveAt(entries, did, now, i)
    ensures forall i | 0 <= i < |entries| && FirstLiveAt(entries, did, now, i) ::
              FirstLive(entries, did, now) == Some(entries[i])
    ensures FirstLive(entries, did, now).Some? ==> exists i | 0 <= i < |entries| :: FirstLiveAt(entries, did, now, i)
  {
    if entries == [] {
    } else if Enrolled(entries[0], did, now) {
      assert LiveAt(entries, did, now, 0) && FirstLiveAt(entries, did, now, 0);
    } else {
      var rest := entries[1..];
      FirstLiveExactly(rest, did, now);
      assert !LiveAt(entries, did, now, 0);
      assert forall i | 0 <= i < |rest| :: LiveAt(rest, did, now, i) == LiveAt(entries, did, now, i + 1);
      assert forall i | 0 < i < |entries| :: LiveAt(entries, did, now, i) == LiveAt(rest, did, now, i - 1);
      forall i | 0 <= i < |rest|
        ensures FirstLiveAt(rest, did, now, i) <==> FirstLiveAt(entries, did, now, i + 1)
      {
        FirstLiveShifts(entries, did, now, i);
      }
    }
  }

  lemma FirstLiveShifts(entries: seq<ApproverEntry>, did: Str, now: Instant, i: nat)
    requires entries != [] && !LiveAt(entries, did, now, 0) && i < |entries| - 1
    ensures FirstLiveAt(entries[1..], did, now, i) <==> FirstLiveAt(entries, did, now, i + 1)
  {
    var rest := entries[1..];
    assert forall j | 0 <= j < |rest| :: LiveAt(rest, did, now, j) == LiveAt(entries, did, now, j + 1);
    assert forall j | 0 < j < |entries| :: LiveAt(entries, did, now, j) == LiveAt(rest, did, now, j - 1);
  }

  // -- The directory's transcript -------------------------------------------------------

  /** Entries a digest cannot tell apart. */
  predicate SameEntry(a: ApproverEntry, b: ApproverEntry) {
    && a.approverId == b.approverId && a.approverDid == b.approverDid && a.roles == b.roles
    && OptSeconds(a.notAfter) == OptSeconds(b.notAfter)
  }

  predicate SameDirectory(a: ApproverDirectory, b: ApproverDirectory) {
    && a.version == b.version && Seconds(a.generatedAt) == Seconds(b.generatedAt) && a.issuerDid == b.issuerDid
    && AllSame(a.entries, b.entries, SameEntry)
    && OptSeconds(a.notAfter) == OptSeconds(b.notAfter)
  }

  /** The lengths of the role lists are machine words. */
  predicate InMemory(entries: seq<ApproverEntry>) {
    forall e | e in entries :: |e.roles| < 0x1_0000_0000_0000_0000
  }

  lemma EntryTextPrefix(x: ApproverEntry, y: ApproverEntry, r: seq<Symbol>, s: seq<Symbol>)
    requires |x.roles| < 0x1_0000_0000_0000_0000 && |y.roles| < 0x1_0000_0000_0000_0000
    requires EntryText(x) + r == EntryText(y) + s
    ensures SameEntry(x, y) && r == s
  {
    var xt, yt := OptTime(OptSeconds(x.notAfter)), OptTime(OptSeconds(y.notAfter));
    var x4, y4 := xt + r, yt + s;
    var x3, y3 := Listing(x.roles, StrField) + x4, Listing(y.roles, StrField) + y4;
    var x2, y2 := Le64(|x.roles|) + x3, Le64(|y.roles|) + y3;
    var x1, y1 := StrField(x.approverDid) + x2, StrField(y.approverDid) + y2;
    Nest4(StrField(x.approverId), StrField(x.approverDid), Le64(|x.roles|), Listing(x.roles, StrField), xt, r);
    Nest4(StrField(y.approverId), StrField(y.approverDid), Le64(|y.roles|), Listing(y.roles, StrField), yt, s);
    StrFieldPrefix(x.approverId, y.approverId, x1, y1);
    StrFieldPrefix(x.approverDid, y.approverDid, x2, y2);
    Le64Prefix(|x.roles|, |y.roles|, x3, y3);
    StrListPrefix(x.roles, y.roles, x4, y4);
    OptTimePrefix(OptSeconds(x.notAfter), OptSeconds(y.notAfter), r, s);
  }

  /** An entry takes at least 25 bytes and the trailer 1 or 9. */
  lemma EntryOutlastsTrailer(entries: seq<ApproverEntry>, s: Option<i64>, t: seq<Symbol>)
    requires entries != []
    ensures |OptTime(s)| <= 9 < 25 <= |Listing(entries, EntryText) + t|
  {
    var e := entries[0];
    assert |EntryText(e)| >= 25 by {
      assert |StrField(e.approverId)| >= 8 && |StrField(e.approverDid)| >= 8;
    }
  }

  /** So how much is left decides whether an entry or the trailer comes next. */
  lemma {:induction false} EntriesEndWhereTheyMust(a: seq<ApproverEntry>, b: seq<ApproverEntry>,
                                                   s: Option<i64>, t: Option<i64>)
    requires InMemory(a) && InMemory(b)
    requires Listing(a, EntryText) + OptTime(s) == Listing(b, EntryText) + OptTime(t)
    ensures AllSame(a, b, SameEntry) && s == t
  {
    assert [] + OptTime(s) == OptTime(s) && [] + OptTime(t) == OptTime(t);
    if a == [] && b == [] {
      OptTimeInjective(s, t);
    } else if a == [] {
      EntryOutlastsTrailer(b, s, OptTime(t));
    } else if b == [] {
      EntryOutlastsTrailer(a, t, OptTime(s));
    } else {
      var x, y := Listing(a[1..], EntryText) + OptTime(s), Listing(b[1..], EntryText) + OptTime(t);
      Associate(EntryText(a[0]), Listing(a[1..], EntryText), OptTime(s));
      Associate(EntryText(b[0]), Listing(b[1..], EntryText), OptTime(t));
      EntryTextPrefix(a[0], b[0], x, y);
      EntriesEndWhereTheyMust(a[1..], b[1..], s, t);
      AllSameCons(a, b, SameEntry);
    }
  }

  /** Two directories have one digest exactly when a digest cannot tell their parts apart. */
  lemma DirectoryTranscriptExact(a: ApproverDirectory, b: ApproverDirectory)
    requires InMemory(a.entries) && InMemory(b.entries)
    ensures a.Digest() == b.Digest() <==> SameDirectory(a, b)
  {
    if SameDirectory(a, b) {
      ListingSame(a.entries, b.entries, EntryText, SameEntry);
    }
    if a.Preimage() == b.Preimage() {
      var a4 := Listing(a.entries, EntryText) + OptTime(OptSeconds(a.notAfter));
      var b4 := Listing(b.entries, EntryText) + OptTime(OptSeconds(b.notAfter));
      var a3, b3 := StrField(a.issuerDid) + a4, StrField(b.issuerDid) + b4;
      var a2, b2 := Le64(Seconds(a.generatedAt)) + a3, Le64(Seconds(b.generatedAt)) + b3;
      SplitAt(Domain("agentcreds-approver-directory-v1"), Le64(a.version) + a2,
              Domain("agentcreds-approver-directory-v1"), Le64(b.version) + b2);
      Le64Prefix(a.version, b.version, a2, b2);
      Le64Prefix(Seconds(a.generatedAt), Seconds(b.generatedAt), a3, b3);
      StrFieldPrefix(a.issuerDid, b.issuerDid, a4, b4);
      EntriesEndWhereTheyMust(a.entries, b.entries, OptSeconds(a.notAfter), OptSeconds(b.notAfter));
    }
  }

  method DigestOf(d: ApproverDirectory) returns (h: Hash)
    ensures h == d.Digest()
  {
    var expiry := OptTime(OptSeconds(d.notAfter));
    ghost var r3 := Listing(d.entries, EntryText) + expiry;
    ghost var r2 := StrField(d.issuerDid) + r3;
    ghost var r1 := Le64(Seconds(d.generatedAt)) + r2;
    var hasher := new Hasher("agentcreds-approver-directory-v1");
    hasher.Update(Le64(d.version), r1);
    hasher.Update(Le64(Seconds(d.generatedAt)), r2);
    hasher.Update(StrField(d.issuerDid), r3);
    hasher.UpdateEach(d.entries, EntryText, expiry);
    hasher.Update(expiry, []);
    assert expiry + [] == expiry && hasher.absorbed + [] == hasher.absorbed;
    h := hasher.Finalize();
  }

  // -- Sealing --------------------------------------------------------------------------

  predicate ById(a: ApproverEntry, b: ApproverEntry) {
    StrLeq(a.approverId, b.approverId)
  }

  function Sealed(entries: seq<ApproverEntry>, version: u64, generatedAt: Instant, notAfter: Option<Instant>,
                  anchor: TrustAnchor): ApproverDirectory {
    var d := ApproverDirectory(version, generatedAt, anchor.did, SortBy(entries, ById), notAfter, []);
    d.(signature := SignatureText(anchor.key, d.Digest()))
  }

  method Seal(entries: seq<ApproverEntry>, version: u64, generatedAt: Instant, notAfter: Option<Instant>,
              anchor: TrustAnchor)
    returns (r: Result<ApproverDirectory, AnchorError>)
    ensures r == if anchor.signs then Ok(Sealed(entries, version, generatedAt, notAfter, anchor)) else Err(NoPrivateKey)
  {
    var d := ApproverDirectory(version, generatedAt, anchor.did, SortBy(entries, ById), notAfter, []);
    var digest := DigestOf(d);
    match Sign(anchor, digest)
    case Err(e) => r := Err(e);
    case Ok(text) => r := Ok(d.(signature := text));
  }

  /** A directory under the anchor's signature of `s` is accepted exactly when it is `s`, up to
      fractions of seconds, and has not expired. */
  lemma AcceptedDirectoryIsSealed(s: ApproverDirectory, d: ApproverDirectory, anchor: TrustAnchor, now: Instant)
    requires InMemory(s.entries) && InMemory(d.entries)
    requires s.issuerDid == anchor.did && d.signature == SignatureText(anchor.key, s.Digest())
    ensures d.VerifyCurrent(anchor, now).Ok? <==> SameDirectory(d, s) && (d.notAfter.Some? ==> now <= d.notAfter.value)
  {
    DirectoryTranscriptExact(d, s);
  }

  lemma SealedFits(entries: seq<ApproverEntry>)
    requires InMemory(entries)
    ensures InMemory(SortBy(entries, ById))
  {
    SortByMultiset(entries, ById);
    forall e | e in SortBy(entries, ById)
      ensures e in entries
    {
      assert e in multiset(SortBy(entries, ById));
    }
  }

  /** A sealed directory says what it was given, and holds the entries in order of identifier by
      byte. */
  lemma SealedAscends(entries: seq<ApproverEntry>, version: u64, generatedAt: Instant, notAfter: Option<Instant>,
                      anchor: TrustAnchor)
    ensures var d := Sealed(entries, version, generatedAt, notAfter, anchor);
      d.version == version && d.generatedAt == generatedAt && d.notAfter == notAfter && d.issuerDid == anchor.did
    ensures var sealed := Sealed(entries, version, generatedAt, notAfter, anchor).entries;
      && multiset(sealed) == multiset(entries)
      && forall i, j | 0 <= i < j < |sealed| ::
           sealed[i].approverId == sealed[j].approverId || Precedes(sealed[i].approverId, sealed[j].approverId)
  {
    ByIdIsTotal();
    SortBySorted(entries, ById);
    SortByMultiset(entries, ById);
    var sealed := Sealed(entries, version, generatedAt, notAfter, anchor).entries;
    forall i, j | 0 <= i < j < |sealed|
      ensures sealed[i].approverId == sealed[j].approverId || Precedes(sealed[i].approverId, sealed[j].approverId)
    {
      assert ById(sealed[i], sealed[j]);
      StrLeqExactly(sealed[i].approverId, sealed[j].approverId);
    }
  }

  /** Two orders of the entries have one digest exactly when the entries of every identifier
      come in the same order, as far as a digest can tell them apart. */
  lemma SealForgetsOrderExactly(a: seq<ApproverEntry>, b: seq<ApproverEntry>, version: u64, generatedAt: Instant,
                                notAfter: Option<Instant>, anchor: TrustAnchor)
    requires InMemory(a) && InMemory(b)
    ensures var d, e := Sealed(a, version, generatedAt, notAfter, anchor),
                        Sealed(b, version, generatedAt, notAfter, anchor);
      d.Digest() == e.Digest() <==> AlikeEquivalents(a, b, ById, SameEntry)
  {
    ByIdIsTotal();
    SealedFits(a);
    SealedFits(b);
    SortByAlikeExactly(a, b, ById, SameEntry);
    DirectoryTranscriptExact(Sealed(a, version, generatedAt, notAfter, anchor),
                             Sealed(b, version, generatedAt, notAfter, anchor));
  }

  /** Two entries that share an identifier can be exchanged exactly when a digest cannot tell
      them apart; with different keys it can. */
  lemma SharedIdentifierShowsOrder(x: ApproverEntry, y: ApproverEntry, version: u64, generatedAt: Instant,
                                   notAfter: Option<Instant>, anchor: TrustAnchor)
    requires InMemory([x, y]) && x.approverId == y.approverId
    ensures var d, e := Sealed([x, y], version, generatedAt, notAfter, anchor),
                        Sealed([y, x], version, generatedAt, notAfter, anchor);
      d.Digest() == e.Digest() <==> SameEntry(x, y)
  {
    PairIsAlike(x, y);
    SealForgetsOrderExactly([x, y], [y, x], version, generatedAt, notAfter, anchor);
  }

  lemma PairIsAlike(x: ApproverEntry, y: ApproverEntry)
    requires x.approverId == y.approverId
    ensures AlikeEquivalents([x, y], [y, x], ById, SameEntry) <==> SameEntry(x, y)
  {
    ByIdIsTotal();
    forall z
      ensures AllSame(Equivalents([x, y], z, ById), Equivalents([y, x], z, ById), SameEntry)
              <==> SameEntry(x, y) || !(ById(z, x) && ById(x, z))
    {
      PairEquivalents(x, y, z);
      PairEquivalents(y, x, z);
      var s, t := Equivalents([x, y], z, ById), Equivalents([y, x], z, ById);
      assert s != [] ==> s[0] == x && t[0] == y && s[1] == y && t[1] == x;
    }
    assert ById(x, x);
  }

  lemma PairEquivalents(x: ApproverEntry, y: ApproverEntry, z: ApproverEntry)
    requires x.approverId == y.approverId
    ensures Equivalents([x, y], z, ById) == if ById(z, x) && ById(x, z) then [x, y] else []
  {
    var either := ById(z, x) && ById(x, z);
    assert [x, y][1..] == [y] && [y][1..] == [];
    assert Equivalents([y], z, ById) == (if either then [y] else []) + [];
  }

  /** The sealed directories are equal, fractions of seconds included, exactly when the entries
      of every identifier are. */
  lemma SealedAlikeExactly(a: seq<ApproverEntry>, b: seq<ApproverEntry>, version: u64, generatedAt: Instant,
                           notAfter: Option<Instant>, anchor: TrustAnchor)
    ensures Sealed(a, version, generatedAt, notAfter, anchor) == Sealed(b, version, generatedAt, notAfter, anchor)
            <==> SameEquivalents(a, b, ById)
  {
    ByIdIsTotal();
    SortByExact(a, b, ById);
  }

  lemma ByIdIsTotal()
    ensures TotalPreorder(ById)
  {
    StrOrder();
    forall x, y
      ensures ById(x, y) || ById(y, x)
    {
      assert StrLeq(x.approverId, y.approverId) || StrLeq(y.approverId, x.approverId);
    }
    forall x, y, z | ById(x, y) && ById(y, z)
      ensures ById(x, z)
    {
      LexTransitive(x.approverId, y.approverId, z.approverId);
    }
  }

  /** The kind, as text. */
  lemma GateIs()
    ensures GATE_KEY == Ascii("approval-key")
  {
  }

  // -- Evidence -------------------------------------------------------------------------

  /** An approver's decision about one action; `approverDid` is set when the approver's own key
      signs rather than the anchor's. */
  datatype ApprovalEvidence = ApprovalEvidence(
    approvalId: Str,
    kind: Str,
    binding: Str,
    approver: Str,
    expiresAt: i64,
    signature: Text,
    approverDid: Option<Str>)
  {
    function Preimage(): seq<Symbol> {
      EvidenceDomain(approverDid)
      + (StrField(approvalId)
      + (StrField(kind)
      + (StrField(binding)
      + (StrField(approver)
      + (SignerText(approverDid)
      + Le64(expiresAt))))))
    }

    function Payload(): Hash {
      Sha256(Preimage())
    }
  }

  function EvidenceDomain(approverDid: Option<Str>): seq<Symbol> {
    if approverDid.None? then Domain("agentcreds-approval-evidence-v1")
    else Domain("agentcreds-approval-evidence-key-v1")
  }

  function SignerText(approverDid: Option<Str>): seq<Symbol> {
    if approverDid.None? then [] else StrField(approverDid.value)
  }

  lemma EvidenceDomainPrefix(a: Option<Str>, b: Option<Str>, r: seq<Symbol>, s: seq<Symbol>)
    requires EvidenceDomain(a) + r == EvidenceDomain(b) + s
    ensures a.None? == b.None? && r == s
  {
    var x, y := "agentcreds-approval-evidence-v1", "agentcreds-approval-evidence-key-v1";
    assert x[29] == 'v' && y[29] == 'k';
    assert Domain(x)[29] == Byte('v' as int % 256) && Domain(y)[29] == Byte('k' as int % 256);
    assert (EvidenceDomain(a) + r)[29] == EvidenceDomain(a)[29] && (EvidenceDomain(b) + s)[29] == EvidenceDomain(b)[29];
    SplitAt(EvidenceDomain(a), r, EvidenceDomain(b), s);
  }

  /** Two pieces of evidence have one payload exactly when they differ at most in their
      signatures; so neither an approver's key nor the anchor can be swapped for the other. */
  lemma EvidencePayloadExact(a: ApprovalEvidence, b: ApprovalEvidence)
    ensures a.Payload() == b.Payload() <==> a == b.(signature := a.signature)
  {
    if a.Preimage() == b.Preimage() {
      var a5, b5 := SignerText(a.approverDid) + Le64(a.expiresAt), SignerText(b.approverDid) + Le64(b.expiresAt);
      var a4, b4 := StrField(a.approver) + a5, StrField(b.approver) + b5;
      var a3, b3 := StrField(a.binding) + a4, StrField(b.binding) + b4;
      var a2, b2 := StrField(a.kind) + a3, StrField(b.kind) + b3;
      var a1, b1 := StrField(a.approvalId) + a2, StrField(b.approvalId) + b2;
      EvidenceDomainPrefix(a.approverDid, b.approverDid, a1, b1);
      StrFieldPrefix(a.approvalId, b.approvalId, a2, b2);
      StrFieldPrefix(a.kind, b.kind, a3, b3);
      StrFieldPrefix(a.binding, b.binding, a4, b4);
      StrFieldPrefix(a.approver, b.approver, a5, b5);
      if a.approverDid.Some? {
        StrFieldPrefix(a.approverDid.value, b.approverDid.value, Le64(a.expiresAt), Le64(b.expiresAt));
      } else {
        SplitAt([], Le64(a.expiresAt), [], Le64(b.expiresAt));
      }
      Le64Injective(a.expiresAt, b.expiresAt);
    }
  }

  datatype ApprovalError = BadDirectory(error: SignedError) | NotKeySigned | NotEnrolled | LacksRole | WrongAction
                         | EvidenceExpired | BadKey | BadEvidenceSignature

  /** The offline check of approver-signed evidence, at a whole second. */
  function VerifyWithDirectory(keys: KeyParser, ev: ApprovalEvidence, binding: Str, directory: ApproverDirectory,
                               anchor: TrustAnchor, now: i64, role: Option<Str>): Result<(), ApprovalError> {
    match directory.VerifyCurrent(anchor, now * 1_000_000_000)
    case Err(e) => Err(BadDirectory(e))
    case Ok(_) =>
      if ev.approverDid.None? then Err(NotKeySigned)
      else VerifyApprover(keys, ev, binding, directory.Lookup(ev.approverDid.value, now * 1_000_000_000), now, role)
  }

  function VerifyApprover(keys: KeyParser, ev: ApprovalEvidence, binding: Str, entry: Option<ApproverEntry>,
                          now: i64, role: Option<Str>): Result<(), ApprovalError>
    requires ev.approverDid.Some?
  {
    if entry.None? then Err(NotEnrolled)
    else if role.Some? && role.value !in entry.value.roles then Err(LacksRole)
    else if ev.binding != binding then Err(WrongAction)
    else if now >= ev.expiresAt then Err(EvidenceExpired)
    else
      var key := keys(ev.approverDid.value);
      if key.None? then Err(BadKey)
      else if !Verifies(key.value, ev.Payload(), ev.signature) then Err(BadEvidenceSignature)
      else Ok(())
  }

  /** At a whole second, directories that a digest cannot tell apart list the same approvers. */
  lemma {:induction false} SameEntriesSameLookup(a: seq<ApproverEntry>, b: seq<ApproverEntry>, did: Str, now: i64)
    requires AllSame(a, b, SameEntry)
    ensures var x, y := FirstLive(a, did, now * 1_000_000_000), FirstLive(b, did, now * 1_000_000_000);
      x.Some? == y.Some? && (x.Some? ==> SameEntry(x.value, y.value))
  {
    if a != [] {
      assert SameEntry(a[0], b[0]);
      if a[0].notAfter.Some? {
        WholeSecondExpiry(now, a[0].notAfter.value, b[0].notAfter.value);
      }
      AllSameTail(a, b, SameEntry);
      SameEntriesSameLookup(a[1..], b[1..], did, now);
    }
  }

  lemma SameDirectorySameCheck(s: ApproverDirectory, d: ApproverDirectory, anchor: TrustAnchor, now: i64)
    requires InMemory(s.entries) && InMemory(d.entries)
    requires SameDirectory(d, s) && d.signature == s.signature
    ensures d.VerifyCurrent(anchor, now * 1_000_000_000) == s.VerifyCurrent(anchor, now * 1_000_000_000)
  {
    DirectoryTranscriptExact(d, s);
    if d.notAfter.Some? {
      WholeSecondExpiry(now, d.notAfter.value, s.notAfter.value);
    }
  }

  lemma SameEntrySameVerdict(keys: KeyParser, ev: ApprovalEvidence, binding: Str,
                             x: Option<ApproverEntry>, y: Option<ApproverEntry>, now: i64, role: Option<Str>)
    requires ev.approverDid.Some? && x.Some? == y.Some? && (x.Some? ==> SameEntry(x.value, y.value))
    ensures VerifyApprover(keys, ev, binding, x, now, role) == VerifyApprover(keys, ev, binding, y, now, role)
  {
  }

  /** The verdict on evidence depends only on what the directory's digest shows. */
  lemma SameDirectorySameVerdict(keys: KeyParser, ev: ApprovalEvidence, binding: Str, s: ApproverDirectory,
                                 d: ApproverDirectory, anchor: TrustAnchor, now: i64, role: Option<Str>)
    requires InMemory(s.entries) && InMemory(d.entries)
    requires SameDirectory(d, s) && d.signature == s.signature
    ensures VerifyWithDirectory(keys, ev, binding, d, anchor, now, role)
         == VerifyWithDirectory(keys, ev, binding, s, anchor, now, role)
  {
    SameDirectorySameCheck(s, d, anchor, now);
    if ev.approverDid.Some? {
      var did := ev.approverDid.value;
      SameEntriesSameLookup(d.entries, s.entries, did, now);
      SameEntrySameVerdict(keys, ev, binding, d.Lookup(did, now * 1_000_000_000), s.Lookup(did, now * 1_000_000_000),
                           now, role);
    }
  }

  /** Evidence signed with an approver's own key. */
  function ApprovedByKey(binding: Str, approverId: Str, approver: TrustAnchor, approvalId: Str, expiresAt: i64)
    : ApprovalEvidence
  {
    var ev := ApprovalEvidence(approvalId, GATE_KEY, binding, approverId, expiresAt, [], Some(approver.did));
    ev.(signature := SignatureText(approver.key, ev.Payload()))
  }

  /** Evidence says what the approver was asked. */
  lemma ApprovalSays(binding: Str, approverId: Str, approver: TrustAnchor, approvalId: Str, expiresAt: i64)
    ensures var ev := ApprovedByKey(binding, approverId, approver, approvalId, expiresAt);
      && ev.approvalId == approvalId && ev.kind == Ascii("approval-key") && ev.binding == binding
      && ev.approver == approverId && ev.expiresAt == expiresAt && ev.approverDid == Some(approver.did)
  {
    GateIs();
  }

  lemma SealedVerifies(entries: seq<ApproverEntry>, version: u64, generatedAt: Instant, notAfter: Option<Instant>,
                       anchor: TrustAnchor, now: Instant)
    ensures var d := Sealed(entries, version, generatedAt, notAfter, anchor);
      d.VerifyCurrent(anchor, now).Ok? <==> (notAfter.Some? ==> now <= notAfter.value)
  {
    var d := Sealed(entries, version, generatedAt, notAfter, anchor);
    assert d.Digest() == d.(signature := []).Digest();
  }

  lemma KeySignedVerdict(keys: KeyParser, entry: Option<ApproverEntry>, binding: Str, approverId: Str,
                         approver: TrustAnchor, approvalId: Str, expiresAt: i64, requested: Str, now: i64,
                         role: Option<Str>)
    requires Certified(keys, approver)
    ensures var ev := ApprovedByKey(binding, approverId, approver, approvalId, expiresAt);
      VerifyApprover(keys, ev, requested, entry, now, role).Ok?
      <==> now < expiresAt && requested == binding && entry.Some? && (role.Some? ==> role.value in entry.value.roles)
  {
    var ev := ApprovedByKey(binding, approverId, approver, approvalId, expiresAt);
    assert ev.Payload() == ev.(signature := []).Payload();
  }

  /** What an approver signs is accepted, before it expires and for the action it was bound to,
      exactly while the directory is unexpired and the approver's first live entry in it, in
      order of identifier, holds the role. */
  lemma EnrolledApproverIsAccepted(keys: KeyParser, entries: seq<ApproverEntry>, version: u64, generatedAt: Instant,
                                   notAfter: Option<Instant>, anchor: TrustAnchor, binding: Str, approverId: Str,
                                   approver: TrustAnchor, approvalId: Str, expiresAt: i64, requested: Str, now: i64,
                                   role: Option<Str>)
    requires Certified(keys, approver)
    ensures var d := Sealed(entries, version, generatedAt, notAfter, anchor);
      var ev := ApprovedByKey(binding, approverId, approver, approvalId, expiresAt);
      VerifyWithDirectory(keys, ev, requested, d, anchor, now, role).Ok?
      <==> && (notAfter.Some? ==> now * 1_000_000_000 <= notAfter.value) && now < expiresAt && requested == binding
           && exists i | 0 <= i < |d.entries| :: FirstLiveAt(d.entries, approver.did, now * 1_000_000_000, i)
                && (role.Some? ==> role.value in d.entries[i].roles)
  {
    var d := Sealed(entries, version, generatedAt, notAfter, anchor);
    SealedVerifies(entries, version, generatedAt, notAfter, anchor, now * 1_000_000_000);
    FirstLiveExactly(d.entries, approver.did, now * 1_000_000_000);
    var entry := d.Lookup(approver.did, now * 1_000_000_000);
    KeySignedVerdict(keys, entry, binding, approverId, approver, approvalId, expiresAt, requested, now, role);
  }

  /** The offline check of evidence the anchor signed. */
  function VerifyByAnchor(ev: ApprovalEvidence, binding: Str, anchor: TrustAnchor, now: i64)
    : Result<(), ApprovalError>
  {
    if ev.binding != binding then Err(WrongAction)
    else if now >= ev.expiresAt then Err(EvidenceExpired)
    else if !Verifies(anchor.key, ev.Payload(), ev.signature) then Err(BadEvidenceSignature)
    else Ok(())
  }

  /** Evidence under the anchor's signature of `signed` is accepted exactly when it is `signed`,
      for the action it was bound to and before it expires. */
  lemma AnchorEvidenceExact(signed: ApprovalEvidence, ev: ApprovalEvidence, binding: Str, anchor: TrustAnchor, now: i64)
    requires ev.signature == signed.signature == SignatureText(anchor.key, signed.Payload())
    ensures VerifyByAnchor(ev, binding, anchor, now).Ok?
            <==> ev == signed && binding == signed.binding && now < signed.expiresAt
  {
    EvidencePayloadExact(ev, signed);
  }

  lemma AcceptedEvidenceIsSigned(keys: KeyParser, signer: PublicKey, signed: ApprovalEvidence, ev: ApprovalEvidence,
                                 d: ApproverDirectory, binding: Str, anchor: TrustAnchor, now: i64, role: Option<Str>)
    requires ev.signature == signed.signature == SignatureText(signer, signed.Payload())
    requires VerifyWithDirectory(keys, ev, binding, d, anchor, now, role).Ok?
    ensures ev == signed && d.VerifyCurrent(anchor, now * 1_000_000_000).Ok?
  {
    EvidencePayloadExact(ev, signed);
  }

  /** Evidence and a directory that carry the signatures made for `signed` and `sealed` are
      accepted exactly when nothing the signatures cover was changed and the originals are. */
  lemma EvidenceIsTamperEvident(keys: KeyParser, signer: PublicKey, signed: ApprovalEvidence, ev: ApprovalEvidence,
                                sealed: ApproverDirectory, d: ApproverDirectory,
                                binding: Str, anchor: TrustAnchor, now: i64, role: Option<Str>)
    requires InMemory(sealed.entries) && InMemory(d.entries)
    requires sealed.issuerDid == anchor.did
    requires d.signature == sealed.signature == SignatureText(anchor.key, sealed.Digest())
    requires ev.signature == signed.signature == SignatureText(signer, signed.Payload())
    ensures VerifyWithDirectory(keys, ev, binding, d, anchor, now, role).Ok?
            <==> (&& SameDirectory(d, sealed) && ev == signed
                  && VerifyWithDirectory(keys, signed, binding, sealed, anchor, now, role).Ok?)
  {
    if SameDirectory(d, sealed) && ev == signed {
      SameDirectorySameVerdict(keys, ev, binding, sealed, d, anchor, now, role);
    } else if VerifyWithDirectory(keys, ev, binding, d, anchor, now, role).Ok? {
      AcceptedEvidenceIsSigned(keys, signer, signed, ev, d, binding, anchor, now, role);
      AcceptedDirectoryIsSealed(sealed, d, anchor, now * 1_000_000_000);
    }
  }

  // -- One-time reliance ----------------------------------------------------------------

  /** What a run of consumptions leaves recorded. */
  function SeenAfter(ids: seq<Str>): set<Str> {
    if ids == [] then {} else SeenAfter(ids[..|ids| - 1]) + {ids[|ids| - 1]}
  }

  /** Whether consumption `i` of the run is accepted. */
  predicate Accepted(ids: seq<Str>, i: nat)
    requires i < |ids|
  {
    ids[i] !in SeenAfter(ids[..i])
  }

  lemma {:induction false} SeenIsConsumed(ids: seq<Str>, id: Str)
    ensures id in SeenAfter(ids) <==> id in ids
  {
    if ids != [] {
      SeenIsConsumed(ids[..|ids| - 1], id);
      assert ids == ids[..|ids| - 1] + [ids[|ids| - 1]];
    }
  }

  /** Over every run each approval is accepted exactly once, the first time. */
  lemma AcceptedExactlyOnce(ids: seq<Str>, i: nat)
    requires i < |ids|
    ensures Accepted(ids, i) <==> forall j | 0 <= j < i :: ids[j] != ids[i]
    ensures exists j | 0 <= j <= i :: ids[j] == ids[i] && Accepted(ids, j)
    ensures forall j | 0 <= j < |ids| && j != i && ids[j] == ids[i] :: !(Accepted(ids, i) && Accepted(ids, j))
  {
    forall j | 0 <= j < |ids|
      ensures Accepted(ids, j) <==> forall k | 0 <= k < j :: ids[k] != ids[j]
    {
      SeenIsConsumed(ids[..j], ids[j]);
      assert forall k | 0 <= k < j :: ids[..j][k] == ids[k];
    }
    var j := FirstOccurrence(ids, i);
    assert Accepted(ids, j);
  }

  lemma {:induction false} FirstOccurrence(ids: seq<Str>, i: nat) returns (j: nat)
    requires i < |ids|
    ensures j <= i && ids[j] == ids[i] && forall k | 0 <= k < j :: ids[k] != ids[j]
  {
    j := i;
    if k :| 0 <= k < i && ids[k] == ids[i] {
      j := FirstOccurrence(ids, k);
    }
  }

  /** The approvals a relying party has relied upon. */
  class ConsumedApprovals {
    var seen: set<Str>

    constructor ()
      ensures seen == {}
    {
      seen := {};
    }

    method TryConsume(approvalId: Str) returns (first: bool)
      modifies this
      ensures first <==> approvalId !in old(seen)
      ensures seen == old(seen) + {approvalId}
    {
      first := approvalId !in seen;
      seen := seen + {approvalId};
    }
  }
}
