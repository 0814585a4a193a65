/** No hash of one kind of artifact is ever the hash of another: a signature made for one
    never verifies as another. The one pair that shares a domain is named. */
module Separation {
  import opened Wrappers
  import opened Did
  import opened Transcript
  import Rotation
  import Approval
  import Adr
  import AdrStreams
  import Audit
  import AuditRuns
  import Compliance
  import Pop
  import Registry
  import Intent

  /** The kinds of artifact that are hashed under a domain of their own. */
  datatype Kind =
    | KeyRotation
    | HistorySeal
    | DirectorySeal
    | AnchorApproval
    | KeyApproval
    | StreamCheckpoint
    | DecisionChain
    | DecisionRecord
    | AuditSignature
    | AuditedRecord
    | Bundle
    | Possession
    | TrustConfig
    | IntentDeclaration
    | Alignment

  function Tag(k: Kind): string {
    match k
    case KeyRotation => "agentcreds-key-rotation-v1"
    case HistorySeal => "agentcreds-key-history-seal-v1"
    case DirectorySeal => "agentcreds-approver-directory-v1"
    case AnchorApproval => "agentcreds-approval-evidence-v1"
    case KeyApproval => "agentcreds-approval-evidence-key-v1"
    case StreamCheckpoint => "agentcreds-adr-checkpoint-v1"
    case DecisionChain => "agentcreds-adr-chain-v1"
    case DecisionRecord => "agentcreds-adr-record-v2"
    case AuditSignature => "agentcreds-audit-commitment-v1"
    case AuditedRecord => "agentcreds-audit-record-v1"
    case Bundle => "agentcreds-evidence-bundle-v1"
    case Possession => "agentcreds-pop-v1"
    case TrustConfig => "agentcreds-trust-config-v1"
    case IntentDeclaration => "agentcreds-intent-statement-v1"
    case Alignment => "agentcreds-alignment-evidence-v1"
  }

  // -- The tags tell the kinds apart ----------------------------------------------------

  /** Where the tags are looked at, and the letters found there, as far as needed to tell a tag
      from the others. */
  const POSITIONS: seq<nat> := [11, 12, 15, 17, 29]

  function Letters(k: Kind): string {
    match k
    case KeyRotation => "ker"
    case HistorySeal => "keh"
    case DirectorySeal => "apoe"
    case AnchorApproval => "apoav"
    case KeyApproval => "apoak"
    case StreamCheckpoint => "adce"
    case DecisionChain => "adca"
    case DecisionRecord => "adr"
    case AuditSignature => "autc"
    case AuditedRecord => "autr"
    case Bundle => "eve"
    case Possession => "pov"
    case TrustConfig => "trt"
    case IntentDeclaration => "inn"
    case Alignment => "aln"
  }

  predicate Shows(k: Kind, j: nat) {
    j < |Letters(k)| ==>
      j < |POSITIONS| && POSITIONS[j] < |Tag(k)| && Tag(k)[POSITIONS[j]] == Letters(k)[j]
  }

  predicate OfLogs(k: Kind) {
    || k.StreamCheckpoint? || k.DecisionChain? || k.DecisionRecord? || k.AuditSignature? || k.AuditedRecord?
    || k.Bundle? || k.Possession?
  }

  lemma LogTagHasLetters(k: Kind, j: nat)
    requires OfLogs(k)
    ensures Shows(k, j)
  {
  }

  lemma OtherTagHasLetters(k: Kind, j: nat)
    requires !OfLogs(k)
    ensures Shows(k, j)
  {
  }

  lemma TagHasLetters(k: Kind, j: nat)
    ensures Shows(k, j)
  {
    if OfLogs(k) {
      LogTagHasLetters(k, j);
    } else {
      OtherTagHasLetters(k, j);
    }
  }

  lemma LettersAreAscii(k: Kind, j: nat)
    requires j < |Letters(k)|
    ensures Letters(k)[j] as int < 128
  {
  }

  lemma LettersDiffer(k: Kind, l: Kind) returns (j: nat)
    requires k != l
    ensures j < |Letters(k)| && j < |Letters(l)| && Letters(k)[j] != Letters(l)[j]
  {
    var a, b := Letters(k), Letters(l);
    j := if a[0] != b[0] then 0
         else if a[1] != b[1] then 1
         else if a[2] != b[2] then 2
         else if a[3] != b[3] then 3
         else 4;
  }

  lemma TagsDiffer(a: string, b: string, i: nat, r: seq<Symbol>, s: seq<Symbol>)
    requires i < |a| && i < |b| && a[i] as int < 128 && b[i] as int < 128 && a[i] != b[i]
    ensures Domain(a) + r != Domain(b) + s
  {
    assert (Domain(a) + r)[i] == Domain(a)[i] == Byte(a[i] as int % 256);
    assert (Domain(b) + s)[i] == Domain(b)[i] == Byte(b[i] as int % 256);
  }

  /** Transcripts that begin with the tags of two kinds differ. */
  lemma TagsSeparate(k: Kind, l: Kind, r: seq<Symbol>, s: seq<Symbol>)
    requires Domain(Tag(k)) + r == Domain(Tag(l)) + s
    ensures k == l
  {
    if k != l {
      var j := LettersDiffer(k, l);
      TagHasLetters(k, j);
      TagHasLetters(l, j);
      LettersAreAscii(k, j);
      LettersAreAscii(l, j);
      TagsDiffer(Tag(k), Tag(l), POSITIONS[j], r, s);
    }
  }

  // -- The artifacts --------------------------------------------------------------------

  datatype Artifact =
    | Statement(statement: Rotation.RotationStatement)
    | History(history: Rotation.History)
    | Directory(directory: Approval.ApproverDirectory)
    | Evidence(evidence: Approval.ApprovalEvidence)
    | Checkpoint(checkpoint: AdrStreams.AdrCheckpoint)
    | Genesis
    | Link(previous: Hash, seqNo: u64, digest: Hash)
    | Decision(decision: Adr.AuthzDecision)
    | Commitment(commitment: Audit.AuditCommitment)
    | Custody(correlationId: Str, entries: seq<Audit.CompositeEntry>)
    | Record(record: Audit.AuditRecord)
    | EvidenceBundle(bundle: Compliance.EvidenceBundle)
    | Challenge(challenge: Pop.PopChallenge, tokenBinding: Str)
    | Config(multibase: Registry.Multibase, config: Registry.SignedTrustConfig)
    | IntentOf(intent: Intent.IntentStatement)
    | Judgement(judgement: Intent.AlignmentEvidence)

  function KindOf(a: Artifact): Kind {
    match a
    case Statement(_) => KeyRotation
    case History(_) => HistorySeal
    case Directory(_) => DirectorySeal
    case Evidence(e) => if e.approverDid.None? then AnchorApproval else KeyApproval
    case Checkpoint(_) => StreamCheckpoint
    case Genesis => DecisionChain
    case Link(_, _, _) => DecisionChain
    case Decision(_) => DecisionRecord
    case Commitment(_) => AuditSignature
    case Custody(_, _) => AuditSignature
    case Record(_) => AuditedRecord
    case EvidenceBundle(_) => Bundle
    case Challenge(_, _) => Possession
    case Config(_, _) => TrustConfig
    case IntentOf(_) => IntentDeclaration
    case Judgement(_) => Alignment
  }

  /** What is hashed, and for most kinds signed, of an artifact. */
  function HashOf(a: Artifact): Hash {
    match a
    case Statement(s) => s.Payload()
    case History(h) => h.Digest()
    case Directory(d) => d.Digest()
    case Evidence(e) => e.Payload()
    case Checkpoint(c) => c.Payload()
    case Genesis => AdrStreams.GenesisHead()
    case Link(previous, seqNo, digest) => AdrStreams.Fold(previous, seqNo, digest)
    case Decision(d) => d.Digest()
    case Commitment(c) => c.Payload()
    case Custody(correlationId, entries) => Audit.RootHash(correlationId, entries)
    case Record(r) => r.Commitment()
    case EvidenceBundle(b) => b.Digest()
    case Challenge(c, tokenBinding) => c.Digest(tokenBinding)
    case Config(multibase, c) => c.Digest(multibase)
    case IntentOf(i) => i.Payload()
    case Judgement(j) => j.Payload()
  }

  predicate BeginsWith(h: Hash, k: Kind) {
    Domain(Tag(k)) <= h.preimage
  }

  lemma Begins(h: Hash, k: Kind, tag: string)
    requires Domain(tag) <= h.preimage && tag == Tag(k)
    ensures BeginsWith(h, k)
  {
  }

  lemma StatementTag(s: Rotation.RotationStatement)
    ensures BeginsWith(s.Payload(), KeyRotation)
  {
  }

  lemma HistoryTag(h: Rotation.History)
    ensures BeginsWith(h.Digest(), HistorySeal)
  {
  }

  lemma DirectoryTag(d: Approval.ApproverDirectory)
    ensures BeginsWith(d.Digest(), DirectorySeal)
  {
  }

  lemma EvidenceTag(e: Approval.ApprovalEvidence)
    ensures BeginsWith(e.Payload(), KindOf(Evidence(e)))
  {
  }

  lemma CheckpointTag(c: AdrStreams.AdrCheckpoint)
    ensures BeginsWith(c.Payload(), StreamCheckpoint)
  {
  }

  lemma GenesisTag()
    ensures BeginsWith(AdrStreams.GenesisHead(), DecisionChain)
  {
  }

  lemma LinkTag(previous: Hash, seqNo: u64, digest: Hash)
    ensures BeginsWith(AdrStreams.Fold(previous, seqNo, digest), DecisionChain)
  {
  }

  lemma DecisionTag(d: Adr.AuthzDecision)
    ensures BeginsWith(d.Digest(), DecisionRecord)
  {
    Begins(d.Digest(), DecisionRecord, "agentcreds-adr-record-v2");
  }

  lemma CommitmentTag(c: Audit.AuditCommitment)
    ensures BeginsWith(c.Payload(), AuditSignature)
  {
  }

  lemma CustodyTag(correlationId: Str, entries: seq<Audit.CompositeEntry>)
    ensures BeginsWith(Audit.RootHash(correlationId, entries), AuditSignature)
  {
  }

  lemma RecordTag(r: Audit.AuditRecord)
    ensures BeginsWith(r.Commitment(), AuditedRecord)
  {
  }

  lemma BundleTag(b: Compliance.EvidenceBundle)
    ensures BeginsWith(b.Digest(), Bundle)
  {
    Compliance.PreimageDomain(b);
    Begins(b.Digest(), Bundle, "agentcreds-evidence-bundle-v1");
  }

  lemma ChallengeTag(c: Pop.PopChallenge, tokenBinding: Str)
    ensures BeginsWith(c.Digest(tokenBinding), Possession)
  {
  }

  lemma ConfigTag(multibase: Registry.Multibase, c: Registry.SignedTrustConfig)
    ensures BeginsWith(c.Digest(multibase), TrustConfig)
  {
    Begins(c.Digest(multibase), TrustConfig, "agentcreds-trust-config-v1");
  }

  lemma IntentTag(i: Intent.IntentStatement)
    ensures BeginsWith(i.Payload(), IntentDeclaration)
  {
  }

  lemma JudgementTag(j: Intent.AlignmentEvidence)
    ensures BeginsWith(j.Payload(), Alignment)
  {
  }

  predicate AboutKeys(a: Artifact) {
    a.Statement? || a.History? || a.Config?
  }

  predicate AboutApproval(a: Artifact) {
    a.Directory? || a.Evidence?
  }

  predicate AboutIntent(a: Artifact) {
    a.IntentOf? || a.Judgement?
  }

  predicate AboutDecisions(a: Artifact) {
    a.Checkpoint? || a.Genesis? || a.Link? || a.Decision?
  }

  predicate AboutAudit(a: Artifact) {
    a.Commitment? || a.Custody? || a.Record?
  }

  lemma KeyTag(a: Artifact)
    requires AboutKeys(a)
    ensures BeginsWith(HashOf(a), KindOf(a))
  {
    match a
    case Statement(s) => StatementTag(s);
    case History(h) => HistoryTag(h);
    case Config(multibase, c) => ConfigTag(multibase, c);
  }

  lemma ApprovalTag(a: Artifact)
    requires AboutApproval(a)
    ensures BeginsWith(HashOf(a), KindOf(a))
  {
    match a
    case Directory(d) => DirectoryTag(d);
    case Evidence(e) => EvidenceTag(e);
  }

  lemma IntentOrJudgementTag(a: Artifact)
    requires AboutIntent(a)
    ensures BeginsWith(HashOf(a), KindOf(a))
  {
    match a
    case IntentOf(i) => IntentTag(i);
    case Judgement(j) => JudgementTag(j);
  }

  lemma StreamTag(a: Artifact)
    requires AboutDecisions(a)
    ensures BeginsWith(HashOf(a), KindOf(a))
  {
    match a
    case Checkpoint(c) => CheckpointTag(c);
    case Genesis => GenesisTag();
    case Link(previous, seqNo, digest) => LinkTag(previous, seqNo, digest);
    case Decision(d) => DecisionTag(d);
  }

  lemma AuditTag(a: Artifact)
    requires AboutAudit(a)
    ensures BeginsWith(HashOf(a), KindOf(a))
  {
    match a
    case Commitment(c) => CommitmentTag(c);
    case Custody(correlationId, entries) => CustodyTag(correlationId, entries);
    case Record(r) => RecordTag(r);
  }

  lemma BundleOrChallengeTag(a: Artifact)
    requires a.EvidenceBundle? || a.Challenge?
    ensures BeginsWith(HashOf(a), KindOf(a))
  {
    match a
    case EvidenceBundle(b) => BundleTag(b);
    case Challenge(c, tokenBinding) => ChallengeTag(c, tokenBinding);
  }

  lemma HashBeginsWithTag(a: Artifact)
    ensures BeginsWith(HashOf(a), KindOf(a))
  {
    if AboutKeys(a) {
      KeyTag(a);
    } else if AboutApproval(a) {
      ApprovalTag(a);
    } else if AboutIntent(a) {
      IntentOrJudgementTag(a);
    } else if AboutDecisions(a) {
      StreamTag(a);
    } else if AboutAudit(a) {
      AuditTag(a);
    } else {
      BundleOrChallengeTag(a);
    }
  }

  lemma Remainder<T>(a: seq<T>, p: seq<T>)
    requires a <= p
    ensures a + p[|a|..] == p
  {
  }

  lemma OneTag(p: seq<Symbol>, k: Kind, l: Kind)
    requires Domain(Tag(k)) <= p && Domain(Tag(l)) <= p
    ensures k == l
  {
    Remainder(Domain(Tag(k)), p);
    Remainder(Domain(Tag(l)), p);
    TagsSeparate(k, l, p[|Domain(Tag(k))|..], p[|Domain(Tag(l))|..]);
  }

  /** Artifacts of different kinds have different hashes. */
  lemma ArtifactsSeparate(a: Artifact, b: Artifact)
    requires HashOf(a) == HashOf(b)
    ensures KindOf(a) == KindOf(b)
  {
    HashBeginsWithTag(a);
    HashBeginsWithTag(b);
    OneTag(HashOf(a).preimage, KindOf(a), KindOf(b));
  }

  /** So a signature made for one artifact verifies only for artifacts of its kind. */
  lemma SignatureIsForOneKind(key: PublicKey, made: Artifact, shown: Artifact)
    requires Verifies(key, HashOf(shown), SignatureText(key, HashOf(made)))
    ensures KindOf(shown) == KindOf(made)
  {
    ArtifactsSeparate(shown, made);
  }

  /** The root hash of a chain of custody has no domain of its own but that of a commitment's
      signature: it is a commitment's payload exactly for the chain of that one commitment. */
  lemma RootHashSharesDomain(correlationId: Str, entries: seq<Audit.CompositeEntry>, c: Audit.AuditCommitment)
    ensures Audit.RootHash(correlationId, entries) == c.Payload()
            <==> correlationId == c.correlationId && AllSame(entries, [Audit.EntryOf(c)], AuditRuns.SameEntry)
  {
    var only := [Audit.EntryOf(c)];
    assert only[1..] == [];
    assert Listing(only, Audit.EntryText) == Audit.EntryText(only[0]) + [];
    assert Audit.RootPreimage(c.correlationId, only) == c.Preimage();
    AuditRuns.RootHashExact(correlationId, entries, c.correlationId, only);
  }
}
