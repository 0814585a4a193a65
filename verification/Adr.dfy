/** Authorization decision records: what the digest of one shows, the stream that chains
    their digests, and the checkpoints an anchor signs over it. */
module Adr {
  import opened Wrappers
  import opened Transcript

  datatype Decision = Allow | Deny

  datatype DecisionKind = Mint | Attenuate | Verify | VerifyRooted | Presentation | Revocation

  datatype Signal =
    | ScopeWideningAttempt
    | DelegationDepthExceeded
    | Expired
    | Revoked
    | IssuerMismatch
    | UnrootedAuthority
    | SignatureInvalid
    | ActionDenied
    | ProofOfPossessionFailed
    | Other

  function DecisionName(d: Decision): string {
    match d
    case Allow => "allow"
    case Deny => "deny"
  }

  function KindName(k: DecisionKind): string {
    match k
    case Mint => "mint"
    case Attenuate => "attenuate"
    case Verify => "verify"
    case VerifyRooted => "verify_rooted"
    case Presentation => "presentation"
    case Revocation => "revocation"
  }

  function SignalName(s: Signal): string {
    match s
    case ScopeWideningAttempt => "scope_widening_attempt"
    case DelegationDepthExceeded => "delegation_depth_exceeded"
    case Expired => "expired"
    case Revoked => "revoked"
    case IssuerMismatch => "issuer_mismatch"
    case UnrootedAuthority => "unrooted_authority"
    case SignatureInvalid => "signature_invalid"
    case ActionDenied => "action_denied"
    case ProofOfPossessionFailed => "proof_of_possession_failed"
    case Other => "other"
  }

  /** Why a verification failed. */
  datatype Denial = Denial(signal: Signal, text: Str)

  /** The names a record writes are those of its wire format. */
  lemma WireNames()
    ensures DecisionName(Allow) == "allow" && DecisionName(Deny) == "deny"
    ensures KindName(Mint) == "mint" && KindName(Attenuate) == "attenuate" && KindName(Verify) == "verify"
    ensures KindName(VerifyRooted) == "verify_rooted" && KindName(Presentation) == "presentation"
    ensures KindName(Revocation) == "revocation"
    ensures SignalName(ScopeWideningAttempt) == "scope_widening_attempt"
    ensures SignalName(DelegationDepthExceeded) == "delegation_depth_exceeded"
    ensures SignalName(Expired) == "expired" && SignalName(Revoked) == "revoked"
    ensures SignalName(IssuerMismatch) == "issuer_mismatch" && SignalName(UnrootedAuthority) == "unrooted_authority"
    ensures SignalName(SignatureInvalid) == "signature_invalid" && SignalName(ActionDenied) == "action_denied"
    ensures SignalName(ProofOfPossessionFailed) == "proof_of_possession_failed" && SignalName(Other) == "other"
  {
  }

  datatype AuthzDecision = AuthzDecision(
    id: Str,
    seqNo: u64,
    timestamp: Instant,
    kind: DecisionKind,
    decision: Decision,
    subjectDid: Str,
    rootAgentDid: Str,
    issuerDid: Str,
    vcId: Str,
    action: Option<Str>,
    principalDid: Option<Str>,
    accountableParty: Option<Str>,
    partyVersion: Option<u64>,
    partyCommitment: Option<Str>,
    evaluation: Option<Decision>,
    admission: Option<Decision>,
    accountabilitySource: Option<Str>,
    depth: u32,
    maxDepth: u32,
    signals: seq<Signal>,
    reason: Option<Str>)
  {
    /** The record of a verification, from a token or bare: this one, as it came out. */
    function Judged(verdict: Result<(), Denial>): AuthzDecision {
      match verdict
      case Ok(_) => this.(decision := Allow, signals := [], reason := None)
      case Err(e) => this.(decision := Deny, signals := [e.signal], reason := Some(e.text))
    }

    function Preimage(): seq<Symbol> {
      Domain("agentcreds-adr-record-v2") + (HeadText() + (PartiesText() + (RequestText() + AccountText())))
    }

    /** The length of the signal list is a machine word. */
    predicate Fits() {
      |signals| < 0x1_0000_0000_0000_0000
    }

    function HeadText(): seq<Symbol> {
      StrField(id) + (Le64(Seconds(timestamp)) + (KindText(kind) + DecisionText(decision)))
    }

    function PartiesText(): seq<Symbol> {
      StrField(subjectDid) + (StrField(rootAgentDid) + (StrField(issuerDid) + StrField(vcId)))
    }

    function RequestText(): seq<Symbol> {
      StrField(OrEmpty(action))
      + (Le32(depth)
      + (Le32(maxDepth)
      + (Le64(|signals|)
      + (Listing(signals, SignalText)
      + StrField(OrEmpty(reason))))))
    }

    function AccountText(): seq<Symbol> {
      OptField(principalDid)
      + (OptField(accountableParty)
      + (OptField(accountabilitySource)
      + (OptWord(partyVersion)
      + (OptField(partyCommitment)
      + (VerdictText(evaluation) + VerdictText(admission))))))
    }

    function Digest(): Hash {
      Sha256(Preimage())
    }

    /** What a digest shows of a decision: not its sequence number, nor the fraction of its
        second, nor whether an empty action or reason is absent. */
    function Shown(): AuthzDecision {
      this.(seqNo := 0, timestamp := WholeSecond(timestamp), action := Some(OrEmpty(action)),
            reason := Some(OrEmpty(reason)))
    }
  }

  /** A record the code itself makes: the setters and the stream change neither the decision,
      nor the signals, nor the reason. */
  ghost predicate Made(d: AuthzDecision) {
    exists fields: AuthzDecision, verdict :: d == fields.Judged(verdict)
  }

  function WholeSecond(t: Instant): Instant {
    Seconds(t) * 1_000_000_000
  }

  function DecisionText(d: Decision): seq<Symbol> {
    StrField(Ascii(DecisionName(d)))
  }

  function KindText(k: DecisionKind): seq<Symbol> {
    StrField(Ascii(KindName(k)))
  }

  function SignalText(s: Signal): seq<Symbol> {
    StrField(Ascii(SignalName(s)))
  }

  function VerdictText(d: Option<Decision>): seq<Symbol> {
    OptField(if d.Some? then Some(Ascii(DecisionName(d.value))) else None)
  }

  // -- The digest of a decision ---------------------------------------------------------

  lemma DecisionNames(a: Decision, b: Decision)
    requires Ascii(DecisionName(a)) == Ascii(DecisionName(b))
    ensures a == b
  {
    assert |DecisionName(a)| == |DecisionName(b)|;
  }

  lemma KindNames(a: DecisionKind, b: DecisionKind)
    requires Ascii(KindName(a)) == Ascii(KindName(b))
    ensures a == b
  {
    assert |KindName(a)| == |KindName(b)|;
  }

  lemma SignalNames(a: Signal, b: Signal)
    requires Ascii(SignalName(a)) == Ascii(SignalName(b))
    ensures a == b
  {
    assert |SignalName(a)| == |SignalName(b)|;
    assert Ascii(SignalName(a))[0] == Ascii(SignalName(b))[0];
  }

  predicate SameSignal(a: Signal, b: Signal) {
    a == b
  }

  lemma SignalListPrefix(a: seq<Signal>, b: seq<Signal>, r: seq<Symbol>, s: seq<Symbol>)
    requires |a| == |b| && Listing(a, SignalText) + r == Listing(b, SignalText) + s
    ensures a == b && r == s
  {
    forall x, y, t, u | SignalText(x) + t == SignalText(y) + u
      ensures SameSignal(x, y) && t == u
    {
      StrFieldPrefix(Ascii(SignalName(x)), Ascii(SignalName(y)), t, u);
      SignalNames(x, y);
    }
    ListingPrefix(a, b, SignalText, SameSignal, r, s);
  }

  lemma VerdictPrefix(a: Option<Decision>, b: Option<Decision>, r: seq<Symbol>, s: seq<Symbol>)
    requires VerdictText(a) + r == VerdictText(b) + s
    ensures a == b && r == s
  {
    OptFieldPrefix(if a.Some? then Some(Ascii(DecisionName(a.value))) else None,
                   if b.Some? then Some(Ascii(DecisionName(b.value))) else None, r, s);
    if a.Some? {
      DecisionNames(a.value, b.value);
    }
  }

  lemma NamePrefix(x: string, y: string, r: seq<Symbol>, s: seq<Symbol>)
    requires |x| < 0x1_0000_0000_0000_0000 && |y| < 0x1_0000_0000_0000_0000
    requires StrField(Ascii(x)) + r == StrField(Ascii(y)) + s
    ensures Ascii(x) == Ascii(y) && r == s
  {
    StrFieldPrefix(Ascii(x), Ascii(y), r, s);
  }

  lemma KindPrefix(a: DecisionKind, b: DecisionKind, r: seq<Symbol>, s: seq<Symbol>)
    requires KindText(a) + r == KindText(b) + s
    ensures a == b && r == s
  {
    NamePrefix(KindName(a), KindName(b), r, s);
    KindNames(a, b);
  }

  lemma DecisionPrefix(a: Decision, b: Decision, r: seq<Symbol>, s: seq<Symbol>)
    requires DecisionText(a) + r == DecisionText(b) + s
    ensures a == b && r == s
  {
    NamePrefix(DecisionName(a), DecisionName(b), r, s);
    DecisionNames(a, b);
  }

  lemma HeadPrefix(a: AuthzDecision, b: AuthzDecision, r: seq<Symbol>, s: seq<Symbol>)
    requires a.HeadText() + r == b.HeadText() + s
    ensures a.id == b.id && Seconds(a.timestamp) == Seconds(b.timestamp) && a.kind == b.kind && a.decision == b.decision
    ensures r == s
  {
    Nest3(StrField(a.id), Le64(Seconds(a.timestamp)), KindText(a.kind), DecisionText(a.decision), r);
    Nest3(StrField(b.id), Le64(Seconds(b.timestamp)), KindText(b.kind), DecisionText(b.decision), s);
    var a2, b2 := KindText(a.kind) + (DecisionText(a.decision) + r), KindText(b.kind) + (DecisionText(b.decision) + s);
    StrFieldPrefix(a.id, b.id, Le64(Seconds(a.timestamp)) + a2, Le64(Seconds(b.timestamp)) + b2);
    Le64Prefix(Seconds(a.timestamp), Seconds(b.timestamp), a2, b2);
    KindPrefix(a.kind, b.kind, DecisionText(a.decision) + r, DecisionText(b.decision) + s);
    DecisionPrefix(a.decision, b.decision, r, s);
  }

  lemma PartiesPrefix(a: AuthzDecision, b: AuthzDecision, r: seq<Symbol>, s: seq<Symbol>)
    requires a.PartiesText() + r == b.PartiesText() + s
    ensures a.subjectDid == b.subjectDid && a.rootAgentDid == b.rootAgentDid && a.issuerDid == b.issuerDid
    ensures a.vcId == b.vcId
    ensures r == s
  {
    Nest3(StrField(a.subjectDid), StrField(a.rootAgentDid), StrField(a.issuerDid), StrField(a.vcId), r);
    Nest3(StrField(b.subjectDid), StrField(b.rootAgentDid), StrField(b.issuerDid), StrField(b.vcId), s);
    var a2, b2 := StrField(a.issuerDid) + (StrField(a.vcId) + r), StrField(b.issuerDid) + (StrField(b.vcId) + s);
    StrFieldPrefix(a.subjectDid, b.subjectDid, StrField(a.rootAgentDid) + a2, StrField(b.rootAgentDid) + b2);
    StrFieldPrefix(a.rootAgentDid, b.rootAgentDid, a2, b2);
    StrFieldPrefix(a.issuerDid, b.issuerDid, StrField(a.vcId) + r, StrField(b.vcId) + s);
    StrFieldPrefix(a.vcId, b.vcId, r, s);
  }

  lemma RequestPrefix(a: AuthzDecision, b: AuthzDecision, r: seq<Symbol>, s: seq<Symbol>)
    requires a.Fits() && b.Fits()
    requires a.RequestText() + r == b.RequestText() + s
    ensures OrEmpty(a.action) == OrEmpty(b.action) && a.depth == b.depth && a.maxDepth == b.maxDepth
    ensures a.signals == b.signals && OrEmpty(a.reason) == OrEmpty(b.reason) && r == s
  {
    var as', bs := Listing(a.signals, SignalText), Listing(b.signals, SignalText);
    var a5, b5 := StrField(OrEmpty(a.reason)), StrField(OrEmpty(b.reason));
    RequestNesting(a, r);
    RequestNesting(b, s);
    var a4, b4 := as' + (a5 + r), bs + (b5 + s);
    var a3, b3 := Le64(|a.signals|) + a4, Le64(|b.signals|) + b4;
    var a2, b2 := Le32(a.maxDepth) + a3, Le32(b.maxDepth) + b3;
    StrFieldPrefix(OrEmpty(a.action), OrEmpty(b.action), Le32(a.depth) + a2, Le32(b.depth) + b2);
    Le32Prefix(a.depth, b.depth, a2, b2);
    Le32Prefix(a.maxDepth, b.maxDepth, a3, b3);
    Le64Prefix(|a.signals|, |b.signals|, a4, b4);
    SignalListPrefix(a.signals, b.signals, a5 + r, b5 + s);
    StrFieldPrefix(OrEmpty(a.reason), OrEmpty(b.reason), r, s);
  }

  lemma AccountInjective(a: AuthzDecision, b: AuthzDecision)
    requires a.AccountText() == b.AccountText()
    ensures a.principalDid == b.principalDid && a.accountableParty == b.accountableParty
    ensures a.accountabilitySource == b.accountabilitySource && a.partyVersion == b.partyVersion
    ensures a.partyCommitment == b.partyCommitment && a.evaluation == b.evaluation && a.admission == b.admission
  {
    var a6, b6 := VerdictText(a.admission), VerdictText(b.admission);
    var a5, b5 := VerdictText(a.evaluation) + a6, VerdictText(b.evaluation) + b6;
    var a4, b4 := OptField(a.partyCommitment) + a5, OptField(b.partyCommitment) + b5;
    var a3, b3 := OptWord(a.partyVersion) + a4, OptWord(b.partyVersion) + b4;
    var a2, b2 := OptField(a.accountabilitySource) + a3, OptField(b.accountabilitySource) + b3;
    var a1, b1 := OptField(a.accountableParty) + a2, OptField(b.accountableParty) + b2;
    OptFieldPrefix(a.principalDid, b.principalDid, a1, b1);
    OptFieldPrefix(a.accountableParty, b.accountableParty, a2, b2);
    OptFieldPrefix(a.accountabilitySource, b.accountabilitySource, a3, b3);
    OptWordPrefix(a.partyVersion, b.partyVersion, a4, b4);
    OptFieldPrefix(a.partyCommitment, b.partyCommitment, a5, b5);
    VerdictPrefix(a.evaluation, b.evaluation, a6, b6);
    assert a6 + [] == a6 && b6 + [] == b6;
    VerdictPrefix(a.admission, b.admission, [], []);
  }

  /** Two decisions have one digest exactly when they show the same: who was accountable, for
      whom and with what outcome cannot be rewritten, nor absent and empty be exchanged there. */
  lemma DecisionDigestExact(a: AuthzDecision, b: AuthzDecision)
    requires a.Fits() && b.Fits()
    ensures a.Digest() == b.Digest() <==> a.Shown() == b.Shown()
  {
    if a.Shown() == b.Shown() {
      ShownDecidesDigest(a);
      ShownDecidesDigest(b);
    }
    if a.Preimage() == b.Preimage() {
      var d := Domain("agentcreds-adr-record-v2");
      var a2, b2 := a.RequestText() + a.AccountText(), b.RequestText() + b.AccountText();
      var a1, b1 := a.PartiesText() + a2, b.PartiesText() + b2;
      SplitAt(d, a.HeadText() + a1, d, b.HeadText() + b1);
      HeadPrefix(a, b, a1, b1);
      PartiesPrefix(a, b, a2, b2);
      RequestPrefix(a, b, a.AccountText(), b.AccountText());
      AccountInjective(a, b);
    }
  }

  lemma ShownDecidesDigest(d: AuthzDecision)
    ensures d.Shown().Digest() == d.Digest()
  {
    var s := d.Shown();
    assert Seconds(s.timestamp) == Seconds(d.timestamp);
    assert s.HeadText() == d.HeadText();
    assert s.PartiesText() == d.PartiesText();
    assert s.RequestText() == d.RequestText();
    assert s.AccountText() == d.AccountText();
  }

  method DigestOf(d: AuthzDecision) returns (h: Hash)
    ensures h == d.Digest()
  {
    ghost var account := d.AccountText();
    ghost var r5 := StrField(OrEmpty(d.reason)) + account;
    ghost var r4 := Listing(d.signals, SignalText) + r5;
    ghost var r3 := Le64(|d.signals|) + r4;
    ghost var r2 := Le32(d.maxDepth) + r3;
    ghost var r1 := Le32(d.depth) + r2;
    ghost var r0 := StrField(OrEmpty(d.action)) + r1;
    var hasher := new Hasher("agentcreds-adr-record-v2");
    hasher.Update(d.HeadText(), d.PartiesText() + r0);
    hasher.Update(d.PartiesText(), r0);
    hasher.Update(StrField(OrEmpty(d.action)), r1);
    hasher.Update(Le32(d.depth), r2);
    hasher.Update(Le32(d.maxDepth), r3);
    hasher.Update(Le64(|d.signals|), r4);
    hasher.UpdateEach(d.signals, SignalText, r5);
    hasher.Update(StrField(OrEmpty(d.reason)), account);
    hasher.Update(d.AccountText(), []);
    assert account + [] == account && hasher.absorbed + [] == hasher.absorbed;
    RequestNesting(d, account);
    h := hasher.Finalize();
  }

  lemma RequestNesting(d: AuthzDecision, rest: seq<Symbol>)
    ensures d.RequestText() + rest
         == StrField(OrEmpty(d.action)) + (Le32(d.depth) + (Le32(d.maxDepth) + (Le64(|d.signals|)
            + (Listing(d.signals, SignalText) + (StrField(OrEmpty(d.reason)) + rest)))))
  {
    var signals, reason := Listing(d.signals, SignalText), StrField(OrEmpty(d.reason));
    Associate(StrField(OrEmpty(d.action)),
              Le32(d.depth) + (Le32(d.maxDepth) + (Le64(|d.signals|) + (signals + reason))), rest);
    Nest4(Le32(d.depth), Le32(d.maxDepth), Le64(|d.signals|), signals, reason, rest);
  }
}
