/** Intent alignment: a signed statement of what an agent is for, evaluators' signed
    judgements of one action against it, and quorums of distinct evaluators. */
module Intent {
  import opened Wrappers
  import opened Did
  import opened Transcript

  /** "intent-alignment": the kind of evidence an evaluator gives. */
  const GATE_INTENT: Str := [105, 110, 116, 101, 110, 116, 45, 97, 108, 105, 103, 110, 109, 101, 110, 116]

  datatype IntentStatement = IntentStatement(
    intentId: Str,
    taskId: Str,
    subjectDid: Str,
    statement: Str,
    declaredBy: Str,
    issuedAt: i64,
    expiresAt: i64,
    signature: Text)
  {
    function Preimage(): seq<Symbol> {
      Domain("agentcreds-intent-statement-v1")
      + (StrField(intentId)
      + (StrField(taskId)
      + (StrField(subjectDid)
      + (StrField(statement)
      + (StrField(declaredBy)
      + (Le64(issuedAt)
      + Le64(expiresAt)))))))
    }

    function Payload(): Hash {
      Sha256(Preimage())
    }

    function Binding(): Text {
      HexText(Payload())
    }

    predicate VerifiesAt(anchor: TrustAnchor, now: i64) {
      Verifies(anchor.key, Payload(), signature) && issuedAt <= now < expiresAt
    }
  }

  datatype AlignmentEvidence = AlignmentEvidence(
    evidenceId: Str,
    kind: Str,
    intentBinding: Text,
    actionBinding: Text,
    evaluator: Str,
    evaluatorVersion: Str,
    semanticDistance: byte,
    confidence: byte,
    rationale: Str,
    expiresAt: i64,
    signature: Text)
  {
    function Preimage(): seq<Symbol> {
      Domain("agentcreds-alignment-evidence-v1") + (SubjectText() + JudgementText())
    }

    function SubjectText(): seq<Symbol> {
      StrField(evidenceId) + (StrField(kind) + (Field(intentBinding) + Field(actionBinding)))
    }

    function JudgementText(): seq<Symbol> {
      StrField(evaluator)
      + (StrField(evaluatorVersion)
      + (StrField(rationale)
      + ([Byte(semanticDistance), Byte(confidence)]
      + Le64(expiresAt))))
    }

    function Payload(): Hash {
      Sha256(Preimage())
    }

    /** `evaluator@version`. */
    function Attribution(): seq<byte> {
      evaluator + [64] + evaluatorVersion
    }
  }

  datatype DeclareError = DeclaredByItsSubject | EmptyWindow | AnchorCannotSign

  /** An agent may not declare its own intent. What is declared is in force exactly within its
      window. */
  method Declare(taskId: Str, subjectDid: Str, statement: Str, declaredBy: Str, intentId: Str, issuedAt: i64,
                 expiresAt: i64, anchor: TrustAnchor)
    returns (r: Result<IntentStatement, DeclareError>)
    ensures r.Ok? <==> declaredBy != subjectDid && issuedAt < expiresAt && anchor.signs
    ensures r.Ok? ==> forall now: i64 :: r.value.VerifiesAt(anchor, now) <==> issuedAt <= now < expiresAt
    ensures r.Ok? ==>
              r.value == IntentStatement(intentId, taskId, subjectDid, statement, declaredBy, issuedAt, expiresAt,
                                         r.value.signature)
  {
    if declaredBy == subjectDid {
      return Err(DeclaredByItsSubject);
    }
    if expiresAt <= issuedAt {
      return Err(EmptyWindow);
    }
    var s := IntentStatement(intentId, taskId, subjectDid, statement, declaredBy, issuedAt, expiresAt, []);
    match Sign(anchor, s.Payload())
    case Err(_) => r := Err(AnchorCannotSign);
    case Ok(text) =>
      assert s.(signature := text).Payload() == s.Payload();
      r := Ok(s.(signature := text));
  }

  // -- Payloads -------------------------------------------------------------------------

  /** Two statements have one binding exactly when they differ at most in their signatures. */
  lemma IntentBindingExact(a: IntentStatement, b: IntentStatement)
    ensures a.Binding() == b.Binding() <==> a == b.(signature := a.signature)
  {
    HexInjective(a.Payload(), b.Payload());
    if a.Preimage() == b.Preimage() {
      var a6, b6 := Le64(a.issuedAt) + Le64(a.expiresAt), Le64(b.issuedAt) + Le64(b.expiresAt);
      var a5, b5 := StrField(a.declaredBy) + a6, StrField(b.declaredBy) + b6;
      var a4, b4 := StrField(a.statement) + a5, StrField(b.statement) + b5;
      var a3, b3 := StrField(a.subjectDid) + a4, StrField(b.subjectDid) + b4;
      var a2, b2 := StrField(a.taskId) + a3, StrField(b.taskId) + b3;
      var d := Domain("agentcreds-intent-statement-v1");
      SplitAt(d, StrField(a.intentId) + a2, d, StrField(b.intentId) + b2);
      StrFieldPrefix(a.intentId, b.intentId, a2, b2);
      StrFieldPrefix(a.taskId, b.taskId, a3, b3);
      StrFieldPrefix(a.subjectDid, b.subjectDid, a4, b4);
      StrFieldPrefix(a.statement, b.statement, a5, b5);
      StrFieldPrefix(a.declaredBy, b.declaredBy, a6, b6);
      Le64Prefix(a.issuedAt, b.issuedAt, Le64(a.expiresAt), Le64(b.expiresAt));
      Le64Injective(a.expiresAt, b.expiresAt);
    }
  }

  lemma SubjectPrefix(a: AlignmentEvidence, b: AlignmentEvidence, r: seq<Symbol>, s: seq<Symbol>)
    requires a.SubjectText() + r == b.SubjectText() + s
    ensures a.evidenceId == b.evidenceId && a.kind == b.kind && a.intentBinding == b.intentBinding
    ensures a.actionBinding == b.actionBinding && r == s
  {
    Nest3(StrField(a.evidenceId), StrField(a.kind), Field(a.intentBinding), Field(a.actionBinding), r);
    Nest3(StrField(b.evidenceId), StrField(b.kind), Field(b.intentBinding), Field(b.actionBinding), s);
    var a2 := Field(a.intentBinding) + (Field(a.actionBinding) + r);
    var b2 := Field(b.intentBinding) + (Field(b.actionBinding) + s);
    StrFieldPrefix(a.evidenceId, b.evidenceId, StrField(a.kind) + a2, StrField(b.kind) + b2);
    StrFieldPrefix(a.kind, b.kind, a2, b2);
    FieldPrefix(a.intentBinding, b.intentBinding, Field(a.actionBinding) + r, Field(b.actionBinding) + s);
    FieldPrefix(a.actionBinding, b.actionBinding, r, s);
  }

  lemma JudgementInjective(a: AlignmentEvidence, b: AlignmentEvidence)
    requires a.JudgementText() == b.JudgementText()
    ensures a.evaluator == b.evaluator && a.evaluatorVersion == b.evaluatorVersion && a.rationale == b.rationale
    ensures a.semanticDistance == b.semanticDistance && a.confidence == b.confidence && a.expiresAt == b.expiresAt
  {
    var x, y := [Byte(a.semanticDistance), Byte(a.confidence)], [Byte(b.semanticDistance), Byte(b.confidence)];
    var a3, b3 := x + Le64(a.expiresAt), y + Le64(b.expiresAt);
    var a2, b2 := StrField(a.rationale) + a3, StrField(b.rationale) + b3;
    StrFieldPrefix(a.evaluator, b.evaluator, StrField(a.evaluatorVersion) + a2, StrField(b.evaluatorVersion) + b2);
    StrFieldPrefix(a.evaluatorVersion, b.evaluatorVersion, a2, b2);
    StrFieldPrefix(a.rationale, b.rationale, a3, b3);
    SplitAt(x, Le64(a.expiresAt), y, Le64(b.expiresAt));
    assert x[0] == y[0] && x[1] == y[1];
    Le64Injective(a.expiresAt, b.expiresAt);
  }

  /** Two judgements have one payload exactly when they differ at most in their signatures:
      neither distance nor confidence can be adjusted, nor exchanged for the other. */
  lemma EvidencePayloadExact(a: AlignmentEvidence, b: AlignmentEvidence)
    ensures a.Payload() == b.Payload() <==> a == b.(signature := a.signature)
  {
    if a == b.(signature := a.signature) {
      assert a.SubjectText() == b.SubjectText() && a.JudgementText() == b.JudgementText();
    }
    if a.Preimage() == b.Preimage() {
      var d := Domain("agentcreds-alignment-evidence-v1");
      SplitAt(d, a.SubjectText() + a.JudgementText(), d, b.SubjectText() + b.JudgementText());
      SubjectPrefix(a, b, a.JudgementText(), b.JudgementText());
      JudgementInjective(a, b);
    }
  }

  /** The kind, as text. */
  lemma GateIs()
    ensures GATE_INTENT == Ascii("intent-alignment")
  {
  }

  /** The attribution names the evaluator, then the version behind an `@`. */
  lemma AttributionNames(ev: AlignmentEvidence)
    ensures var n := |ev.evaluator|;
      && |ev.Attribution()| == n + 1 + |ev.evaluatorVersion|
      && ev.Attribution()[..n] == ev.evaluator && ev.Attribution()[n] == '@' as int
      && ev.Attribution()[n + 1..] == ev.evaluatorVersion
  {
  }

  // -- One judgement --------------------------------------------------------------------

  /** What a judgement is checked against. */
  datatype Context = Context(intent: IntentStatement, actionBinding: Text, agentDid: Str, anchor: TrustAnchor, now: i64)

  datatype IntentError = BadIntent | WrongAgent | WrongKind | BadSignature | EvidenceExpired | WrongIntent | WrongAction
                       | TooFar | Unsure | RepeatedEvaluator | TooFew | NoQuorum

  function VerifyEvidence(ev: AlignmentEvidence, c: Context, maxDistance: Option<byte>): Result<(), IntentError> {
    if !c.intent.VerifiesAt(c.anchor, c.now) then Err(BadIntent)
    else if c.intent.subjectDid != c.agentDid then Err(WrongAgent)
    else if ev.kind != GATE_INTENT then Err(WrongKind)
    else if !Verifies(c.anchor.key, ev.Payload(), ev.signature) then Err(BadSignature)
    else if c.now >= ev.expiresAt then Err(EvidenceExpired)
    else if ev.intentBinding != c.intent.Binding() then Err(WrongIntent)
    else if ev.actionBinding != c.actionBinding then Err(WrongAction)
    else if maxDistance.Some? && ev.semanticDistance > maxDistance.value then Err(TooFar)
    else Ok(())
  }

  datatype Judgement = Judgement(evaluator: Str, evaluatorVersion: Str, semanticDistance: byte, confidence: byte,
                                 rationale: Str)

  const MAX_RATIONALE := 1024

  function Attested(intent: IntentStatement, actionBinding: Text, j: Judgement, evidenceId: Str, expiresAt: i64,
                    anchor: TrustAnchor): AlignmentEvidence {
    var ev := AlignmentEvidence(evidenceId, GATE_INTENT, intent.Binding(), actionBinding, j.evaluator,
                                j.evaluatorVersion, j.semanticDistance, j.confidence, j.rationale, expiresAt, []);
    ev.(signature := SignatureText(anchor.key, ev.Payload()))
  }

  datatype AttestError = DistanceOver100 | ConfidenceOver100 | Unversioned | RationaleTooLong | CannotSign

  method Attest(intent: IntentStatement, actionBinding: Text, j: Judgement, evidenceId: Str, expiresAt: i64,
                anchor: TrustAnchor)
    returns (r: Result<AlignmentEvidence, AttestError>)
    ensures r.Ok? <==>
              && j.semanticDistance <= 100 && j.confidence <= 100 && j.evaluator != [] && j.evaluatorVersion != []
              && |j.rationale| <= 1024 && anchor.signs
    ensures r.Ok? ==> r.value == Attested(intent, actionBinding, j, evidenceId, expiresAt, anchor)
    ensures r.Ok? ==>
              && r.value.evidenceId == evidenceId && r.value.kind == Ascii("intent-alignment")
              && r.value.intentBinding == intent.Binding() && r.value.actionBinding == actionBinding
              && r.value.evaluator == j.evaluator && r.value.evaluatorVersion == j.evaluatorVersion
              && r.value.semanticDistance == j.semanticDistance && r.value.confidence == j.confidence
              && r.value.rationale == j.rationale && r.value.expiresAt == expiresAt
  {
    if j.semanticDistance > 100 {
      return Err(DistanceOver100);
    }
    if j.confidence > 100 {
      return Err(ConfidenceOver100);
    }
    if j.evaluator == [] || j.evaluatorVersion == [] {
      return Err(Unversioned);
    }
    if |j.rationale| > MAX_RATIONALE {
      return Err(RationaleTooLong);
    }
    var ev := AlignmentEvidence(evidenceId, GATE_INTENT, intent.Binding(), actionBinding, j.evaluator,
                                j.evaluatorVersion, j.semanticDistance, j.confidence, j.rationale, expiresAt, []);
    GateIs();
    match Sign(anchor, ev.Payload())
    case Err(_) => r := Err(AttestError.CannotSign);
    case Ok(text) => r := Ok(ev.(signature := text));
  }

  lemma AttestedIsSigned(intent: IntentStatement, actionBinding: Text, j: Judgement, evidenceId: Str, expiresAt: i64,
                         anchor: TrustAnchor)
    ensures var ev := Attested(intent, actionBinding, j, evidenceId, expiresAt, anchor);
      ev.signature == SignatureText(anchor.key, ev.Payload())
  {
    var ev := Attested(intent, actionBinding, j, evidenceId, expiresAt, anchor);
    EvidencePayloadExact(ev, ev.(signature := []));
  }

  lemma SignedPayload(key: PublicKey, signed: Hash, shown: Hash)
    ensures Verifies(key, shown, SignatureText(key, signed)) <==> signed == shown
  {
  }

  lemma SignatureFixesEvidence(key: PublicKey, signed: AlignmentEvidence, ev: AlignmentEvidence)
    requires ev.signature == signed.signature == SignatureText(key, signed.Payload())
    ensures Verifies(key, ev.Payload(), ev.signature) <==> ev == signed
  {
    SignedPayload(key, signed.Payload(), ev.Payload());
    EvidencePayloadExact(ev, signed);
  }

  lemma SignedIsAcceptedExactly(judged: IntentStatement, ev: AlignmentEvidence, c: Context, maxDistance: Option<byte>)
    requires ev.kind == GATE_INTENT && ev.intentBinding == judged.Binding()
    requires Verifies(c.anchor.key, ev.Payload(), ev.signature)
    ensures VerifyEvidence(ev, c, maxDistance).Ok?
            <==> (&& c.intent == judged.(signature := c.intent.signature)
                  && c.intent.VerifiesAt(c.anchor, c.now) && judged.subjectDid == c.agentDid
                  && c.actionBinding == ev.actionBinding && c.now < ev.expiresAt
                  && (maxDistance.Some? ==> ev.semanticDistance <= maxDistance.value))
  {
    assert ev.intentBinding == c.intent.Binding() <==> c.intent == judged.(signature := c.intent.signature) by {
      IntentBindingExact(c.intent, judged);
    }
  }

  /** Evidence under the signature of a judgement attested for one statement and action is
      accepted exactly when it is that judgement, presented with that statement, in force and
      declared for the acting agent, for that action, in time and within the distance. */
  lemma AttestedIsAcceptedExactly(judged: IntentStatement, actionBinding: Text, j: Judgement, evidenceId: Str,
                                  expiresAt: i64, ev: AlignmentEvidence, c: Context, maxDistance: Option<byte>)
    requires ev.signature == Attested(judged, actionBinding, j, evidenceId, expiresAt, c.anchor).signature
    ensures VerifyEvidence(ev, c, maxDistance).Ok?
            <==> (&& ev == Attested(judged, actionBinding, j, evidenceId, expiresAt, c.anchor)
                  && c.intent == judged.(signature := c.intent.signature)
                  && c.intent.VerifiesAt(c.anchor, c.now) && judged.subjectDid == c.agentDid
                  && c.actionBinding == actionBinding && c.now < expiresAt
                  && (maxDistance.Some? ==> j.semanticDistance <= maxDistance.value))
  {
    var signed := Attested(judged, actionBinding, j, evidenceId, expiresAt, c.anchor);
    AttestedIsSigned(judged, actionBinding, j, evidenceId, expiresAt, c.anchor);
    SignatureFixesEvidence(c.anchor.key, signed, ev);
    if ev == signed {
      SignedIsAcceptedExactly(judged, ev, c, maxDistance);
    }
  }

  // -- Quorums --------------------------------------------------------------------------

  datatype AlignmentPolicy = AlignmentPolicy(quorum: nat, maxDistance: Option<byte>, minConfidence: Option<byte>)

  datatype AlignmentVerdict = AlignmentVerdict(evaluators: seq<seq<byte>>, worstDistance: byte, weakestConfidence: byte)

  predicate Satisfies(ev: AlignmentEvidence, c: Context, policy: AlignmentPolicy) {
    && VerifyEvidence(ev, c, policy.maxDistance).Ok?
    && (policy.minConfidence.Some? ==> ev.confidence >= policy.minConfidence.value)
  }

  /** Why a piece of evidence does not satisfy the policy, if it does not. */
  function Fault(ev: AlignmentEvidence, c: Context, policy: AlignmentPolicy): (fault: Option<IntentError>)
    ensures fault.None? <==> Satisfies(ev, c, policy)
  {
    match VerifyEvidence(ev, c, policy.maxDistance)
    case Err(e) => Some(e)
    case Ok(_) =>
      if policy.minConfidence.Some? && ev.confidence < policy.minConfidence.value then Some(Unsure) else None
  }

  /** No evaluator judged more than once, in whatever versions. */
  ghost predicate DistinctEvaluators(evidence: seq<AlignmentEvidence>) {
    forall i, j | 0 <= i < j < |evidence| :: evidence[i].evaluator != evidence[j].evaluator
  }

  ghost predicate MeetsQuorum(evidence: seq<AlignmentEvidence>, c: Context, policy: AlignmentPolicy) {
    && policy.quorum >= 1 && |evidence| >= policy.quorum
    && AllSatisfy(evidence, c, policy) && DistinctEvaluators(evidence)
  }

  /** The largest distance; the smallest confidence, at most 100. */
  ghost predicate IsVerdict(evidence: seq<AlignmentEvidence>, worst: byte, weakest: byte) {
    && (forall ev | ev in evidence :: ev.semanticDistance <= worst)
    && (worst == 0 || exists ev | ev in evidence :: ev.semanticDistance == worst)
    && (forall ev | ev in evidence :: weakest <= ev.confidence)
    && weakest <= 100 && (weakest == 100 || exists ev | ev in evidence :: ev.confidence == weakest)
  }

  ghost predicate AllSatisfy(evidence: seq<AlignmentEvidence>, c: Context, policy: AlignmentPolicy) {
    forall ev | ev in evidence :: Satisfies(ev, c, policy)
  }

  /** The evidence so far is acceptable and these are its extremes. */
  ghost predicate Agreed(evidence: seq<AlignmentEvidence>, c: Context, policy: AlignmentPolicy, worst: byte,
                         weakest: byte) {
    AllSatisfy(evidence, c, policy) && DistinctEvaluators(evidence) && IsVerdict(evidence, worst, weakest)
  }

  method VerifyQuorum(evidence: seq<AlignmentEvidence>, c: Context, policy: AlignmentPolicy)
    returns (r: Result<AlignmentVerdict, IntentError>)
    ensures r.Ok? <==> MeetsQuorum(evidence, c, policy)
    ensures r.Ok? <==>
              && policy.quorum >= 1 && |evidence| >= policy.quorum
              && (forall ev | ev in evidence ::
                    && VerifyEvidence(ev, c, policy.maxDistance).Ok?
                    && (policy.minConfidence.Some? ==> ev.confidence >= policy.minConfidence.value))
              && (forall i, j | 0 <= i < j < |evidence| :: evidence[i].evaluator != evidence[j].evaluator)
    ensures r.Ok? ==>
              && IsVerdict(evidence, r.value.worstDistance, r.value.weakestConfidence)
              && r.value.evaluators == Attributions(evidence)
  {
    if policy.quorum == 0 {
      return Err(NoQuorum);
    }
    var evaluators: seq<seq<byte>> := [];
    var seen: seq<Str> := [];
    var worst: byte := 0;
    var weakest: byte := 100;
    for i := 0 to |evidence|
      invariant evaluators == Attributions(evidence[..i]) && seen == Names(evidence[..i])
      invariant Agreed(evidence[..i], c, policy, worst, weakest)
    {
      var ev := evidence[i];
      assert ev in evidence;
      var fault := Fault(ev, c, policy);
      if fault.Some? {
        return Err(fault.value);
      }
      if ev.evaluator in seen {
        RepeatIsNotDistinct(evidence, i);
        return Err(RepeatedEvaluator);
      }
      TakeSnoc(evidence, i);
      AgreedSnoc(evidence[..i], ev, c, policy, worst, weakest);
      seen := seen + [ev.evaluator];
      evaluators := evaluators + [ev.Attribution()];
      worst := if worst < ev.semanticDistance then ev.semanticDistance else worst;
      weakest := if ev.confidence < weakest then ev.confidence else weakest;
    }
    assert evidence[..|evidence|] == evidence;
    if |evaluators| < policy.quorum {
      return Err(TooFew);
    }
    r := Ok(AlignmentVerdict(evaluators, worst, weakest));
  }

  function Attributions(evidence: seq<AlignmentEvidence>): (r: seq<seq<byte>>)
    ensures |r| == |evidence| && forall i | 0 <= i < |evidence| :: r[i] == evidence[i].Attribution()
  {
    seq(|evidence|, i requires 0 <= i < |evidence| => evidence[i].Attribution())
  }

  function Names(evidence: seq<AlignmentEvidence>): (r: seq<Str>)
    ensures |r| == |evidence| && forall i | 0 <= i < |evidence| :: r[i] == evidence[i].evaluator
  {
    seq(|evidence|, i requires 0 <= i < |evidence| => evidence[i].evaluator)
  }

  lemma RepeatIsNotDistinct(evidence: seq<AlignmentEvidence>, i: nat)
    requires i < |evidence| && evidence[i].evaluator in Names(evidence[..i])
    ensures !DistinctEvaluators(evidence)
  {
    var j :| 0 <= j < i && Names(evidence[..i])[j] == evidence[i].evaluator;
    assert evidence[j].evaluator == evidence[i].evaluator;
  }

  lemma AllSatisfySnoc(evidence: seq<AlignmentEvidence>, ev: AlignmentEvidence, c: Context, policy: AlignmentPolicy)
    requires AllSatisfy(evidence, c, policy) && Satisfies(ev, c, policy)
    ensures AllSatisfy(evidence + [ev], c, policy)
  {
    assert forall x | x in evidence + [ev] :: x in evidence || x == ev;
  }

  lemma AgreedSnoc(evidence: seq<AlignmentEvidence>, ev: AlignmentEvidence, c: Context, policy: AlignmentPolicy,
                   worst: byte, weakest: byte)
    requires Agreed(evidence, c, policy, worst, weakest) && Satisfies(ev, c, policy)
    requires ev.evaluator !in Names(evidence)
    ensures Agreed(evidence + [ev], c, policy, if worst < ev.semanticDistance then ev.semanticDistance else worst,
                   if ev.confidence < weakest then ev.confidence else weakest)
    ensures Names(evidence + [ev]) == Names(evidence) + [ev.evaluator]
    ensures Attributions(evidence + [ev]) == Attributions(evidence) + [ev.Attribution()]
  {
    AllSatisfySnoc(evidence, ev, c, policy);
    VerdictSnoc(evidence, ev, worst, weakest);
    DistinctSnoc(evidence, ev);
    ListsSnoc(evidence, ev);
  }

  lemma DistinctSnoc(evidence: seq<AlignmentEvidence>, ev: AlignmentEvidence)
    requires DistinctEvaluators(evidence) && ev.evaluator !in Names(evidence)
    ensures DistinctEvaluators(evidence + [ev])
  {
    forall i | 0 <= i < |evidence|
      ensures evidence[i].evaluator != ev.evaluator
    {
      assert Names(evidence)[i] == evidence[i].evaluator;
    }
  }

  lemma ListsSnoc(evidence: seq<AlignmentEvidence>, ev: AlignmentEvidence)
    ensures Names(evidence + [ev]) == Names(evidence) + [ev.evaluator]
    ensures Attributions(evidence + [ev]) == Attributions(evidence) + [ev.Attribution()]
  {
  }

  lemma VerdictSnoc(evidence: seq<AlignmentEvidence>, ev: AlignmentEvidence, worst: byte, weakest: byte)
    requires IsVerdict(evidence, worst, weakest)
    ensures IsVerdict(evidence + [ev], if worst < ev.semanticDistance then ev.semanticDistance else worst,
                      if ev.confidence < weakest then ev.confidence else weakest)
  {
    assert forall x | x in evidence + [ev] :: x in evidence || x == ev;
    assert forall x | x in evidence :: x in evidence + [ev];
    assert ev in evidence + [ev];
  }

  /** The judgements of one evaluator. */
  function By(evidence: seq<AlignmentEvidence>, evaluator: Str): seq<AlignmentEvidence> {
    if evidence == [] then []
    else (if evidence[0].evaluator == evaluator then [evidence[0]] else []) + By(evidence[1..], evaluator)
  }

  lemma {:induction false} ByCount(evidence: seq<AlignmentEvidence>, evaluator: Str, ev: AlignmentEvidence)
    ensures multiset(By(evidence, evaluator))[ev] == if ev.evaluator == evaluator then multiset(evidence)[ev] else 0
  {
    if evidence != [] {
      ByCount(evidence[1..], evaluator, ev);
      assert evidence == [evidence[0]] + evidence[1..];
    }
  }

  lemma {:induction false} NoneBy(evidence: seq<AlignmentEvidence>, evaluator: Str)
    ensures |By(evidence, evaluator)| == 0 <==> forall ev | ev in evidence :: ev.evaluator != evaluator
  {
    if evidence != [] {
      NoneBy(evidence[1..], evaluator);
      assert forall ev | ev in evidence :: ev == evidence[0] || ev in evidence[1..];
      assert forall ev | ev in evidence[1..] :: ev in evidence;
      assert evidence[0] in evidence;
    }
  }

  ghost predicate AtMostOnce(evidence: seq<AlignmentEvidence>) {
    forall e: Str :: |By(evidence, e)| <= 1
  }

  lemma {:induction false} DistinctIsAtMostOnce(evidence: seq<AlignmentEvidence>)
    ensures DistinctEvaluators(evidence) <==> AtMostOnce(evidence)
  {
    if evidence != [] {
      var x, rest := evidence[0], evidence[1..];
      DistinctIsAtMostOnce(rest);
      NoneBy(rest, x.evaluator);
      DistinctCons(evidence);
      forall e: Str
        ensures |By(evidence, e)| == |By(rest, e)| + (if e == x.evaluator then 1 else 0)
      {
      }
      assert |By(evidence, x.evaluator)| == |By(rest, x.evaluator)| + 1;
    }
  }

  lemma DistinctCons(evidence: seq<AlignmentEvidence>)
    requires evidence != []
    ensures DistinctEvaluators(evidence)
            <==> DistinctEvaluators(evidence[1..])
                 && forall ev | ev in evidence[1..] :: ev.evaluator != evidence[0].evaluator
  {
    if DistinctEvaluators(evidence[1..]) && forall ev | ev in evidence[1..] :: ev.evaluator != evidence[0].evaluator {
      forall i, j | 0 <= i < j < |evidence|
        ensures evidence[i].evaluator != evidence[j].evaluator
      {
        assert evidence[j] == evidence[1..][j - 1];
        if i > 0 {
          assert evidence[i] == evidence[1..][i - 1];
        }
      }
    }
    if DistinctEvaluators(evidence) {
      forall i, j | 0 <= i < j < |evidence| - 1
        ensures evidence[1..][i].evaluator != evidence[1..][j].evaluator
      {
        assert evidence[i + 1].evaluator != evidence[j + 1].evaluator;
      }
    }
  }

  lemma PermutedAtMostOnce(a: seq<AlignmentEvidence>, b: seq<AlignmentEvidence>)
    requires multiset(a) == multiset(b) && AtMostOnce(a)
    ensures AtMostOnce(b)
  {
    forall e: Str
      ensures |By(b, e)| <= 1
    {
      forall ev
        ensures multiset(By(a, e))[ev] == multiset(By(b, e))[ev]
      {
        ByCount(a, e, ev);
        ByCount(b, e, ev);
      }
      assert multiset(By(a, e)) == multiset(By(b, e));
      assert |By(a, e)| == |multiset(By(a, e))| && |By(b, e)| == |multiset(By(b, e))|;
    }
  }

  lemma SameElements(a: seq<AlignmentEvidence>, b: seq<AlignmentEvidence>)
    requires multiset(a) == multiset(b)
    ensures |a| == |b| && forall ev :: ev in a <==> ev in b
  {
    assert |a| == |multiset(a)| && |b| == |multiset(b)|;
    forall ev
      ensures ev in a <==> ev in b
    {
      assert ev in a <==> ev in multiset(a);
      assert ev in b <==> ev in multiset(b);
    }
  }

  /** Whether a quorum is met, the worst distance and the weakest confidence do not depend on
      the order of the evidence. */
  lemma QuorumIgnoresOrder(a: seq<AlignmentEvidence>, b: seq<AlignmentEvidence>, c: Context, policy: AlignmentPolicy,
                           worst: byte, weakest: byte)
    requires multiset(a) == multiset(b)
    ensures MeetsQuorum(a, c, policy) == MeetsQuorum(b, c, policy)
    ensures IsVerdict(a, worst, weakest) == IsVerdict(b, worst, weakest)
  {
    SameElements(a, b);
    DistinctIsAtMostOnce(a);
    DistinctIsAtMostOnce(b);
    if AtMostOnce(a) {
      PermutedAtMostOnce(a, b);
    }
    if AtMostOnce(b) {
      PermutedAtMostOnce(b, a);
    }
  }

  /** And there is one such pair. */
  lemma VerdictIsUnique(evidence: seq<AlignmentEvidence>, worst: byte, weakest: byte, worst': byte, weakest': byte)
    requires IsVerdict(evidence, worst, weakest) && IsVerdict(evidence, worst', weakest')
    ensures worst == worst' && weakest == weakest'
  {
  }
}
