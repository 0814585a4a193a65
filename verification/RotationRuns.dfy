/** What every run of rotations, repudiations and seals keeps, and what a relying party
    accepts after it. Failing operations are part of a run. */
module RotationRuns {
  import opened Wrappers
  import opened Transcript
  import opened Rotation

  function Run(keys: KeyParser, root: Str, ops: seq<Op>): History {
    if ops == [] then Genesis(root) else Step(keys, Run(keys, root, ops[..|ops| - 1]), ops[|ops| - 1])
  }

  /** The seal that is the last change of the run, if a seal is. */
  function LastSeal(keys: KeyParser, root: Str, ops: seq<Op>): Option<Op> {
    if ops == [] then None
    else
      var init, op := ops[..|ops| - 1], ops[|ops| - 1];
      SealAfter(keys, Run(keys, root, init), op, LastSeal(keys, root, init))
  }

  /** A seal that cannot sign counts as a change: it clears the signature. */
  function SealAfter(keys: KeyParser, h: History, op: Op, before: Option<Op>): Option<Op> {
    if op.Seal? && Succeeds(keys, h, op) then Some(op)
    else if Succeeds(keys, h, op) || (op.Seal? && op.anchor.did == h.CurrentDid()) then None
    else before
  }

  /** The signature, if any, seals an earlier and shorter chain. */
  ghost predicate Stale(h: History) {
    h.signature == []
    || exists prior: History, key ::
         h.signature == SignatureText(key, prior.Digest()) && InMemory(prior) && |prior.rotations| < |h.rotations|
  }

  ghost predicate SealedState(h: History, seal: Option<Op>) {
    match seal
    case None => Stale(h)
    case Some(op) =>
      && op.Seal? && op.anchor.did == h.CurrentDid() && h.signature == SignatureText(op.anchor.key, h.Digest())
      && h.version == op.version && h.notAfter == op.notAfter
  }

  lemma LinkAppended(keys: KeyParser, root: Str, rs: seq<RotationStatement>, r: RotationStatement, i: nat)
    requires i < |rs|
    ensures LinkVerifies(keys, root, rs + [r], i) <==> LinkVerifies(keys, root, rs, i)
  {
  }

  lemma StepKeepsChain(keys: KeyParser, h: History, op: Op)
    requires h.ChainVerifies(keys)
    ensures Step(keys, h, op).ChainVerifies(keys) && Step(keys, h, op).rootDid == h.rootDid
  {
    if op.Push? && Succeeds(keys, h, op) {
      var rs := h.rotations + [op.statement];
      forall i | 0 <= i < |rs|
        ensures LinkVerifies(keys, h.rootDid, rs, i)
      {
        if i < |h.rotations| {
          LinkAppended(keys, h.rootDid, h.rotations, op.statement, i);
        }
      }
    }
  }

  lemma StepKeepsSealed(keys: KeyParser, h: History, op: Op, seal: Option<Op>)
    requires SealedState(h, seal) && InMemory(h)
    ensures SealedState(Step(keys, h, op), SealAfter(keys, h, op, seal))
  {
    if op.Push? && Succeeds(keys, h, op) {
      PushMakesStale(h, op.statement, seal);
    } else if op.Seal? && Succeeds(keys, h, op) {
      SealSeals(keys, h, op);
    }
  }

  lemma SealSeals(keys: KeyParser, h: History, op: Op)
    requires op.Seal? && Succeeds(keys, h, op)
    ensures SealedState(Step(keys, h, op), Some(op))
  {
    var h' := Step(keys, h, op);
    assert h'.Digest() == h'.(signature := []).Digest();
  }

  lemma PushMakesStale(h: History, statement: RotationStatement, seal: Option<Op>)
    requires SealedState(h, seal) && InMemory(h)
    ensures Stale(h.(rotations := h.rotations + [statement]))
  {
    var h' := h.(rotations := h.rotations + [statement]);
    assert |h'.rotations| == |h.rotations| + 1;
    if seal.Some? {
      assert h'.signature == SignatureText(seal.value.anchor.key, h.Digest());
    }
  }

  /** Every run keeps the chain linked and signed from its root, and its last seal. */
  lemma {:induction false} RunInvariant(keys: KeyParser, root: Str, ops: seq<Op>)
    requires |ops| < 0x1_0000_0000_0000_0000
    ensures var h := Run(keys, root, ops);
      && h.rootDid == root && h.ChainVerifies(keys)
      && |h.rotations| <= |ops| && |h.repudiated| <= |ops|
      && SealedState(h, LastSeal(keys, root, ops))
  {
    if ops != [] {
      var init, op := ops[..|ops| - 1], ops[|ops| - 1];
      RunInvariant(keys, root, init);
      StepKeepsChain(keys, Run(keys, root, init), op);
      StepKeepsSealed(keys, Run(keys, root, init), op, LastSeal(keys, root, init));
    }
  }

  /** The last change was a seal by an anchor whose identifier is parsed into its key. */
  predicate SealedLast(keys: KeyParser, root: Str, ops: seq<Op>) {
    var seal := LastSeal(keys, root, ops);
    seal.Some? && seal.value.Seal? && Certified(keys, seal.value.anchor)
  }

  /** The seal of a run verifies exactly when such a seal was the last change. */
  lemma SealVerifiesExactly(keys: KeyParser, root: Str, ops: seq<Op>)
    requires |ops| < 0x1_0000_0000_0000_0000
    ensures var h := Run(keys, root, ops);
      h.signature != [] && h.SealVerifies(keys) <==> SealedLast(keys, root, ops)
  {
    var h, seal := Run(keys, root, ops), LastSeal(keys, root, ops);
    RunInvariant(keys, root, ops);
    if seal.Some? {
      SealBinds(keys, h, h, seal.value.anchor.key);
    } else if h.signature != [] {
      var prior: History, key :|
        h.signature == SignatureText(key, prior.Digest()) && InMemory(prior) && |prior.rotations| < |h.rotations|;
      SealBinds(keys, prior, h, key);
    }
  }

  lemma HeldKeysParse(keys: KeyParser, h: History, did: Str)
    requires h.ChainVerifies(keys) && keys(h.CurrentDid()).Some? && did in h.Dids()
    ensures keys(did).Some?
  {
    var dids := h.Dids();
    var i :| 0 <= i < |dids| && dids[i] == did;
    if i < |h.rotations| {
      assert LinkVerifies(keys, h.rootDid, h.rotations, i);
    } else {
      assert did == h.CurrentDid();
    }
  }

  /** After any run a relying party that pins the root accepts exactly the active keys while
      the last change is a seal that has not expired, and nothing once any change came after it. */
  lemma AuthorizesExactly(keys: KeyParser, root: Str, ops: seq<Op>, issuer: Str, now: Instant)
    requires |ops| < 0x1_0000_0000_0000_0000
    ensures Authorizes(keys, Run(keys, root, ops), root, issuer, now)
            <==> SealedLast(keys, root, ops) && SealUnexpired(keys, root, ops, now)
                 && Run(keys, root, ops).Active(issuer)
  {
    var h := Run(keys, root, ops);
    RunInvariant(keys, root, ops);
    SealVerifiesExactly(keys, root, ops);
    if SealedLast(keys, root, ops) && h.Active(issuer) {
      HeldKeysParse(keys, h, issuer);
    }
  }

  /** The last seal of the run has not expired. */
  predicate SealUnexpired(keys: KeyParser, root: Str, ops: seq<Op>, now: Instant)
    requires SealedLast(keys, root, ops)
  {
    var notAfter := LastSeal(keys, root, ops).value.notAfter;
    notAfter.Some? ==> now <= notAfter.value
  }

  // -- The current key and repudiation ------------------------------------------------

  /** The last successful push of the run named a key that was repudiated at the time. */
  function Reinstated(keys: KeyParser, root: Str, ops: seq<Op>): bool {
    if ops == [] then false
    else
      var init, op := ops[..|ops| - 1], ops[|ops| - 1];
      var h := Run(keys, root, init);
      if op.Push? && Succeeds(keys, h, op) then op.statement.nextDid in h.repudiated
      else Reinstated(keys, root, init)
  }

  lemma CurrentRepudiatedStep(keys: KeyParser, h: History, op: Op)
    ensures var h' := Step(keys, h, op);
      h'.CurrentDid() in h'.repudiated
      <==> if op.Push? && Succeeds(keys, h, op) then op.statement.nextDid in h.repudiated
           else h.CurrentDid() in h.repudiated
  {
  }

  /** The current key of a run is repudiated exactly when the last rotation reinstated it:
      a push does not consult the repudiated keys. */
  lemma {:induction false} CurrentRepudiatedExactly(keys: KeyParser, root: Str, ops: seq<Op>)
    ensures Run(keys, root, ops).CurrentDid() in Run(keys, root, ops).repudiated <==> Reinstated(keys, root, ops)
  {
    if ops != [] {
      var init, op := ops[..|ops| - 1], ops[|ops| - 1];
      CurrentRepudiatedExactly(keys, root, init);
      CurrentRepudiatedStep(keys, Run(keys, root, init), op);
    }
  }

  lemma CurrentIsHeld(h: History)
    ensures h.Active(h.CurrentDid()) <==> h.CurrentDid() !in h.repudiated
  {
    assert h.CurrentDid() == h.Dids()[|h.rotations|];
  }

  /** So after an unexpired seal the current key itself is accepted exactly when the last
      rotation did not reinstate a repudiated key. */
  lemma CurrentKeyAccepted(keys: KeyParser, root: Str, ops: seq<Op>, now: Instant)
    requires |ops| < 0x1_0000_0000_0000_0000
    requires SealedLast(keys, root, ops) && SealUnexpired(keys, root, ops, now)
    ensures Authorizes(keys, Run(keys, root, ops), root, Run(keys, root, ops).CurrentDid(), now)
            <==> !Reinstated(keys, root, ops)
  {
    var h := Run(keys, root, ops);
    AuthorizesExactly(keys, root, ops, h.CurrentDid(), now);
    CurrentRepudiatedExactly(keys, root, ops);
    CurrentIsHeld(h);
  }

  lemma {:induction false} RepudiationStays(keys: KeyParser, root: Str, ops: seq<Op>, i: nat, did: Str)
    requires i < |ops| && ops[i] == Repudiate(did) && Succeeds(keys, Run(keys, root, ops[..i]), ops[i])
    ensures did in Run(keys, root, ops).repudiated
  {
    var init, op := ops[..|ops| - 1], ops[|ops| - 1];
    if i < |init| {
      assert init[..i] == ops[..i];
      RepudiationStays(keys, root, init, i, did);
    }
    StepKeepsRepudiated(keys, Run(keys, root, init), op, did);
  }

  lemma StepKeepsRepudiated(keys: KeyParser, h: History, op: Op, did: Str)
    requires did in h.repudiated || (op == Repudiate(did) && Succeeds(keys, h, op))
    ensures did in Step(keys, h, op).repudiated
  {
  }

  /** A repudiated key is never accepted again, whatever follows in the run. */
  lemma RepudiationIsPermanent(keys: KeyParser, root: Str, ops: seq<Op>, i: nat, did: Str, now: Instant)
    requires i < |ops| && ops[i] == Repudiate(did) && Succeeds(keys, Run(keys, root, ops[..i]), ops[i])
    ensures !Authorizes(keys, Run(keys, root, ops), root, did, now)
  {
    RepudiationStays(keys, root, ops, i, did);
  }

  lemma {:induction false} HeldStays(keys: KeyParser, root: Str, ops: seq<Op>, i: nat, did: Str)
    requires i <= |ops| && did in Run(keys, root, ops[..i]).Dids()
    ensures did in Run(keys, root, ops).Dids()
    decreases |ops|
  {
    if i == |ops| {
      assert ops[..i] == ops;
    } else {
      var init := ops[..|ops| - 1];
      assert init[..i] == ops[..i];
      HeldStays(keys, root, init, i, did);
      StepKeepsHeld(keys, Run(keys, root, init), ops[|ops| - 1], did);
    }
  }

  /** A superseded key is still accepted after any later seal, as long as it was never
      repudiated: planned rotation does not invalidate what it signed. */
  lemma SupersededStaysAccepted(keys: KeyParser, root: Str, ops: seq<Op>, i: nat, did: Str, now: Instant)
    requires i <= |ops| < 0x1_0000_0000_0000_0000 && did in Run(keys, root, ops[..i]).Dids()
    requires SealedLast(keys, root, ops) && SealUnexpired(keys, root, ops, now)
    requires did !in Run(keys, root, ops).repudiated
    ensures Authorizes(keys, Run(keys, root, ops), root, did, now)
  {
    HeldStays(keys, root, ops, i, did);
    AuthorizesExactly(keys, root, ops, did, now);
  }

  /** Only held keys are ever repudiated. */
  lemma {:induction false} RepudiatedAreHeld(keys: KeyParser, root: Str, ops: seq<Op>, did: Str)
    requires did in Run(keys, root, ops).repudiated
    ensures did in Run(keys, root, ops).Dids()
  {
    var init, op := ops[..|ops| - 1], ops[|ops| - 1];
    var h := Run(keys, root, init);
    if did in h.repudiated {
      RepudiatedAreHeld(keys, root, init, did);
    }
    StepKeepsHeld(keys, h, op, did);
  }

  lemma StepKeepsHeld(keys: KeyParser, h: History, op: Op, did: Str)
    requires did in h.Dids()
    ensures did in Step(keys, h, op).Dids()
  {
    var before, after := h.Dids(), Step(keys, h, op).Dids();
    var i :| 0 <= i < |before| && before[i] == did;
    assert after[i] == did;
  }

  /** The run's operation `i` succeeded. */
  predicate SucceedsAt(keys: KeyParser, root: Str, ops: seq<Op>, i: nat)
    requires i < |ops|
  {
    Succeeds(keys, Run(keys, root, ops[..i]), ops[i])
  }

  /** The run holds a key exactly when it is the root or a successful push named it. */
  ghost predicate Pushed(keys: KeyParser, root: Str, ops: seq<Op>, did: Str) {
    exists i | 0 <= i < |ops| :: ops[i].Push? && ops[i].statement.nextDid == did && SucceedsAt(keys, root, ops, i)
  }

  ghost predicate RepudiatedIn(keys: KeyParser, root: Str, ops: seq<Op>, did: Str) {
    exists i | 0 <= i < |ops| :: ops[i] == Repudiate(did) && SucceedsAt(keys, root, ops, i)
  }

  lemma SucceedsBefore(keys: KeyParser, root: Str, ops: seq<Op>, i: nat)
    requires i < |ops| - 1
    ensures SucceedsAt(keys, root, ops, i) == SucceedsAt(keys, root, ops[..|ops| - 1], i)
  {
    assert ops[..|ops| - 1][..i] == ops[..i];
  }

  lemma PushedStep(keys: KeyParser, root: Str, ops: seq<Op>, did: Str)
    requires ops != []
    ensures var init, op := ops[..|ops| - 1], ops[|ops| - 1];
      Pushed(keys, root, ops, did)
      <==> Pushed(keys, root, init, did)
           || (op.Push? && op.statement.nextDid == did && Succeeds(keys, Run(keys, root, init), op))
  {
    forall i | 0 <= i < |ops| - 1
      ensures SucceedsAt(keys, root, ops, i) == SucceedsAt(keys, root, ops[..|ops| - 1], i)
    {
      SucceedsBefore(keys, root, ops, i);
    }
    assert SucceedsAt(keys, root, ops, |ops| - 1)
        == Succeeds(keys, Run(keys, root, ops[..|ops| - 1]), ops[|ops| - 1]);
  }

  lemma RepudiatedStep(keys: KeyParser, root: Str, ops: seq<Op>, did: Str)
    requires ops != []
    ensures var init, op := ops[..|ops| - 1], ops[|ops| - 1];
      RepudiatedIn(keys, root, ops, did)
      <==> RepudiatedIn(keys, root, init, did)
           || (op == Repudiate(did) && Succeeds(keys, Run(keys, root, init), op))
  {
    forall i | 0 <= i < |ops| - 1
      ensures SucceedsAt(keys, root, ops, i) == SucceedsAt(keys, root, ops[..|ops| - 1], i)
    {
      SucceedsBefore(keys, root, ops, i);
    }
    assert SucceedsAt(keys, root, ops, |ops| - 1)
        == Succeeds(keys, Run(keys, root, ops[..|ops| - 1]), ops[|ops| - 1]);
  }

  lemma HeldAfter(keys: KeyParser, h: History, op: Op, did: Str)
    ensures did in Step(keys, h, op).Dids()
            <==> did in h.Dids() || (op.Push? && op.statement.nextDid == did && Succeeds(keys, h, op))
  {
    if op.Push? && Succeeds(keys, h, op) {
      assert Step(keys, h, op).Dids() == h.Dids() + [op.statement.nextDid];
    }
  }

  lemma {:induction false} HeldExactly(keys: KeyParser, root: Str, ops: seq<Op>, did: Str)
    ensures did in Run(keys, root, ops).Dids() <==> did == root || Pushed(keys, root, ops, did)
  {
    if ops == [] {
      assert Genesis(root).Dids() == [root];
    } else {
      var init, op := ops[..|ops| - 1], ops[|ops| - 1];
      HeldExactly(keys, root, init, did);
      HeldAfter(keys, Run(keys, root, init), op, did);
      PushedStep(keys, root, ops, did);
    }
  }

  /** Every repudiated key is recorded, once. */
  lemma {:induction false} RepudiatedExactly(keys: KeyParser, root: Str, ops: seq<Op>, did: Str)
    ensures did in Run(keys, root, ops).repudiated <==> RepudiatedIn(keys, root, ops, did)
    ensures forall i, j | 0 <= i < j < |Run(keys, root, ops).repudiated| ::
              Run(keys, root, ops).repudiated[i] != Run(keys, root, ops).repudiated[j]
  {
    if ops != [] {
      RepudiatedExactly(keys, root, ops[..|ops| - 1], did);
      RepudiatedStep(keys, root, ops, did);
    }
  }

  /** So, in terms of the run alone: after it a relying party that pins the root accepts exactly
      the root and the keys that a successful push named, but those that were repudiated, while
      the last change is a seal that has not expired. */
  lemma AcceptedExactly(keys: KeyParser, root: Str, ops: seq<Op>, issuer: Str, now: Instant)
    requires |ops| < 0x1_0000_0000_0000_0000
    ensures Authorizes(keys, Run(keys, root, ops), root, issuer, now)
            <==> && SealedLast(keys, root, ops) && SealUnexpired(keys, root, ops, now)
                 && (issuer == root || Pushed(keys, root, ops, issuer)) && !RepudiatedIn(keys, root, ops, issuer)
  {
    AuthorizesExactly(keys, root, ops, issuer, now);
    HeldExactly(keys, root, ops, issuer);
    RepudiatedExactly(keys, root, ops, issuer);
  }

  /** Every successful rotation of the run is to a key never held before. */
  predicate FreshSuccessors(keys: KeyParser, root: Str, ops: seq<Op>) {
    ops == []
    || var init, op := ops[..|ops| - 1], ops[|ops| - 1];
       && FreshSuccessors(keys, root, init)
       && (op.Push? && Succeeds(keys, Run(keys, root, init), op)
           ==> op.statement.nextDid !in Run(keys, root, init).Dids())
  }

  /** With fresh successors no rotation reinstates a key. */
  lemma {:induction false} FreshSuccessorsNeverReinstate(keys: KeyParser, root: Str, ops: seq<Op>)
    requires FreshSuccessors(keys, root, ops)
    ensures !Reinstated(keys, root, ops)
  {
    if ops != [] {
      var init, op := ops[..|ops| - 1], ops[|ops| - 1];
      FreshSuccessorsNeverReinstate(keys, root, init);
      if op.Push? && op.statement.nextDid in Run(keys, root, init).repudiated {
        RepudiatedAreHeld(keys, root, init, op.statement.nextDid);
      }
    }
  }

  /** With fresh successors, then, the current key is accepted after every seal that its own
      anchor made and that has not expired. */
  lemma FreshCurrentKeyAccepted(keys: KeyParser, root: Str, ops: seq<Op>, now: Instant)
    requires |ops| < 0x1_0000_0000_0000_0000 && FreshSuccessors(keys, root, ops)
    requires SealedLast(keys, root, ops) && SealUnexpired(keys, root, ops, now)
    ensures Authorizes(keys, Run(keys, root, ops), root, Run(keys, root, ops).CurrentDid(), now)
  {
    FreshSuccessorsNeverReinstate(keys, root, ops);
    CurrentKeyAccepted(keys, root, ops, now);
  }

  /** A statement that rotates `a` to `b`, signed by `a`. */
  function Endorse(a: TrustAnchor, b: TrustAnchor, at: Instant): RotationStatement {
    var unsigned := RotationStatement(a.did, b.did, at, []);
    unsigned.(signature := SignatureText(a.key, unsigned.Payload()))
  }

  lemma EndorseVerifies(keys: KeyParser, a: TrustAnchor, b: TrustAnchor, at: Instant)
    requires Certified(keys, a)
    ensures Endorse(a, b, at).Verify(keys)
  {
    var unsigned := RotationStatement(a.did, b.did, at, []);
    assert Endorse(a, b, at).Payload() == unsigned.Payload();
  }

  lemma RunSnoc(keys: KeyParser, root: Str, ops: seq<Op>, op: Op)
    ensures Run(keys, root, ops + [op]) == Step(keys, Run(keys, root, ops), op)
  {
    assert (ops + [op])[..|ops|] == ops;
  }

  lemma LastSealSnoc(keys: KeyParser, root: Str, ops: seq<Op>, op: Op)
    requires op.Seal? && Succeeds(keys, Run(keys, root, ops), op)
    ensures LastSeal(keys, root, ops + [op]) == Some(op)
  {
    assert (ops + [op])[..|ops|] == ops;
  }

  /** The run that rotates from `a` to `b`, repudiates `a` and rotates back. */
  function ThereAndBack(a: TrustAnchor, b: TrustAnchor, at: Instant): seq<Op> {
    [Push(Endorse(a, b, at))] + [Repudiate(a.did)] + [Push(Endorse(b, a, at))]
  }

  lemma ThereAndBackSucceeds(keys: KeyParser, a: TrustAnchor, b: TrustAnchor, at: Instant)
    requires Certified(keys, a) && Certified(keys, b) && a.did != b.did
    ensures var ops, h := ThereAndBack(a, b, at), Run(keys, a.did, ThereAndBack(a, b, at));
      && Succeeds(keys, Genesis(a.did), ops[0])
      && Succeeds(keys, Step(keys, Genesis(a.did), ops[0]), ops[1])
      && Succeeds(keys, Step(keys, Step(keys, Genesis(a.did), ops[0]), ops[1]), ops[2])
      && h == Step(keys, Step(keys, Step(keys, Genesis(a.did), ops[0]), ops[1]), ops[2])
      && h.CurrentDid() == a.did && a.did in h.repudiated
  {
    EndorseVerifies(keys, a, b, at);
    EndorseVerifies(keys, b, a, at);
    var x, y, z := Push(Endorse(a, b, at)), Repudiate(a.did), Push(Endorse(b, a, at));
    RunSnoc(keys, a.did, [], x);
    assert [] + [x] == [x];
    RunSnoc(keys, a.did, [x], y);
    RunSnoc(keys, a.did, [x] + [y], z);
    var h1 := Step(keys, Genesis(a.did), x);
    assert h1.Dids()[0] == a.did;
  }

  /** A run in which every operation succeeds and yet the sealed current key is refused. */
  lemma ReinstatedKeyIsRefused(keys: KeyParser, a: TrustAnchor, b: TrustAnchor, at: Instant, now: Instant)
    requires Certified(keys, a) && Certified(keys, b) && a.signs && a.did != b.did
    ensures var ops := ThereAndBack(a, b, at) + [Seal(a, 1, None)];
      && LastSeal(keys, a.did, ops) == Some(Seal(a, 1, None))
      && Run(keys, a.did, ops).CurrentDid() == a.did
      && !Authorizes(keys, Run(keys, a.did, ops), a.did, a.did, now)
  {
    ThereAndBackSucceeds(keys, a, b, at);
    RunSnoc(keys, a.did, ThereAndBack(a, b, at), Seal(a, 1, None));
    LastSealSnoc(keys, a.did, ThereAndBack(a, b, at), Seal(a, 1, None));
  }
}
