/** The revocation list: a packed bit array, first index in the most significant bit, that
    stands for a set of revoked indices; and the signed token it is published as.

    Compression, base64url and JSON are taken as lossless, so a token carries its claims and
    the raw bytes of the list, and a signature is the key and the claims it was made over. */
module Revocation {
  import opened Wrappers
  import opened Did
  import opened Transcript

  const DEFAULT_LIST_SIZE: u64 := 131_072

  // -- Packed bits ----------------------------------------------------------------------

  /** The bit of a byte that holds index `k` of its eight. */
  function Mask(k: nat): bv8
    requires k < 8
  {
    match k
    case 0 => 0x80
    case 1 => 0x40
    case 2 => 0x20
    case 3 => 0x10
    case 4 => 0x08
    case 5 => 0x04
    case 6 => 0x02
    case 7 => 0x01
  }

  predicate Holds(b: bv8, k: nat)
    requires k < 8
  {
    b & Mask(k) != 0
  }

  function Wrote(b: bv8, k: nat, on: bool): bv8
    requires k < 8
  {
    if on then b | Mask(k) else b & !Mask(k)
  }

  predicate BitAt(raw: seq<bv8>, i: nat)
    requires i < 8 * |raw|
  {
    Holds(raw[i / 8], i % 8)
  }

  function WithBit(raw: seq<bv8>, i: nat, on: bool): (r: seq<bv8>)
    requires i < 8 * |raw|
    ensures |r| == |raw|
  {
    raw[i / 8 := Wrote(raw[i / 8], i % 8, on)]
  }

  lemma EightBits(b: bv8)
    ensures b & 0x80 != 0 <==> (b >> 7) & 1 == 1
    ensures b & 0x40 != 0 <==> (b >> 6) & 1 == 1
    ensures b & 0x20 != 0 <==> (b >> 5) & 1 == 1
    ensures b & 0x10 != 0 <==> (b >> 4) & 1 == 1
    ensures b & 0x08 != 0 <==> (b >> 3) & 1 == 1
    ensures b & 0x04 != 0 <==> (b >> 2) & 1 == 1
    ensures b & 0x02 != 0 <==> (b >> 1) & 1 == 1
    ensures b & 0x01 != 0 <==> (b >> 0) & 1 == 1
  {
  }

  /** Index `k` of a byte is the bit that `7 - k` shifts bring to the end: the first index is the
      most significant bit. */
  lemma MostSignificantFirst(b: bv8, k: nat)
    requires k < 8
    ensures Holds(b, k) <==> (b >> (7 - k)) & 1 == 1
  {
    EightBits(b);
  }

  lemma MaskSets(b: bv8, j: nat, k: nat)
    requires j < 8 && k < 8
    ensures (b | Mask(j)) & Mask(k) != 0 <==> j == k || b & Mask(k) != 0
  {
    assert Mask(j) & Mask(k) == if j == k then Mask(k) else 0;
    assert Mask(k) != 0;
    assert (b | Mask(j)) & Mask(k) == (b & Mask(k)) | (Mask(j) & Mask(k));
  }

  lemma MaskClears(b: bv8, j: nat, k: nat)
    requires j < 8 && k < 8
    ensures (b & !Mask(j)) & Mask(k) != 0 <==> j != k && b & Mask(k) != 0
  {
    assert !Mask(j) & Mask(k) == if j == k then 0 else Mask(k);
    assert (b & !Mask(j)) & Mask(k) == b & (!Mask(j) & Mask(k));
  }

  lemma SplitIndex(i: nat, j: nat)
    ensures i == j <==> i / 8 == j / 8 && i % 8 == j % 8
  {
  }

  lemma ByteExact(b: bv8, j: nat, k: nat, on: bool)
    requires j < 8 && k < 8
    ensures Holds(Wrote(b, j, on), k) == if j == k then on else Holds(b, k)
  {
    MaskSets(b, j, k);
    MaskClears(b, j, k);
  }

  /** Writing a bit changes that bit and no other. */
  lemma WithBitExact(raw: seq<bv8>, i: nat, on: bool, j: nat)
    requires i < 8 * |raw| && j < 8 * |raw|
    ensures BitAt(WithBit(raw, i, on), j) == if i == j then on else BitAt(raw, j)
  {
    SplitIndex(i, j);
    if i / 8 == j / 8 {
      ByteExact(raw[i / 8], i % 8, j % 8, on);
    } else {
      assert WithBit(raw, i, on)[j / 8] == raw[j / 8];
    }
  }

  /** The indices whose bit is set, among the first `n`. */
  function SetBits(raw: seq<bv8>, n: nat): set<nat>
    requires n <= 8 * |raw|
  {
    set i | 0 <= i < n && BitAt(raw, i)
  }

  /** How many bits are set, among the first `n`. */
  function CountOnes(raw: seq<bv8>, n: nat): nat
    requires n <= 8 * |raw|
  {
    if n == 0 then 0 else CountOnes(raw, n - 1) + (if BitAt(raw, n - 1) then 1 else 0)
  }

  lemma SetBitsStep(raw: seq<bv8>, n: nat)
    requires 0 < n <= 8 * |raw|
    ensures SetBits(raw, n) == if BitAt(raw, n - 1) then SetBits(raw, n - 1) + {n - 1} else SetBits(raw, n - 1)
    ensures n - 1 !in SetBits(raw, n - 1)
  {
    forall i
      ensures i in SetBits(raw, n) <==> i in SetBits(raw, n - 1) || (i == n - 1 && BitAt(raw, n - 1))
    {
    }
  }

  lemma {:induction false} CountIsCardinality(raw: seq<bv8>, n: nat)
    requires n <= 8 * |raw|
    ensures CountOnes(raw, n) == |SetBits(raw, n)|
  {
    if n > 0 {
      CountIsCardinality(raw, n - 1);
      SetBitsStep(raw, n);
      assert |SetBits(raw, n)| == |SetBits(raw, n - 1)| + if BitAt(raw, n - 1) then 1 else 0;
    }
  }

  // -- The list -------------------------------------------------------------------------

  datatype Algorithm = EdDSA | ES256

  function AlgorithmFor(anchor: TrustAnchor): Algorithm {
    match anchor.key.algorithm
    case Ed25519 => EdDSA
    case P256 => ES256
  }

  /** What a token's signature covers. */
  datatype Claims = Claims(alg: Algorithm, issuer: Str, id: Str, issuedAt: i64, bits: byte, raw: seq<bv8>)

  datatype Jws = Jws(key: PublicKey, claims: Claims)

  datatype RevocationError = OutOfBounds | CannotSign | BadSignature

  /** A list as a value. */
  datatype List = List(
    id: Str,
    issuer: Str,
    alg: Algorithm,
    updated: Instant,
    size: u64,
    bits: byte,
    raw: seq<bv8>,
    signature: Option<Jws>)
  {
    function SigningInput(): Claims {
      Claims(alg, issuer, id, Seconds(updated), bits, raw)
    }

    function Signed(anchor: TrustAnchor): List {
      if anchor.signs then this.(signature := Some(Jws(anchor.key, SigningInput()))) else this
    }

    /** The bits are as many bytes as the size needs, and those past the size are clear. */
    ghost predicate Padded() {
      && bits == 1 && |raw| == (size + 7) / 8
      && forall i | size <= i < 8 * |raw| :: !BitAt(raw, i)
    }

    predicate InBounds(index: u64) {
      index < size && index < 8 * |raw|
    }

    /** The indices it revokes. */
    function Revoked(): set<nat> {
      SetBits(raw, 8 * |raw|)
    }

    function IsRevoked(index: u64): Result<bool, RevocationError> {
      if index >= size then Err(OutOfBounds)
      else if index >= 8 * |raw| then Ok(false)
      else Ok(BitAt(raw, index))
    }

    function VerifiesUnder(anchor: TrustAnchor): bool {
      signature == Some(Jws(anchor.key, SigningInput()))
    }
  }

  /** So the answer for an index is that bit of its byte. */
  lemma IsRevokedExactly(l: List, index: u64)
    requires l.Padded()
    ensures l.IsRevoked(index)
         == if index < l.size then Ok((l.raw[index / 8] >> (7 - index % 8)) & 1 == 1) else Err(OutOfBounds)
  {
    if index < l.size {
      MostSignificantFirst(l.raw[index / 8], index % 8);
    }
  }

  function Fresh(id: Str, anchor: TrustAnchor, size: u64, now: Instant): List {
    List(id, anchor.did, AlgorithmFor(anchor), now, size, 1, seq((size + 7) / 8, _ => 0), None)
  }

  datatype Op = Revoke(index: u64) | Unrevoke(index: u64) | Resign

  /** The list after `op`; when the anchor cannot sign, the change stands unsigned. */
  function Step(l: List, op: Op, anchor: TrustAnchor, now: Instant): List {
    match op
    case Revoke(index) =>
      if l.InBounds(index) then l.(raw := WithBit(l.raw, index, true), updated := now).Signed(anchor) else l
    case Unrevoke(index) =>
      if l.InBounds(index) then l.(raw := WithBit(l.raw, index, false), updated := now).Signed(anchor) else l
    case Resign => l.(updated := now).Signed(anchor)
  }

  /** The set of indices after `op`. */
  function StepSet(s: set<nat>, op: Op, size: u64): set<nat> {
    match op
    case Revoke(index) => if index < size then s + {index} else s
    case Unrevoke(index) => if index < size then s - {index} else s
    case Resign => s
  }

  datatype Action = Action(op: Op, anchor: TrustAnchor, now: Instant)

  function Run(l: List, actions: seq<Action>): List {
    if actions == [] then l
    else
      var last := actions[|actions| - 1];
      Step(Run(l, actions[..|actions| - 1]), last.op, last.anchor, last.now)
  }

  function RunSet(s: set<nat>, actions: seq<Action>, size: u64): set<nat> {
    if actions == [] then s
    else StepSet(RunSet(s, actions[..|actions| - 1], size), actions[|actions| - 1].op, size)
  }

  lemma StepRefines(l: List, op: Op, anchor: TrustAnchor, now: Instant)
    requires l.Padded()
    ensures var after := Step(l, op, anchor, now);
      after.Padded() && after.size == l.size && after.Revoked() == StepSet(l.Revoked(), op, l.size)
  {
    if !op.Resign? && op.index < l.size {
      forall j | 0 <= j < 8 * |l.raw|
        ensures BitAt(WithBit(l.raw, op.index, op.Revoke?), j) == if op.index == j then op.Revoke? else BitAt(l.raw, j)
      {
        WithBitExact(l.raw, op.index, op.Revoke?, j);
      }
    }
  }

  lemma FreshIsEmpty(id: Str, anchor: TrustAnchor, size: u64, now: Instant)
    ensures Fresh(id, anchor, size, now).Padded() && Fresh(id, anchor, size, now).Revoked() == {}
  {
    forall k | 0 <= k < 8
      ensures 0 & Mask(k) == 0
    {
    }
  }

  /** Under any run the packed bits stand for the set of indices revoked and not restored;
      padding stays clear, so the count of bits is the size of that set. */
  lemma {:induction false} RunRefines(l: List, actions: seq<Action>)
    requires l.Padded()
    ensures var after := Run(l, actions);
      && after.Padded() && after.size == l.size
      && after.Revoked() == RunSet(l.Revoked(), actions, l.size)
      && CountOnes(after.raw, 8 * |after.raw|) == |RunSet(l.Revoked(), actions, l.size)|
      && (forall i: u64 :: after.IsRevoked(i)
                           == if i >= l.size then Err(OutOfBounds) else Ok(i in RunSet(l.Revoked(), actions, l.size)))
  {
    if actions != [] {
      var init, last := actions[..|actions| - 1], actions[|actions| - 1];
      RunRefines(l, init);
      StepRefines(Run(l, init), last.op, last.anchor, last.now);
    }
    var after := Run(l, actions);
    CountIsCardinality(after.raw, 8 * |after.raw|);
  }

  // -- The signature --------------------------------------------------------------------

  predicate Applies(l: List, op: Op) {
    op.Resign? || l.InBounds(op.index)
  }

  /** A change by an anchor that signs leaves a list that verifies under that anchor, at the
      time of the change, with the bit it wrote. */
  lemma SignedChangeVerifies(l: List, op: Op, anchor: TrustAnchor, now: Instant)
    requires Applies(l, op) && anchor.signs
    ensures var after := Step(l, op, anchor, now);
      && after.VerifiesUnder(anchor) && after.updated == now
      && (op.Revoke? ==> after.IsRevoked(op.index) == Ok(true))
      && (op.Unrevoke? ==> after.IsRevoked(op.index) == Ok(false))
  {
    if !op.Resign? {
      WithBitExact(l.raw, op.index, op.Revoke?, op.index);
    }
  }

  /** The change of an anchor that cannot sign stands all the same, under the signature that was
      there, which then verifies only for what it was made over. */
  lemma UnsignedChangeStands(l: List, op: Op, anchor: TrustAnchor, now: Instant, other: TrustAnchor)
    requires Applies(l, op) && !anchor.signs
    ensures var after := Step(l, op, anchor, now);
      && after.updated == now && after.signature == l.signature
      && (op.Revoke? ==> after.IsRevoked(op.index) == Ok(true))
      && (op.Unrevoke? ==> after.IsRevoked(op.index) == Ok(false))
      && (l.VerifiesUnder(other) ==> (after.VerifiesUnder(other) <==> after.SigningInput() == l.SigningInput()))
  {
    if !op.Resign? {
      WithBitExact(l.raw, op.index, op.Revoke?, op.index);
    }
  }

  /** Action `i` of a run changes the list and signs it. */
  predicate SignsAt(l: List, actions: seq<Action>, i: nat)
    requires i < |actions|
  {
    Applies(Run(l, actions[..i]), actions[i].op) && actions[i].anchor.signs
  }

  /** The list as the last of the first `n` actions that signed it left it, or as it began. */
  ghost predicate SignedLastAt(l: List, actions: seq<Action>, n: nat)
    requires n <= |actions|
  {
    && (n > 0 ==> SignsAt(l, actions, n - 1))
    && forall i | n <= i < |actions| :: !SignsAt(l, actions, i)
  }

  lemma {:induction false} LastSigned(l: List, actions: seq<Action>) returns (n: nat)
    ensures n <= |actions| && SignedLastAt(l, actions, n)
    decreases |actions|
  {
    n := |actions|;
    if n > 0 && !SignsAt(l, actions, n - 1) {
      var init := actions[..n - 1];
      var m := LastSigned(l, init);
      forall i | 0 <= i < |init|
        ensures SignsAt(l, actions, i) == SignsAt(l, init, i)
      {
        assert init[..i] == actions[..i];
      }
      n := m;
    }
  }

  lemma {:induction false} SignatureSince(l: List, actions: seq<Action>, n: nat)
    requires n <= |actions| && forall i | n <= i < |actions| :: !SignsAt(l, actions, i)
    ensures Run(l, actions).signature == Run(l, actions[..n]).signature
    decreases |actions|
  {
    if n < |actions| {
      var init := actions[..|actions| - 1];
      forall i | n <= i < |init|
        ensures !SignsAt(l, init, i)
      {
        assert init[..i] == actions[..i] && !SignsAt(l, actions, i);
      }
      SignatureSince(l, init, n);
      assert init[..n] == actions[..n];
      assert !SignsAt(l, actions, |actions| - 1);
    } else {
      assert actions[..n] == actions;
    }
  }

  /** Over every run, failing operations included, the list verifies under an anchor exactly when
      the last action that signed it was by that anchor's key and nothing the signature covers was
      changed since; and if no action signed it, when what it claims is what the signature it
      began with was made over. */
  lemma VerifiesExactly(l: List, actions: seq<Action>, anchor: TrustAnchor) returns (n: nat)
    ensures n <= |actions| && SignedLastAt(l, actions, n)
    ensures n > 0 ==>
              (Run(l, actions).VerifiesUnder(anchor)
               <==> && Run(l, actions).SigningInput() == Run(l, actions[..n]).SigningInput()
                    && actions[n - 1].anchor.key == anchor.key)
    ensures n == 0 ==>
              (Run(l, actions).VerifiesUnder(anchor)
               <==> l.signature == Some(Jws(anchor.key, Run(l, actions).SigningInput())))
  {
    n := LastSigned(l, actions);
    SignatureSince(l, actions, n);
    if n > 0 {
      assert actions[..n][..n - 1] == actions[..n - 1] && actions[..n][n - 1] == actions[n - 1];
      SignedChangeVerifies(Run(l, actions[..n - 1]), actions[n - 1].op, actions[n - 1].anchor, actions[n - 1].now);
    }
  }

  // -- The token ------------------------------------------------------------------------

  datatype Token = Token(claims: Claims, signature: Option<Jws>)

  function ToToken(l: List): Token {
    Token(l.SigningInput(), l.signature)
  }

  /** As many entries as the bytes hold, as far as they can be counted. */
  function Capacity(bytes: nat, bits: byte): u64 {
    var all := if 8 * bytes < 0x1_0000_0000_0000_0000 then 8 * bytes else 0xffff_ffff_ffff_ffff;
    if bits == 0 then all else all / bits
  }

  /** A token without a signature is refused. */
  function FromToken(t: Token): Result<List, RevocationError> {
    if t.signature.None? then Err(BadSignature)
    else
      Ok(List(t.claims.id, t.claims.issuer, t.claims.alg, t.claims.issuedAt * 1_000_000_000,
              Capacity(|t.claims.raw|, t.claims.bits), t.claims.bits, t.claims.raw, t.signature))
  }

  /** A published token parses exactly when the list is signed, and then keeps every answer below
      the original size and the signature's verdict; the capacity rounds up to a whole byte, and
      the entries it gains are not revoked. */
  lemma TokenKeepsAnswers(l: List, anchor: TrustAnchor)
    requires l.Padded() && l.size <= 0xffff_ffff_ffff_fff8
    ensures FromToken(ToToken(l)).Ok? <==> l.signature.Some?
    ensures FromToken(ToToken(l)).Ok? ==>
      var parsed := FromToken(ToToken(l)).value;
      && parsed.Padded() && parsed.size == 8 * ((l.size + 7) / 8) && parsed.Revoked() == l.Revoked()
      && parsed.VerifiesUnder(anchor) == l.VerifiesUnder(anchor)
      && (forall i: u64 | i < l.size :: parsed.IsRevoked(i) == l.IsRevoked(i))
      && (forall i: u64 | l.size <= i < parsed.size :: parsed.IsRevoked(i) == Ok(false))
  {
  }

  /** A list is accepted under an anchor's signature of `signed` exactly when it makes the same
      claims, so no bit can be flipped and no stale list be made to look newer. */
  lemma TokenIsTamperEvident(signed: List, l: List, anchor: TrustAnchor)
    requires l.signature == Some(Jws(anchor.key, signed.SigningInput()))
    ensures l.VerifiesUnder(anchor)
            <==> (&& l.id == signed.id && l.issuer == signed.issuer && l.alg == signed.alg && l.bits == signed.bits
                  && Seconds(l.updated) == Seconds(signed.updated) && l.raw == signed.raw)
  {
  }

  // -- The list under construction ------------------------------------------------------

  class RevocationList {
    const id: Str
    const issuer: Str
    const alg: Algorithm
    const size: u64
    const bits: byte
    var updated: Instant
    var raw: seq<bv8>
    var signature: Option<Jws>

    function View(): List
      reads this
    {
      List(id, issuer, alg, updated, size, bits, raw, signature)
    }

    constructor (l: List)
      ensures View() == l
    {
      id, issuer, alg, size, bits := l.id, l.issuer, l.alg, l.size, l.bits;
      updated, raw, signature := l.updated, l.raw, l.signature;
    }

    method SignNow(anchor: TrustAnchor) returns (r: Result<(), RevocationError>)
      modifies this`signature
      ensures View() == old(View()).Signed(anchor)
      ensures r == if anchor.signs then Ok(()) else Err(CannotSign)
    {
      if !anchor.signs {
        return Err(CannotSign);
      }
      signature := Some(Jws(anchor.key, View().SigningInput()));
      r := Ok(());
    }

    method RevokeAt(index: u64, anchor: TrustAnchor, now: Instant) returns (r: Result<(), RevocationError>)
      modifies this
      ensures View() == Step(old(View()), Revoke(index), anchor, now)
      ensures r == if !old(View()).InBounds(index) then Err(OutOfBounds)
                   else if anchor.signs then Ok(()) else Err(CannotSign)
      ensures r.Ok? ==> View().VerifiesUnder(anchor) && updated == now && View().IsRevoked(index) == Ok(true)
    {
      if View().InBounds(index) && anchor.signs {
        SignedChangeVerifies(View(), Revoke(index), anchor, now);
      }
      r := Write(index, true, anchor, now);
    }

    method UnrevokeAt(index: u64, anchor: TrustAnchor, now: Instant) returns (r: Result<(), RevocationError>)
      modifies this
      ensures View() == Step(old(View()), Unrevoke(index), anchor, now)
      ensures r == if !old(View()).InBounds(index) then Err(OutOfBounds)
                   else if anchor.signs then Ok(()) else Err(CannotSign)
      ensures r.Ok? ==> View().VerifiesUnder(anchor) && updated == now && View().IsRevoked(index) == Ok(false)
    {
      if View().InBounds(index) && anchor.signs {
        SignedChangeVerifies(View(), Unrevoke(index), anchor, now);
      }
      r := Write(index, false, anchor, now);
    }

    method Write(index: u64, on: bool, anchor: TrustAnchor, now: Instant) returns (r: Result<(), RevocationError>)
      modifies this
      ensures View() == Step(old(View()), if on then Revoke(index) else Unrevoke(index), anchor, now)
      ensures r == if !old(View()).InBounds(index) then Err(OutOfBounds)
                   else if anchor.signs then Ok(()) else Err(CannotSign)
    {
      if index >= size || index >= 8 * |raw| {
        return Err(OutOfBounds);
      }
      raw := WithBit(raw, index, on);
      updated := now;
      r := SignNow(anchor);
    }

    method ResignAt(anchor: TrustAnchor, now: Instant) returns (r: Result<(), RevocationError>)
      modifies this
      ensures View() == Step(old(View()), Resign, anchor, now)
      ensures r == if anchor.signs then Ok(()) else Err(CannotSign)
      ensures r.Ok? ==> View().VerifiesUnder(anchor) && updated == now && raw == old(raw)
    {
      updated := now;
      r := SignNow(anchor);
    }
  }

  /** A new list, of the default size unless one is given. */
  method NewList(id: Str, anchor: TrustAnchor, entries: Option<u64>, now: Instant)
    returns (r: Result<RevocationList, RevocationError>)
    ensures r.Ok? <==> anchor.signs
    ensures r.Ok? ==> fresh(r.value)
    ensures r.Ok? ==>
              var size := if entries.Some? then entries.value else DEFAULT_LIST_SIZE;
              r.value.View() == Fresh(id, anchor, size, now).Signed(anchor)
    ensures r.Ok? ==>
              var l := r.value.View();
              && l.id == id && l.issuer == anchor.did && l.updated == now && l.bits == 1
              && (l.alg == EdDSA <==> anchor.key.algorithm == Ed25519)
              && l.VerifiesUnder(anchor) && l.Revoked() == {}
  {
    var size := if entries.Some? then entries.value else DEFAULT_LIST_SIZE;
    FreshIsEmpty(id, anchor, size, now);
    var list := new RevocationList(Fresh(id, anchor, size, now));
    var signed := list.SignNow(anchor);
    match signed
    case Err(e) => r := Err(e);
    case Ok(_) => r := Ok(list);
  }
}
