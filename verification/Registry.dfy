/** The trust registry: a map from identifiers to trusted entries, filled by registration and
    by resolution, exported as a signed configuration and loaded back from one. */
module Registry {
  import opened Wrappers
  import opened Sorting
  import opened Base58
  import opened Did
  import opened Transcript
  import opened Signed
  import Rotation

  datatype TrustLevel = Unverified | SelfAsserted | Verified | Authoritative

  function Rank(l: TrustLevel): byte {
    match l
    case Unverified => 0
    case SelfAsserted => 1
    case Verified => 2
    case Authoritative => 3
  }

  /** Whether a level is at least the minimum. */
  predicate Meets(l: TrustLevel, minimum: TrustLevel) {
    match minimum
    case Unverified => true
    case SelfAsserted => l.SelfAsserted? || l.Verified? || l.Authoritative?
    case Verified => l.Verified? || l.Authoritative?
    case Authoritative => l.Authoritative?
  }

  /** The levels ascend from unverified to authoritative. */
  lemma LevelsAscend(l: TrustLevel, minimum: TrustLevel)
    ensures Rank(Unverified) < Rank(SelfAsserted) < Rank(Verified) < Rank(Authoritative)
    ensures Rank(l) >= Rank(minimum) <==> Meets(l, minimum)
  {
  }

  datatype TrustEntry = TrustEntry(
    did: Str,
    orgName: Str,
    publicKey: PublicKey,
    didMethod: Str,
    trustLevel: TrustLevel,
    registeredAt: Instant,
    revocationEndpoint: Option<Str>,
    keyHistoryUrl: Option<Str>)

  /** How a key is written as multibase text. */
  type Multibase = PublicKey -> Str

  datatype SignedTrustConfig = SignedTrustConfig(
    version: u64,
    generatedAt: Instant,
    issuerDid: Str,
    minimumTrustLevel: TrustLevel,
    entries: seq<TrustEntry>,
    notAfter: Option<Instant>,
    signature: Text)
  {
    function Preimage(multibase: Multibase): seq<Symbol> {
      Domain("agentcreds-trust-config-v1")
      + (Le64(version)
      + (Le64(Seconds(generatedAt))
      + (StrField(issuerDid)
      + ([Byte(Rank(minimumTrustLevel))]
      + (OptTime(OptSeconds(notAfter))
      + (Le64(|entries|)
      + Listing(entries, (e: TrustEntry) => EntryText(multibase, e))))))))
    }

    /** The entries and their keys fit in memory. */
    predicate Fits() {
      |entries| < 0x1_0000_0000_0000_0000 && KeysFit(entries)
    }

    function Digest(multibase: Multibase): Hash {
      Sha256(Preimage(multibase))
    }

    function VerifyCurrent(multibase: Multibase, anchor: TrustAnchor, now: Instant): Result<(), SignedError> {
      VerifyAnchorSigned(issuerDid, Digest(multibase), signature, notAfter, now, anchor)
    }
  }

  /** The URL of the entry's key history is not part of the signed artifact. */
  function EntryText(multibase: Multibase, e: TrustEntry): seq<Symbol> {
    StrField(e.did)
    + (StrField(e.orgName)
    + (StrField(multibase(e.publicKey))
    + (StrField(e.didMethod)
    + ([Byte(Rank(e.trustLevel))]
    + (Le64(Seconds(e.registeredAt))
    + StrField(OrEmpty(e.revocationEndpoint)))))))
  }

  // -- The configuration's transcript ---------------------------------------------------

  predicate SameEntry(a: TrustEntry, b: TrustEntry) {
    && a.did == b.did && a.orgName == b.orgName && a.publicKey == b.publicKey && a.didMethod == b.didMethod
    && a.trustLevel == b.trustLevel && Seconds(a.registeredAt) == Seconds(b.registeredAt)
    && OrEmpty(a.revocationEndpoint) == OrEmpty(b.revocationEndpoint)
  }

  predicate SameConfig(a: SignedTrustConfig, b: SignedTrustConfig) {
    && a.version == b.version && Seconds(a.generatedAt) == Seconds(b.generatedAt) && a.issuerDid == b.issuerDid
    && a.minimumTrustLevel == b.minimumTrustLevel && OptSeconds(a.notAfter) == OptSeconds(b.notAfter)
    && AllSame(a.entries, b.entries, SameEntry)
  }

  /** A key whose text fits a machine word; every key in memory does. */
  predicate KeyFits(key: PublicKey) {
    |key.bytes| < 0x4000_0000_0000_0000
  }

  predicate KeysFit(entries: seq<TrustEntry>) {
    forall e | e in entries :: KeyFits(e.publicKey)
  }

  /** It writes the multibase text of every such key. */
  ghost predicate WritesMultibase(multibase: Multibase) {
    forall key | KeyFits(key) :: Characters(multibase(key)) == MultibaseText(key)
  }

  ghost function MultibaseBytes(key: PublicKey): Str {
    EncodedIsShort(Prefix(key.algorithm) + key.bytes);
    if KeyFits(key) then Ascii(MultibaseText(key)) else []
  }

  /** The encoder of the keys is such a writer. */
  lemma EncoderWritesMultibase()
    ensures WritesMultibase(MultibaseBytes)
  {
    forall key: PublicKey | KeyFits(key)
      ensures Characters(MultibaseBytes(key)) == MultibaseText(key)
    {
      EncodedIsAscii(Prefix(key.algorithm) + key.bytes);
      AsciiIsRead(MultibaseText(key));
    }
  }

  lemma AsciiIsRead(s: string)
    requires forall c | c in s :: c as int < 128
    ensures Characters(Ascii(s)) == s
  {
    forall i | 0 <= i < |s|
      ensures Characters(Ascii(s))[i] == s[i]
    {
      assert s[i] in s;
    }
  }

  lemma MultibaseTellsKeysApart(multibase: Multibase, a: PublicKey, b: PublicKey)
    requires WritesMultibase(multibase) && KeyFits(a) && KeyFits(b) && multibase(a) == multibase(b)
    ensures a == b
  {
    MultibaseInjective(a, b);
  }

  lemma EntryTextPrefix(multibase: Multibase, x: TrustEntry, y: TrustEntry, r: seq<Symbol>, s: seq<Symbol>)
    requires WritesMultibase(multibase) && KeyFits(x.publicKey) && KeyFits(y.publicKey)
    requires EntryText(multibase, x) + r == EntryText(multibase, y) + s
    ensures SameEntry(x, y) && r == s
  {
    var x6, y6 := StrField(OrEmpty(x.revocationEndpoint)) + r, StrField(OrEmpty(y.revocationEndpoint)) + s;
    var x5, y5 := Le64(Seconds(x.registeredAt)) + x6, Le64(Seconds(y.registeredAt)) + y6;
    var x4, y4 := [Byte(Rank(x.trustLevel))] + x5, [Byte(Rank(y.trustLevel))] + y5;
    var x3, y3 := StrField(x.didMethod) + x4, StrField(y.didMethod) + y4;
    var x2, y2 := StrField(multibase(x.publicKey)) + x3, StrField(multibase(y.publicKey)) + y3;
    EntryNesting(multibase, x, r);
    EntryNesting(multibase, y, s);
    StrFieldPrefix(x.did, y.did, StrField(x.orgName) + x2, StrField(y.orgName) + y2);
    StrFieldPrefix(x.orgName, y.orgName, x2, y2);
    StrFieldPrefix(multibase(x.publicKey), multibase(y.publicKey), x3, y3);
    StrFieldPrefix(x.didMethod, y.didMethod, x4, y4);
    MultibaseTellsKeysApart(multibase, x.publicKey, y.publicKey);
    LevelPrefix(x.trustLevel, y.trustLevel, x5, y5);
    Le64Prefix(Seconds(x.registeredAt), Seconds(y.registeredAt), x6, y6);
    StrFieldPrefix(OrEmpty(x.revocationEndpoint), OrEmpty(y.revocationEndpoint), r, s);
  }

  lemma EntryNesting(multibase: Multibase, e: TrustEntry, rest: seq<Symbol>)
    ensures EntryText(multibase, e) + rest
         == StrField(e.did) + (StrField(e.orgName) + (StrField(multibase(e.publicKey)) + (StrField(e.didMethod)
            + ([Byte(Rank(e.trustLevel))] + (Le64(Seconds(e.registeredAt))
            + (StrField(OrEmpty(e.revocationEndpoint)) + rest))))))
  {
    var url := StrField(OrEmpty(e.revocationEndpoint));
    var tail := [Byte(Rank(e.trustLevel))] + (Le64(Seconds(e.registeredAt)) + url);
    Nest4(StrField(e.did), StrField(e.orgName), StrField(multibase(e.publicKey)), StrField(e.didMethod), tail, rest);
    Nest2([Byte(Rank(e.trustLevel))], Le64(Seconds(e.registeredAt)), url, rest);
  }

  lemma LevelPrefix(a: TrustLevel, b: TrustLevel, r: seq<Symbol>, s: seq<Symbol>)
    requires [Byte(Rank(a))] + r == [Byte(Rank(b))] + s
    ensures a == b && r == s
  {
    SplitAt([Byte(Rank(a))], r, [Byte(Rank(b))], s);
    assert [Byte(Rank(a))][0] == [Byte(Rank(b))][0];
  }

  lemma {:induction false} EntryListInjective(multibase: Multibase, text: TrustEntry -> seq<Symbol>,
                                              a: seq<TrustEntry>, b: seq<TrustEntry>)
    requires WritesMultibase(multibase) && KeysFit(a) && KeysFit(b) && |a| == |b|
    requires forall e :: text(e) == EntryText(multibase, e)
    requires Listing(a, text) == Listing(b, text)
    ensures AllSame(a, b, SameEntry)
    decreases |a|
  {
    if a != [] {
      EntryTextPrefix(multibase, a[0], b[0], Listing(a[1..], text), Listing(b[1..], text));
      EntryListInjective(multibase, text, a[1..], b[1..]);
      AllSameCons(a, b, SameEntry);
    }
  }

  /** Two configurations have one digest exactly when a digest cannot tell their parts apart. */
  lemma ConfigDigestExact(multibase: Multibase, a: SignedTrustConfig, b: SignedTrustConfig)
    requires WritesMultibase(multibase) && a.Fits() && b.Fits()
    ensures a.Digest(multibase) == b.Digest(multibase) <==> SameConfig(a, b)
  {
    var text := (e: TrustEntry) => EntryText(multibase, e);
    if SameConfig(a, b) {
      forall x, y | SameEntry(x, y)
        ensures text(x) == text(y)
      {
      }
      ListingSame(a.entries, b.entries, text, SameEntry);
    }
    if a.Preimage(multibase) == b.Preimage(multibase) {
      var a6, b6 := Listing(a.entries, text), Listing(b.entries, text);
      var a5, b5 := Le64(|a.entries|) + a6, Le64(|b.entries|) + b6;
      var a4, b4 := OptTime(OptSeconds(a.notAfter)) + a5, OptTime(OptSeconds(b.notAfter)) + b5;
      var a3, b3 := [Byte(Rank(a.minimumTrustLevel))] + a4, [Byte(Rank(b.minimumTrustLevel))] + b4;
      var a2, b2 := StrField(a.issuerDid) + a3, StrField(b.issuerDid) + b3;
      var a1, b1 := Le64(Seconds(a.generatedAt)) + a2, Le64(Seconds(b.generatedAt)) + b2;
      SplitAt(Domain("agentcreds-trust-config-v1"), Le64(a.version) + a1,
              Domain("agentcreds-trust-config-v1"), Le64(b.version) + b1);
      Le64Prefix(a.version, b.version, a1, b1);
      Le64Prefix(Seconds(a.generatedAt), Seconds(b.generatedAt), a2, b2);
      StrFieldPrefix(a.issuerDid, b.issuerDid, a3, b3);
      LevelPrefix(a.minimumTrustLevel, b.minimumTrustLevel, a4, b4);
      OptTimePrefix(OptSeconds(a.notAfter), OptSeconds(b.notAfter), a5, b5);
      Le64Prefix(|a.entries|, |b.entries|, a6, b6);
      EntryListInjective(multibase, text, a.entries, b.entries);
    }
  }

  // -- Keys from resolved documents -----------------------------------------------------

  datatype VerificationMethod = VerificationMethod(kind: string, publicKeyMultibase: string)

  datatype DidDocument = DidDocument(id: Str, methods: seq<VerificationMethod>)

  datatype RegistryError = Unresolved | NoMethod | BadMultibase | UnknownKind | WrongPrefix
                         | BadConfig(error: SignedError) | LevelTooLow | NotAuthorized | BadProof | CannotSign

  function KindOf(algorithm: KeyAlgorithm): string {
    match algorithm
    case Ed25519 => "Ed25519VerificationKey2020"
    case P256 => "EcdsaSecp256r1VerificationKey2019"
  }

  function KeyFromDocument(d: DidDocument): Result<PublicKey, RegistryError> {
    if d.methods == [] then Err(NoMethod)
    else
      var m := d.methods[0];
      if m.publicKeyMultibase == "" || m.publicKeyMultibase[0] != 'z' then Err(BadMultibase)
      else
        match Decode(m.publicKeyMultibase[1..])
        case None => Err(BadMultibase)
        case Some(bytes) =>
          if m.kind == KindOf(Ed25519) then Stripped(Ed25519, bytes)
          else if m.kind == KindOf(P256) then Stripped(P256, bytes)
          else Err(UnknownKind)
  }

  function Stripped(algorithm: KeyAlgorithm, bytes: seq<byte>): Result<PublicKey, RegistryError> {
    if Prefix(algorithm) <= bytes then Ok(PublicKey(algorithm, bytes[2..])) else Err(WrongPrefix)
  }

  lemma StrippedExact(algorithm: KeyAlgorithm, bytes: seq<byte>, key: PublicKey)
    ensures Stripped(algorithm, bytes) == Ok(key)
            <==> algorithm == key.algorithm && bytes == Prefix(algorithm) + key.bytes
  {
    if Prefix(algorithm) <= bytes {
      assert bytes == Prefix(algorithm) + bytes[2..];
    }
    assert (Prefix(algorithm) + key.bytes)[2..] == key.bytes;
  }

  /** A document resolves to a key exactly when its first method is of the key's kind and
      spells the key's multibase text. */
  lemma KeyFromDocumentExact(d: DidDocument, key: PublicKey)
    ensures KeyFromDocument(d) == Ok(key)
            <==> d.methods != [] && d.methods[0] == VerificationMethod(KindOf(key.algorithm), MultibaseText(key))
  {
    if d.methods != [] {
      KeyFromMethodExact(d, d.methods[0].publicKeyMultibase, key);
    }
  }

  lemma KeyFromMethodExact(d: DidDocument, text: string, key: PublicKey)
    requires d.methods != [] && d.methods[0].publicKeyMultibase == text
    ensures KeyFromDocument(d) == Ok(key) <==> d.methods[0].kind == KindOf(key.algorithm) && text == MultibaseText(key)
  {
    MultibaseTextExact(text, key);
    KindsDiffer();
    if text != "" && text[0] == 'z' && Decode(text[1..]).Some? {
      StrippedExact(Ed25519, Decode(text[1..]).value, key);
      StrippedExact(P256, Decode(text[1..]).value, key);
    }
  }

  lemma KindsDiffer()
    ensures KindOf(Ed25519) != KindOf(P256)
  {
    assert KindOf(Ed25519)[1] == 'd' && KindOf(P256)[1] == 'c';
  }

  // -- The registry as a map ------------------------------------------------------------

  type Entries = map<Str, TrustEntry>

  /** Every entry is filed under its own identifier. */
  ghost predicate Filed(m: Entries) {
    forall d | d in m :: m[d].did == d
  }

  function RegisterAll(m: Entries, es: seq<TrustEntry>): Entries {
    if es == [] then m else RegisterAll(m, es[..|es| - 1])[es[|es| - 1].did := es[|es| - 1]]
  }

  predicate ByDid(a: TrustEntry, b: TrustEntry) {
    StrLeq(a.did, b.did)
  }

  /** The entries of a map, each once, in the order of their identifiers. */
  ghost predicate Lists(es: seq<TrustEntry>, m: Entries) {
    && SortedBy(es, ByDid) && |es| == |m|
    && forall e :: e in es <==> e.did in m && m[e.did] == e
  }

  lemma {:induction false} RegisterAllHas(m: Entries, es: seq<TrustEntry>, e: TrustEntry)
    requires e in es && forall x, y | x in es && y in es && x.did == y.did :: x == y
    ensures e.did in RegisterAll(m, es) && RegisterAll(m, es)[e.did] == e
  {
    var init, last := es[..|es| - 1], es[|es| - 1];
    assert last in es;
    if e != last {
      assert e in init;
      RegisterAllHas(m, init, e);
    }
  }

  lemma {:induction false} RegisterAllOnly(m: Entries, es: seq<TrustEntry>, d: Str)
    requires d in RegisterAll(m, es) && d !in m
    ensures exists e | e in es :: e.did == d
  {
    var init, last := es[..|es| - 1], es[|es| - 1];
    assert last in es;
    if last.did != d {
      RegisterAllOnly(m, init, d);
    }
  }

  /** Loading what lists a map rebuilds the map. */
  lemma LoadingRebuilds(m: Entries, es: seq<TrustEntry>)
    requires Filed(m) && Lists(es, m)
    ensures RegisterAll(map[], es) == m
  {
    forall d | d in m
      ensures d in RegisterAll(map[], es) && RegisterAll(map[], es)[d] == m[d]
    {
      assert m[d] in es;
      RegisterAllHas(map[], es, m[d]);
    }
    forall d | d in RegisterAll(map[], es)
      ensures d in m
    {
      RegisterAllOnly(map[], es, d);
    }
  }

  /** A credential of an issuer with a key history is accepted: the root is a member at the
      minimum level or above, the history authorizes the issuer, and the proof is good. */
  ghost predicate AcceptsRotated(m: Entries, minimum: TrustLevel, keys: KeyParser, history: Rotation.History,
                                 issuer: Str, proofOk: TrustAnchor -> bool, now: Instant) {
    && history.rootDid in m && Meets(m[history.rootDid].trustLevel, minimum)
    && Rotation.Authorizes(keys, history, history.rootDid, issuer, now)
    && proofOk(TrustAnchor(issuer, keys(issuer).value, false))
  }

  class TrustRegistry {
    var entries: Entries
    var minimumTrustLevel: TrustLevel

    ghost predicate Valid()
      reads this
    {
      Filed(entries)
    }

    constructor ()
      ensures Valid() && entries == map[] && minimumTrustLevel == SelfAsserted
    {
      entries, minimumTrustLevel := map[], SelfAsserted;
    }

    method Register(e: TrustEntry)
      requires Valid()
      modifies this`entries
      ensures Valid() && entries == old(entries)[e.did := e]
    {
      entries := entries[e.did := e];
    }

    /** `document` is what the resolver answers, if it is asked. */
    method Resolve(did: Str, document: Option<DidDocument>, now: Instant) returns (r: Result<TrustEntry, RegistryError>)
      requires Valid()
      modifies this`entries
      ensures Valid() && entries == Resolved(old(entries), did, document, now)
      ensures r.Ok? <==> did in entries
      ensures r.Ok? ==> r.value == entries[did]
    {
      if did !in entries {
        if document.None? {
          return Err(Unresolved);
        }
        var key := KeyFromDocument(document.value);
        if key.Err? {
          return Err(key.error);
        }
        entries := entries[did := ResolvedEntry(did, document.value, key.value, now)];
      }
      r := Ok(entries[did]);
    }

    method ExportValidUntil(multibase: Multibase, anchor: TrustAnchor, version: u64, generatedAt: Instant,
                            notAfter: Option<Instant>)
      returns (r: Result<SignedTrustConfig, RegistryError>)
      requires Valid()
      ensures r.Ok? <==> anchor.signs
      ensures r.Ok? ==>
                && r.value == Exported(multibase, entries, minimumTrustLevel, r.value.entries, anchor, version,
                                       generatedAt, notAfter)
                && Lists(r.value.entries, entries)
      ensures r.Ok? ==>
                && r.value.version == version && r.value.generatedAt == generatedAt && r.value.notAfter == notAfter
                && r.value.issuerDid == anchor.did && r.value.minimumTrustLevel == minimumTrustLevel
                && Verifies(anchor.key, r.value.Digest(multibase), r.value.signature)
    {
      var values: seq<TrustEntry> := [];
      var todo := entries.Keys;
      while todo != {}
        invariant todo <= entries.Keys && |values| + |todo| == |entries|
        invariant forall e :: e in values <==> e.did in entries && entries[e.did] == e && e.did !in todo
        decreases |todo|
      {
        var did :| did in todo;
        todo := todo - {did};
        values := values + [entries[did]];
      }
      var sorted := SortBy(values, ByDid);
      SortedLists(values, entries);
      var config := SignedTrustConfig(version, generatedAt, anchor.did, minimumTrustLevel, sorted, notAfter, []);
      match Sign(anchor, config.Digest(multibase))
      case Err(_) => r := Err(CannotSign);
      case Ok(text) =>
        assert config.(signature := text).Digest(multibase) == config.Digest(multibase);
        r := Ok(config.(signature := text));
    }

    method Import(multibase: Multibase, config: SignedTrustConfig, anchor: TrustAnchor, now: Instant)
      returns (r: Result<(), RegistryError>)
      requires Valid()
      modifies this`entries
      ensures Valid()
      ensures r.Ok? <==> config.VerifyCurrent(multibase, anchor, now).Ok?
      ensures entries == if r.Ok? then RegisterAll(old(entries), config.entries) else old(entries)
    {
      var verdict := config.VerifyCurrent(multibase, anchor, now);
      if verdict.Err? {
        return Err(BadConfig(verdict.error));
      }
      for i := 0 to |config.entries|
        invariant Valid() && entries == RegisterAll(old(entries), config.entries[..i])
      {
        assert config.entries[..i + 1][..i] == config.entries[..i];
        Register(config.entries[i]);
      }
      assert config.entries[..|config.entries|] == config.entries;
      r := Ok(());
    }

    /** Verify a credential whose issuer may be a rotated key of a registered member; `proofOk`
        says whether the credential's own proof verifies under an anchor. */
    method VerifyCredentialRotated(issuer: Str, proofOk: TrustAnchor -> bool, history: Rotation.KeyHistory,
                                   document: Option<DidDocument>, now: Instant)
      returns (r: Result<TrustEntry, RegistryError>)
      requires Valid()
      modifies this`entries
      ensures Valid() && entries == Resolved(old(entries), history.rootDid, document, now)
      ensures r.Ok? <==>
              AcceptsRotated(entries, minimumTrustLevel, history.keys, history.View(), issuer, proofOk, now)
      ensures r.Ok? ==> r.value == entries[history.rootDid]
    {
      var root := history.rootDid;
      var resolved := Resolve(root, document, now);
      if resolved.Err? {
        return Err(resolved.error);
      }
      LevelsAscend(resolved.value.trustLevel, minimumTrustLevel);
      if Rank(resolved.value.trustLevel) < Rank(minimumTrustLevel) {
        return Err(LevelTooLow);
      }
      var anchor := history.AuthorizeIssuer(root, issuer, now);
      if anchor.Err? {
        return Err(NotAuthorized);
      }
      if !proofOk(anchor.value) {
        return Err(BadProof);
      }
      r := Resolve(root, document, now);
    }
  }

  /** A registry from a verified configuration, replacing the minimum level and the entries. */
  method FromConfig(multibase: Multibase, config: SignedTrustConfig, anchor: TrustAnchor, now: Instant)
    returns (r: Result<TrustRegistry, RegistryError>)
    ensures r.Ok? <==> config.VerifyCurrent(multibase, anchor, now).Ok?
    ensures r.Ok? ==> fresh(r.value) && r.value.Valid()
    ensures r.Ok? ==> r.value.entries == RegisterAll(map[], config.entries)
    ensures r.Ok? ==> r.value.minimumTrustLevel == config.minimumTrustLevel
  {
    var registry := new TrustRegistry();
    registry.minimumTrustLevel := config.minimumTrustLevel;
    var imported := registry.Import(multibase, config, anchor, now);
    match imported
    case Err(e) => r := Err(e);
    case Ok(_) => r := Ok(registry);
  }

  function Exported(multibase: Multibase, m: Entries, level: TrustLevel, es: seq<TrustEntry>, anchor: TrustAnchor,
                    version: u64, generatedAt: Instant, notAfter: Option<Instant>): SignedTrustConfig {
    var config := SignedTrustConfig(version, generatedAt, anchor.did, level, es, notAfter, []);
    config.(signature := SignatureText(anchor.key, config.Digest(multibase)))
  }

  lemma SortedLists(values: seq<TrustEntry>, m: Entries)
    requires |values| == |m| && forall e :: e in values <==> e.did in m && m[e.did] == e
    ensures Lists(SortBy(values, ByDid), m)
  {
    ByDidIsTotal();
    SortBySorted(values, ByDid);
    SortByMultiset(values, ByDid);
    var sorted := SortBy(values, ByDid);
    assert |sorted| == |multiset(sorted)| == |multiset(values)| == |values|;
    forall e
      ensures e in sorted <==> e in values
    {
      assert e in multiset(sorted) <==> e in multiset(values);
    }
  }

  lemma ByDidIsTotal()
    ensures TotalPreorder(ByDid)
  {
    StrOrder();
    forall a, b
      ensures ByDid(a, b) || ByDid(b, a)
    {
      assert StrLeq(a.did, b.did) || StrLeq(b.did, a.did);
    }
    forall a, b, c | ByDid(a, b) && ByDid(b, c)
      ensures ByDid(a, c)
    {
      LexTransitive(a.did, b.did, c.did);
    }
  }

  // -- Round trips and resolution -------------------------------------------------------

  /** Exporting a registry and loading the unexpired configuration rebuilds its entries; the
      minimum level is in the configuration as exported. */
  lemma ExportRoundTrip(multibase: Multibase, m: Entries, level: TrustLevel, es: seq<TrustEntry>, anchor: TrustAnchor,
                        version: u64, generatedAt: Instant, notAfter: Option<Instant>, now: Instant)
    requires Filed(m) && Lists(es, m)
    ensures var config := Exported(multibase, m, level, es, anchor, version, generatedAt, notAfter);
      && (config.VerifyCurrent(multibase, anchor, now).Ok? <==> (notAfter.Some? ==> now <= notAfter.value))
      && RegisterAll(map[], config.entries) == m && config.minimumTrustLevel == level
  {
    var config := Exported(multibase, m, level, es, anchor, version, generatedAt, notAfter);
    assert config.Digest(multibase) == config.(signature := []).Digest(multibase);
    LoadingRebuilds(m, es);
  }

  /** A configuration under the signature of an exported one is loaded exactly while it is
      unexpired and is the exported one, up to what is not signed. */
  lemma LoadedConfigIsExported(multibase: Multibase, exported: SignedTrustConfig, config: SignedTrustConfig,
                               anchor: TrustAnchor, now: Instant)
    requires WritesMultibase(multibase) && exported.Fits() && config.Fits()
    requires exported.issuerDid == anchor.did
    requires config.signature == SignatureText(anchor.key, exported.Digest(multibase))
    ensures config.VerifyCurrent(multibase, anchor, now).Ok?
            <==> SameConfig(config, exported) && (config.notAfter.Some? ==> now <= config.notAfter.value)
  {
    ConfigDigestExact(multibase, config, exported);
  }

  function ResolvedEntry(did: Str, d: DidDocument, key: PublicKey, now: Instant): TrustEntry {
    TrustEntry(did, d.id, key, MethodOf(did), SelfAsserted, now, None, None)
  }

  /** The second part of an identifier, between colons. */
  function MethodOf(did: Str): Str {
    match AfterColon(did)
    case None => [117, 110, 107, 110, 111, 119, 110]
    case Some(rest) => UpToColon(rest)
  }

  function AfterColon(s: Str): (r: Option<Str>)
    ensures r.Some? ==> |r.value| < |s|
  {
    if s == [] then None else if s[0] == 58 then Some(s[1..]) else AfterColon(s[1..])
  }

  function UpToColon(s: Str): (r: Str)
    ensures |r| <= |s|
  {
    if s == [] || s[0] == 58 then [] else [s[0]] + UpToColon(s[1..])
  }

  /** The entries after resolving `did`. */
  function Resolved(m: Entries, did: Str, document: Option<DidDocument>, now: Instant): Entries {
    if did in m || document.None? then m
    else
      match KeyFromDocument(document.value)
      case Err(_) => m
      case Ok(key) => m[did := ResolvedEntry(did, document.value, key, now)]
  }

  datatype Lookup = Lookup(did: Str, document: Option<DidDocument>, now: Instant)

  function ResolveAll(m: Entries, lookups: seq<Lookup>): Entries {
    if lookups == [] then m
    else
      var last := lookups[|lookups| - 1];
      Resolved(ResolveAll(m, lookups[..|lookups| - 1]), last.did, last.document, last.now)
  }

  /** No run of resolutions alters an entry that is there, and what one adds is only ever
      self-asserted. */
  lemma {:induction false} ResolvingNeverAlters(m: Entries, lookups: seq<Lookup>, did: Str)
    requires Filed(m)
    ensures Filed(ResolveAll(m, lookups))
    ensures did in m ==> did in ResolveAll(m, lookups) && ResolveAll(m, lookups)[did] == m[did]
    ensures did !in m && did in ResolveAll(m, lookups) ==> ResolveAll(m, lookups)[did].trustLevel == SelfAsserted
  {
    if lookups != [] {
      ResolvingNeverAlters(m, lookups[..|lookups| - 1], did);
    }
  }

  /** Resolution never makes a member: over every run of resolutions, a root that nobody
      registered is not accepted under a minimum above self-asserted. */
  lemma ResolvedRootIsRefused(m: Entries, lookups: seq<Lookup>, minimum: TrustLevel, keys: KeyParser,
                              history: Rotation.History, issuer: Str, proofOk: TrustAnchor -> bool, now: Instant)
    requires Filed(m) && history.rootDid !in m && (minimum.Verified? || minimum.Authoritative?)
    ensures !AcceptsRotated(ResolveAll(m, lookups), minimum, keys, history, issuer, proofOk, now)
  {
    ResolvingNeverAlters(m, lookups, history.rootDid);
  }

  /** And an authoritative member is kept from acceptance by no minimum. */
  lemma AuthoritativeRootMeetsAll(m: Entries, lookups: seq<Lookup>, minimum: TrustLevel, keys: KeyParser,
                                  history: Rotation.History, issuer: Str, proofOk: TrustAnchor -> bool, now: Instant)
    requires Filed(m) && history.rootDid in m && m[history.rootDid].trustLevel.Authoritative?
    ensures AcceptsRotated(ResolveAll(m, lookups), minimum, keys, history, issuer, proofOk, now)
       <==> Rotation.Authorizes(keys, history, history.rootDid, issuer, now)
            && proofOk(TrustAnchor(issuer, keys(issuer).value, false))
  {
    ResolvingNeverAlters(m, lookups, history.rootDid);
  }

  /** What a run of resolutions adds for an identifier is what the document of a lookup of it
      gives: its key, its identifier as the organization, nothing of a history or endpoint. */
  lemma {:induction false} ResolvedIsFromDocument(m: Entries, lookups: seq<Lookup>, did: Str)
    requires did !in m && did in ResolveAll(m, lookups)
    ensures var e := ResolveAll(m, lookups)[did];
      && e.did == did && e.trustLevel == SelfAsserted && e.revocationEndpoint == None && e.keyHistoryUrl == None
      && exists l | l in lookups :: l.did == did && l.document.Some? && l.now == e.registeredAt
           && KeyFromDocument(l.document.value) == Ok(e.publicKey) && e.orgName == l.document.value.id
    decreases |lookups|
  {
    var init, last := lookups[..|lookups| - 1], lookups[|lookups| - 1];
    assert last in lookups;
    if did in ResolveAll(m, init) {
      ResolvedIsFromDocument(m, init, did);
      assert forall l | l in init :: l in lookups;
    }
  }

  /** The method of an identifier is its second part between colons, and "unknown" if it has
      one part only. */
  lemma MethodIsSecondPart(scheme: seq<byte>, name: seq<byte>, rest: seq<byte>)
    requires |scheme| + |name| + |rest| + 1 < 0x1_0000_0000_0000_0000
    requires ':' as int !in scheme && ':' as int !in name && (rest == [] || rest[0] == ':' as int)
    ensures MethodOf(scheme + [':' as int] + name + rest) == name
    ensures MethodOf(scheme) == Ascii("unknown")
  {
    AfterColonIs(scheme, name + rest);
    assert scheme + [':' as int] + name + rest == scheme + [':' as int] + (name + rest);
    UpToColonIs(name, rest);
    NoColon(scheme);
  }

  lemma {:induction false} AfterColonIs(scheme: seq<byte>, rest: seq<byte>)
    requires |scheme| + |rest| + 1 < 0x1_0000_0000_0000_0000 && ':' as int !in scheme
    ensures AfterColon(scheme + [':' as int] + rest) == Some(rest)
  {
    var s := scheme + [':' as int] + rest;
    if scheme == [] {
      assert s[1..] == rest;
    } else {
      assert s[1..] == scheme[1..] + [':' as int] + rest;
      AfterColonIs(scheme[1..], rest);
    }
  }

  lemma {:induction false} UpToColonIs(name: seq<byte>, rest: seq<byte>)
    requires |name| + |rest| < 0x1_0000_0000_0000_0000 && ':' as int !in name
    requires rest == [] || rest[0] == ':' as int
    ensures UpToColon(name + rest) == name
  {
    var s := name + rest;
    if name == [] {
      assert s == rest;
    } else {
      assert s[1..] == name[1..] + rest;
      UpToColonIs(name[1..], rest);
    }
  }

  lemma {:induction false} NoColon(s: Str)
    requires ':' as int !in s
    ensures AfterColon(s) == None
  {
    if s != [] {
      NoColon(s[1..]);
    }
  }

  /** Loading files the last entry of every identifier, and leaves the others alone. */
  lemma {:induction false} LastEntryCounts(m: Entries, es: seq<TrustEntry>, did: Str)
    ensures (exists i | 0 <= i < |es| :: LastFor(es, did, i))
            || ((did in RegisterAll(m, es) <==> did in m) && (did in m ==> RegisterAll(m, es)[did] == m[did]))
    ensures forall i | 0 <= i < |es| && LastFor(es, did, i) ::
              did in RegisterAll(m, es) && RegisterAll(m, es)[did] == es[i]
  {
    if es != [] {
      var init, last := es[..|es| - 1], |es| - 1;
      LastEntryCounts(m, init, did);
      assert forall i | 0 <= i < last :: LastFor(es, did, i) ==> LastFor(init, did, i);
      assert forall i | 0 <= i < last && es[last].did != did :: LastFor(init, did, i) ==> LastFor(es, did, i);
      assert es[last].did == did ==> LastFor(es, did, last);
    }
  }

  /** Entry `i` is the last for an identifier. */
  predicate LastFor(es: seq<TrustEntry>, did: Str, i: nat)
    requires i < |es|
  {
    es[i].did == did && forall j | i < j < |es| :: es[j].did != did
  }

  /** An exported configuration lists the members in ascending order of identifier by byte. */
  lemma ExportAscends(es: seq<TrustEntry>, m: Entries)
    requires Lists(es, m)
    ensures forall i, j | 0 <= i < j < |es| :: es[i].did == es[j].did || Precedes(es[i].did, es[j].did)
  {
    forall i, j | 0 <= i < j < |es|
      ensures es[i].did == es[j].did || Precedes(es[i].did, es[j].did)
    {
      assert ByDid(es[i], es[j]);
      StrLeqExactly(es[i].did, es[j].did);
    }
  }
}
