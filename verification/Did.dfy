/** Public keys and the `did:key` identifiers that carry them. */
module Did {
  import opened Base58
  import opened Wrappers

  datatype KeyAlgorithm = Ed25519 | P256

  datatype PublicKey = PublicKey(algorithm: KeyAlgorithm, bytes: seq<byte>)

  datatype KeyError = NotDidKey | NotBase58Btc | BadBase58 | UnknownPrefix | WrongLength

  const SCHEME: string := "did:key:"

  /** The multicodec prefix of a key type. */
  function Prefix(algorithm: KeyAlgorithm): seq<byte> {
    match algorithm
    case Ed25519 => [0xed, 0x01]
    case P256 => [0x12, 0x00]
  }

  function KeyLength(algorithm: KeyAlgorithm): nat {
    match algorithm
    case Ed25519 => 32
    case P256 => 33
  }

  predicate WellSized(key: PublicKey) {
    |key.bytes| == KeyLength(key.algorithm)
  }

  ghost function MultibaseText(key: PublicKey): string {
    "z" + EncodedText(Prefix(key.algorithm) + key.bytes)
  }

  /** The `did:key` identifier of a key. */
  ghost function DidKeyOf(key: PublicKey): string {
    SCHEME + MultibaseText(key)
  }

  method ToMultibase(key: PublicKey) returns (text: string)
    ensures text == MultibaseText(key)
  {
    var encoded := Encode(Prefix(key.algorithm) + key.bytes);
    text := "z" + encoded;
  }

  function FromDidKey(did: string): Result<PublicKey, KeyError> {
    if !(SCHEME <= did) then Err(NotDidKey)
    else
      var body := did[|SCHEME|..];
      if body == "" || body[0] != 'z' then Err(NotBase58Btc)
      else
        match Decode(body[1..])
        case None => Err(BadBase58)
        case Some(decoded) => FromPrefixed(decoded)
  }

  /** The key whose prefixed bytes are `decoded`. */
  function FromPrefixed(decoded: seq<byte>): Result<PublicKey, KeyError> {
    if |decoded| < 2 then Err(UnknownPrefix)
    else
      var prefix, bytes := decoded[..2], decoded[2..];
      if prefix == Prefix(Ed25519) then
        if |bytes| == 32 then Ok(PublicKey(Ed25519, bytes)) else Err(WrongLength)
      else if prefix == Prefix(P256) then
        if |bytes| == 33 then Ok(PublicKey(P256, bytes)) else Err(WrongLength)
      else Err(UnknownPrefix)
  }

  /** The multibase text of a key is the one that decodes to its prefixed bytes. */
  lemma MultibaseTextExact(text: string, key: PublicKey)
    ensures text != "" && text[0] == 'z' && Decode(text[1..]) == Some(Prefix(key.algorithm) + key.bytes)
            <==> text == MultibaseText(key)
  {
    var prefixed := Prefix(key.algorithm) + key.bytes;
    assert prefixed[0] != 0;
    if text == MultibaseText(key) {
      assert text[1..] == EncodedText(prefixed);
      DecodeEncoded(prefixed);
    }
    if text != "" && text[0] == 'z' && Decode(text[1..]) == Some(prefixed) {
      EncodedDecoded(text[1..]);
      assert text == "z" + text[1..];
    }
  }

  /** The text spells the multicodec prefix of the key's type, two bytes, and then the key. */
  lemma MultibaseSpells(key: PublicKey)
    ensures Decode(MultibaseText(key)[1..])
         == Some((if key.algorithm == Ed25519 then [0xed, 0x01] else [0x12, 0x00]) + key.bytes)
  {
    MultibaseTextExact(MultibaseText(key), key);
  }

  lemma PrefixedInjective(a: PublicKey, b: PublicKey)
    requires Prefix(a.algorithm) + a.bytes == Prefix(b.algorithm) + b.bytes
    ensures a == b
  {
    var x, y := Prefix(a.algorithm) + a.bytes, Prefix(b.algorithm) + b.bytes;
    assert x[..2] == Prefix(a.algorithm) && y[..2] == Prefix(b.algorithm) && x[2..] == a.bytes && y[2..] == b.bytes;
    assert Prefix(Ed25519)[0] != Prefix(P256)[0];
  }

  /** Distinct keys, well-sized or not, have distinct multibase texts. */
  lemma MultibaseInjective(a: PublicKey, b: PublicKey)
    requires MultibaseText(a) == MultibaseText(b)
    ensures a == b
  {
    MultibaseTextExact(MultibaseText(a), a);
    MultibaseTextExact(MultibaseText(b), b);
    PrefixedInjective(a, b);
  }

  lemma FromPrefixedExact(decoded: seq<byte>, key: PublicKey)
    ensures FromPrefixed(decoded) == Ok(key) <==> WellSized(key) && decoded == Prefix(key.algorithm) + key.bytes
  {
    if |decoded| >= 2 {
      assert decoded == decoded[..2] + decoded[2..];
    }
    var p := Prefix(key.algorithm) + key.bytes;
    assert p[..2] == Prefix(key.algorithm) && p[2..] == key.bytes;
    assert Prefix(Ed25519)[0] != Prefix(P256)[0];
  }

  /** An identifier parses to a key exactly when the key has its algorithm's length and the
      identifier is the one assembled from it. */
  lemma FromDidKeyExact(did: string, key: PublicKey)
    ensures FromDidKey(did) == Ok(key) <==> WellSized(key) && did == DidKeyOf(key)
  {
    var prefixed := Prefix(key.algorithm) + key.bytes;
    assert prefixed[0] != 0;
    if WellSized(key) && did == DidKeyOf(key) {
      assert did[|SCHEME|..] == MultibaseText(key);
      assert MultibaseText(key)[1..] == EncodedText(prefixed);
      DecodeEncoded(prefixed);
      FromPrefixedExact(prefixed, key);
    }
    if FromDidKey(did) == Ok(key) {
      var body := did[|SCHEME|..];
      FromPrefixedExact(Decode(body[1..]).value, key);
      EncodedDecoded(body[1..]);
      assert body == "z" + body[1..];
      assert did == SCHEME + body;
    }
  }

  /** Distinct keys have distinct identifiers. */
  lemma DidKeyInjective(a: PublicKey, b: PublicKey)
    requires DidKeyOf(a) == DidKeyOf(b)
    ensures a == b || !WellSized(a) || !WellSized(b)
  {
    FromDidKeyExact(DidKeyOf(a), a);
    FromDidKeyExact(DidKeyOf(b), b);
  }
}
