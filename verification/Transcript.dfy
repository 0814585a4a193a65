/** The transcripts that signed artifacts hash, and ideal hashes and signatures.

    A transcript is a sequence of bytes in which a digest, its hexadecimal text and the
    base64 text of a signature are single symbols of known width. `Sha256` is a free
    constructor, so equal digests have equal transcripts; and only `Sign` makes the
    signature symbol of a key. Strings are their UTF-8 bytes. */
module Transcript {
  import opened Wrappers
  import opened Did
  import opened Sorting

  datatype Hash = Sha256(preimage: seq<Symbol>)

  datatype Symbol =
    | Byte(b: byte)
    | Raw(h: Hash)
    | Hex(h: Hash)
    | Signature(key: PublicKey, message: Hash, length: nat)

  function SymbolWidth(s: Symbol): (w: nat)
    ensures w > 0
  {
    match s
    case Byte(_) => 1
    case Raw(_) => 32
    case Hex(_) => 64
    case Signature(_, _, length) => length + 1
  }

  /** How many bytes a transcript is. */
  function Width(t: seq<Symbol>): nat {
    if t == [] then 0 else SymbolWidth(t[0]) + Width(t[1..])
  }

  /** A string: its length fits a machine word. */
  type Str = s: seq<byte> | |s| < 0x1_0000_0000_0000_0000 witness []

  /** A string that may hold digests and signatures as text. */
  type Text = t: seq<Symbol> | Width(t) < 0x1_0000_0000_0000_0000 witness []

  /** The order of strings: by byte. */
  predicate StrLeq(a: Str, b: Str) {
    LexLeq(a, b)
  }

  /** One string is not after another exactly when they are equal or it is before the other at
      the first byte where they differ. */
  lemma StrLeqExactly(a: Str, b: Str)
    ensures StrLeq(a, b) <==> a == b || Precedes(a, b)
  {
    LexLeqExactly(a, b);
  }

  lemma StrOrder()
    ensures TotalPreorder(StrLeq) && Antisymmetric(StrLeq)
  {
    forall a: Str, b: Str
      ensures StrLeq(a, b) || StrLeq(b, a)
      ensures StrLeq(a, b) && StrLeq(b, a) ==> a == b
    {
      LexTotal(a, b);
      if LexLeq(a, b) && LexLeq(b, a) {
        LexAntisymmetric(a, b);
      }
    }
    forall a: Str, b: Str, c: Str | StrLeq(a, b) && StrLeq(b, c)
      ensures StrLeq(a, c)
    {
      LexTransitive(a, b, c);
    }
  }

  // -- Encodings ----------------------------------------------------------------------

  function Bytes(s: seq<byte>): (t: seq<Symbol>)
    ensures |t| == |s| && forall i | 0 <= i < |s| :: t[i] == Byte(s[i])
  {
    seq(|s|, i requires 0 <= i < |s| => Byte(s[i]))
  }

  function Ascii(s: string): seq<byte> {
    seq(|s|, i requires 0 <= i < |s| => s[i] as int % 256)
  }

  function Domain(s: string): seq<Symbol> {
    Bytes(Ascii(s))
  }

  /** The `k` least significant bytes of `n`, least significant first. */
  function LittleEndian(n: nat, k: nat): (t: seq<Symbol>)
    ensures |t| == k
  {
    if k == 0 then [] else [Byte(n % 256)] + LittleEndian(n / 256, k - 1)
  }

  /** `to_le_bytes` of a 64-bit integer, signed ones in two's complement. */
  function Le64(n: int): seq<Symbol> {
    LittleEndian(n % 0x1_0000_0000_0000_0000, 8)
  }

  function Le32(n: u32): seq<Symbol> {
    LittleEndian(n, 4)
  }

  /** A field behind its length in bytes. */
  function Field(t: seq<Symbol>): seq<Symbol> {
    Le64(Width(t)) + t
  }

  function StrField(s: Str): seq<Symbol> {
    Field(Bytes(s))
  }

  /** An absent string reads as the empty one. */
  function OrEmpty(s: Option<Str>): Str {
    if s.Some? then s.value else []
  }

  /** The texts of `items`, one after the other. */
  function Listing<T>(items: seq<T>, text: T -> seq<Symbol>): seq<Symbol> {
    if items == [] then [] else text(items[0]) + Listing(items[1..], text)
  }

  /** The presence byte of an optional value. */
  function Tag<T>(o: Option<T>): byte {
    if o.Some? then 1 else 0
  }

  /** An optional instant: a presence byte, then its whole seconds. */
  function OptTime(t: Option<i64>): seq<Symbol> {
    [Byte(Tag(t))] + (if t.Some? then Le64(t.value) else [])
  }

  function OptWord(w: Option<u64>): seq<Symbol> {
    [Byte(Tag(w))] + (if w.Some? then Le64(w.value) else [])
  }

  /** An optional field: a presence byte, then the field. */
  function OptField(s: Option<Str>): seq<Symbol> {
    [Byte(Tag(s))] + (if s.Some? then StrField(s.value) else [])
  }

  // -- Transcripts are unambiguous ----------------------------------------------------

  function Pow256(k: nat): (p: nat)
    ensures p > 0
  {
    if k == 0 then 1 else 256 * Pow256(k - 1)
  }

  lemma {:induction false} LittleEndianInjective(m: nat, n: nat, k: nat)
    requires m < Pow256(k) && n < Pow256(k) && LittleEndian(m, k) == LittleEndian(n, k)
    ensures m == n
  {
    if k > 0 {
      var a, b := LittleEndian(m, k), LittleEndian(n, k);
      assert a[0] == b[0] && a[1..] == LittleEndian(m / 256, k - 1) && b[1..] == LittleEndian(n / 256, k - 1);
      LittleEndianInjective(m / 256, n / 256, k - 1);
    }
  }

  /** What bytes denote, the first the least significant. */
  function BytesValue(t: seq<Symbol>): nat
    requires forall x | x in t :: x.Byte?
  {
    if t == [] then 0 else t[0].b + 256 * BytesValue(t[1..])
  }

  lemma {:induction false} LittleEndianDenotes(n: nat, k: nat)
    requires n < Pow256(k)
    ensures forall x | x in LittleEndian(n, k) :: x.Byte?
    ensures BytesValue(LittleEndian(n, k)) == n
  {
    if k > 0 {
      LittleEndianDenotes(n / 256, k - 1);
      var t := LittleEndian(n, k);
      assert t[1..] == LittleEndian(n / 256, k - 1);
    }
  }

  /** The eight bytes of a word denote it, negative ones modulo `2^64`. */
  lemma Le64Denotes(n: int)
    requires -0x8000_0000_0000_0000 <= n < 0x1_0000_0000_0000_0000
    ensures |Le64(n)| == 8 && forall x | x in Le64(n) :: x.Byte?
    ensures BytesValue(Le64(n)) == if n >= 0 then n else n + 0x1_0000_0000_0000_0000
  {
    MachineWords();
    LittleEndianDenotes(n % 0x1_0000_0000_0000_0000, 8);
  }

  /** A string is written as its length and then its bytes. */
  lemma LengthComesFirst(s: Str)
    ensures |StrField(s)| == 8 + |s| && StrField(s)[..8] == Le64(|s|) && StrField(s)[8..] == Bytes(s)
  {
    BytesWidth(s);
    Le64Denotes(|s|);
  }

  /** An optional value is a zero byte, or a one and the value. */
  lemma PresenceBytes(s: Str, t: i64, w: u64)
    ensures OptField(None) == OptTime(None) == OptWord(None) == [Byte(0)]
    ensures OptField(Some(s)) == [Byte(1)] + StrField(s)
    ensures OptTime(Some(t)) == [Byte(1)] + Le64(t) && OptWord(Some(w)) == [Byte(1)] + Le64(w)
  {
  }

  lemma MachineWords()
    ensures Pow256(8) == 0x1_0000_0000_0000_0000 && Pow256(4) == 0x1_0000_0000
  {
    assert Pow256(2) == 0x1_0000 && Pow256(4) == 0x1_0000 * Pow256(2);
    assert Pow256(6) == 0x1_0000 * Pow256(4) && Pow256(8) == 0x1_0000 * Pow256(6);
  }

  /** Two's complement is injective on the integers of one machine type. */
  predicate SameWord(m: int, n: int) {
    || (0 <= m < 0x1_0000_0000_0000_0000 && 0 <= n < 0x1_0000_0000_0000_0000)
    || (-0x8000_0000_0000_0000 <= m < 0x8000_0000_0000_0000 && -0x8000_0000_0000_0000 <= n < 0x8000_0000_0000_0000)
  }

  lemma Le64Prefix(m: int, n: int, r: seq<Symbol>, s: seq<Symbol>)
    requires SameWord(m, n) && Le64(m) + r == Le64(n) + s
    ensures m == n && r == s
  {
    MachineWords();
    SplitAt(Le64(m), r, Le64(n), s);
    LittleEndianInjective(m % 0x1_0000_0000_0000_0000, n % 0x1_0000_0000_0000_0000, 8);
    WordInjective(m, n);
  }

  lemma Le64Injective(m: int, n: int)
    requires SameWord(m, n) && Le64(m) == Le64(n)
    ensures m == n
  {
    assert Le64(m) + [] == Le64(m) && Le64(n) + [] == Le64(n);
    Le64Prefix(m, n, [], []);
  }

  lemma WordInjective(m: int, n: int)
    requires SameWord(m, n) && m % 0x1_0000_0000_0000_0000 == n % 0x1_0000_0000_0000_0000
    ensures m == n
  {
  }

  lemma Le32Prefix(m: u32, n: u32, r: seq<Symbol>, s: seq<Symbol>)
    requires Le32(m) + r == Le32(n) + s
    ensures m == n && r == s
  {
    MachineWords();
    SplitAt(Le32(m), r, Le32(n), s);
    LittleEndianInjective(m, n, 4);
  }

  lemma Associate<T>(a: seq<T>, b: seq<T>, c: seq<T>)
    ensures a + b + c == a + (b + c)
  {
  }

  lemma TakeSnoc<T>(s: seq<T>, i: nat)
    requires i < |s|
    ensures s[..i + 1] == s[..i] + [s[i]]
  {
  }

  lemma SplitAt<T>(a: seq<T>, r: seq<T>, b: seq<T>, s: seq<T>)
    requires |a| == |b| && a + r == b + s
    ensures a == b && r == s
  {
    assert a == (a + r)[..|a|] && b == (b + s)[..|b|];
    assert r == (a + r)[|a|..] && s == (b + s)[|b|..];
  }

  lemma {:induction false} WidthAppend(a: seq<Symbol>, b: seq<Symbol>)
    ensures Width(a + b) == Width(a) + Width(b)
  {
    if a == [] {
      assert a + b == b;
    } else {
      assert (a + b)[1..] == a[1..] + b;
      WidthAppend(a[1..], b);
    }
  }

  /** Two heads of one transcript with the same width are the same head. */
  lemma {:induction false} SameWidthPrefix(a: seq<Symbol>, r: seq<Symbol>, b: seq<Symbol>, s: seq<Symbol>)
    requires Width(a) == Width(b) && a + r == b + s
    ensures a == b && r == s
  {
    if a == [] || b == [] {
      assert a == [] && b == [];
      assert a + r == r && b + s == s;
    } else {
      assert (a + r)[0] == a[0] && (b + s)[0] == b[0];
      assert (a + r)[1..] == a[1..] + r && (b + s)[1..] == b[1..] + s;
      SameWidthPrefix(a[1..], r, b[1..], s);
      assert a == [a[0]] + a[1..] && b == [b[0]] + b[1..];
    }
  }

  /** A length-prefixed field ends where its length says. */
  lemma FieldPrefix(a: Text, b: Text, r: seq<Symbol>, s: seq<Symbol>)
    requires Field(a) + r == Field(b) + s
    ensures a == b && r == s
  {
    Associate(Le64(Width(a)), a, r);
    Associate(Le64(Width(b)), b, s);
    Le64Prefix(Width(a), Width(b), a + r, b + s);
    SameWidthPrefix(a, r, b, s);
  }

  lemma FieldInjective(a: Text, b: Text)
    requires Field(a) == Field(b)
    ensures a == b
  {
    assert Field(a) + [] == Field(a) && Field(b) + [] == Field(b);
    FieldPrefix(a, b, [], []);
  }

  lemma {:induction false} BytesWidth(s: seq<byte>)
    ensures Width(Bytes(s)) == |s|
  {
    if s != [] {
      assert Bytes(s)[1..] == Bytes(s[1..]);
      BytesWidth(s[1..]);
    }
  }

  lemma BytesInjective(a: seq<byte>, b: seq<byte>)
    requires Bytes(a) == Bytes(b)
    ensures a == b
  {
    assert |a| == |b|;
    forall i | 0 <= i < |a|
      ensures a[i] == b[i]
    {
      assert Bytes(a)[i] == Bytes(b)[i];
    }
  }

  lemma StrFieldPrefix(a: Str, b: Str, r: seq<Symbol>, s: seq<Symbol>)
    requires StrField(a) + r == StrField(b) + s
    ensures a == b && r == s
  {
    BytesWidth(a);
    BytesWidth(b);
    FieldPrefix(Bytes(a), Bytes(b), r, s);
    BytesInjective(a, b);
  }

  lemma StrFieldInjective(a: Str, b: Str)
    requires StrField(a) == StrField(b)
    ensures a == b
  {
    assert StrField(a) + [] == StrField(a) && StrField(b) + [] == StrField(b);
    StrFieldPrefix(a, b, [], []);
  }

  /** Presence bytes are told apart by their value. */
  lemma TagPrefix(x: byte, a: seq<Symbol>, r: seq<Symbol>, y: byte, b: seq<Symbol>, s: seq<Symbol>)
    requires [Byte(x)] + a + r == [Byte(y)] + b + s
    ensures x == y && a + r == b + s
  {
    Associate([Byte(x)], a, r);
    Associate([Byte(y)], b, s);
    SplitAt([Byte(x)], a + r, [Byte(y)], b + s);
  }

  lemma OptTimePrefix(a: Option<i64>, b: Option<i64>, r: seq<Symbol>, s: seq<Symbol>)
    requires OptTime(a) + r == OptTime(b) + s
    ensures a == b && r == s
  {
    var x := if a.Some? then Le64(a.value) else [];
    var y := if b.Some? then Le64(b.value) else [];
    TagPrefix(Tag(a), x, r, Tag(b), y, s);
    if a.Some? {
      Le64Prefix(a.value, b.value, r, s);
    } else {
      SplitAt([], r, [], s);
    }
  }

  lemma OptTimeInjective(a: Option<i64>, b: Option<i64>)
    requires OptTime(a) == OptTime(b)
    ensures a == b
  {
    assert OptTime(a) + [] == OptTime(a) && OptTime(b) + [] == OptTime(b);
    OptTimePrefix(a, b, [], []);
  }

  lemma Nest2<T>(a: seq<T>, b: seq<T>, c: seq<T>, r: seq<T>)
    ensures (a + (b + c)) + r == a + (b + (c + r))
  {
    Associate(a, b + c, r);
    Associate(b, c, r);
  }

  lemma Nest3<T>(a: seq<T>, b: seq<T>, c: seq<T>, d: seq<T>, r: seq<T>)
    ensures (a + (b + (c + d))) + r == a + (b + (c + (d + r)))
  {
    Associate(a, b + (c + d), r);
    Nest2(b, c, d, r);
  }

  lemma Nest4<T>(a: seq<T>, b: seq<T>, c: seq<T>, d: seq<T>, e: seq<T>, r: seq<T>)
    ensures (a + (b + (c + (d + e)))) + r == a + (b + (c + (d + (e + r))))
  {
    Associate(a, b + (c + (d + e)), r);
    Nest3(b, c, d, e, r);
  }

  lemma OptWordPrefix(a: Option<u64>, b: Option<u64>, r: seq<Symbol>, s: seq<Symbol>)
    requires OptWord(a) + r == OptWord(b) + s
    ensures a == b && r == s
  {
    var x := if a.Some? then Le64(a.value) else [];
    var y := if b.Some? then Le64(b.value) else [];
    TagPrefix(Tag(a), x, r, Tag(b), y, s);
    if a.Some? {
      Le64Prefix(a.value, b.value, r, s);
    } else {
      SplitAt([], r, [], s);
    }
  }

  lemma OptFieldPrefix(a: Option<Str>, b: Option<Str>, r: seq<Symbol>, s: seq<Symbol>)
    requires OptField(a) + r == OptField(b) + s
    ensures a == b && r == s
  {
    var x := if a.Some? then StrField(a.value) else [];
    var y := if b.Some? then StrField(b.value) else [];
    TagPrefix(Tag(a), x, r, Tag(b), y, s);
    if a.Some? {
      StrFieldPrefix(a.value, b.value, r, s);
    } else {
      SplitAt([], r, [], s);
    }
  }

  /** `text` says where it ends, and what it shows of an item is what `same` compares. */
  ghost predicate SelfDelimiting<T(!new)>(text: T -> seq<Symbol>, same: (T, T) -> bool) {
    forall x, y, r, s | text(x) + r == text(y) + s :: same(x, y) && r == s
  }

  lemma {:induction false} ListingPrefix<T(!new)>(a: seq<T>, b: seq<T>, text: T -> seq<Symbol>, same: (T, T) -> bool,
                                                  r: seq<Symbol>, s: seq<Symbol>)
    requires SelfDelimiting(text, same)
    requires |a| == |b| && Listing(a, text) + r == Listing(b, text) + s
    ensures AllSame(a, b, same) && r == s
  {
    if a == [] {
      SplitAt([], r, [], s);
    } else {
      var x, y := Listing(a[1..], text) + r, Listing(b[1..], text) + s;
      Associate(text(a[0]), Listing(a[1..], text), r);
      Associate(text(b[0]), Listing(b[1..], text), s);
      assert text(a[0]) + x == text(b[0]) + y;
      ListingPrefix(a[1..], b[1..], text, same, r, s);
      AllSameCons(a, b, same);
    }
  }

  lemma {:induction false} ListingSame<T(!new)>(a: seq<T>, b: seq<T>, text: T -> seq<Symbol>, same: (T, T) -> bool)
    requires forall x, y | same(x, y) :: text(x) == text(y)
    requires AllSame(a, b, same)
    ensures Listing(a, text) == Listing(b, text)
  {
    if a != [] {
      assert same(a[0], b[0]);
      AllSameTail(a, b, same);
      ListingSame(a[1..], b[1..], text, same);
    }
  }

  predicate SameStr(a: Str, b: Str) {
    a == b
  }

  lemma StrListPrefix(a: seq<Str>, b: seq<Str>, r: seq<Symbol>, s: seq<Symbol>)
    requires |a| == |b| && Listing(a, StrField) + r == Listing(b, StrField) + s
    ensures a == b && r == s
  {
    forall x: Str, y: Str, t, u | StrField(x) + t == StrField(y) + u
      ensures SameStr(x, y) && t == u
    {
      StrFieldPrefix(x, y, t, u);
    }
    ListingPrefix(a, b, StrField, SameStr, r, s);
  }

  function HexText(h: Hash): Text {
    assert [Hex(h)][1..] == [] && Width([Hex(h)]) == 64 + Width([Hex(h)][1..]);
    [Hex(h)]
  }

  lemma HexInjective(h: Hash, k: Hash)
    ensures HexText(h) == HexText(k) <==> h == k
  {
    assert HexText(h)[0] == Hex(h) && HexText(k)[0] == Hex(k);
  }

  // -- The hasher ---------------------------------------------------------------------

  /** A running hash: what it has absorbed. */
  class Hasher {
    var absorbed: seq<Symbol>

    constructor (domain: string)
      ensures absorbed == Domain(domain)
    {
      absorbed := Domain(domain);
    }

    /** Absorb `t`, of which `rest` is still to come. */
    method Update(t: seq<Symbol>, ghost rest: seq<Symbol>)
      modifies this
      ensures absorbed == old(absorbed) + t
      ensures absorbed + rest == old(absorbed) + (t + rest)
    {
      Associate(absorbed, t, rest);
      absorbed := absorbed + t;
    }

    method UpdateEach<T>(items: seq<T>, text: T -> seq<Symbol>, ghost rest: seq<Symbol>)
      modifies this
      ensures absorbed == old(absorbed) + Listing(items, text)
      ensures absorbed + rest == old(absorbed) + (Listing(items, text) + rest)
    {
      ghost var before := absorbed;
      for i := 0 to |items|
        invariant absorbed == before + Listing(items[..i], text)
      {
        ListingSnoc(items[..i], items[i], text);
        TakeSnoc(items, i);
        Associate(before, Listing(items[..i], text), text(items[i]));
        absorbed := absorbed + text(items[i]);
      }
      assert items[..|items|] == items;
      Associate(before, Listing(items, text), rest);
    }

    method Finalize() returns (h: Hash)
      ensures h == Sha256(absorbed)
    {
      h := Sha256(absorbed);
    }
  }

  lemma {:induction false} ListingSnoc<T>(items: seq<T>, x: T, text: T -> seq<Symbol>)
    ensures Listing(items + [x], text) == Listing(items, text) + text(x)
  {
    if items == [] {
      assert items + [x] == [x] && [x][1..] == [];
      assert text(x) + [] == text(x);
    } else {
      assert (items + [x])[0] == items[0] && (items + [x])[1..] == items[1..] + [x];
      ListingSnoc(items[1..], x, text);
      Associate(text(items[0]), Listing(items[1..], text), text(x));
    }
  }

  // -- Anchors ------------------------------------------------------------------------

  /** A trust anchor: its identifier, its public key and whether it holds the private key. */
  datatype TrustAnchor = TrustAnchor(did: Str, key: PublicKey, signs: bool)

  datatype AnchorError = NoPrivateKey

  function Sign(anchor: TrustAnchor, message: Hash): Result<Text, AnchorError> {
    if anchor.signs then Ok(SignatureText(anchor.key, message)) else Err(NoPrivateKey)
  }

  /** A signature as text; nothing depends on the length chosen here. */
  function SignatureText(key: PublicKey, message: Hash): (t: Text)
    ensures Verifies(key, message, t)
  {
    var t := [Signature(key, message, 87)];
    assert t[1..] == [] && Width(t) == 88 + Width(t[1..]);
    t
  }

  predicate Verifies(key: PublicKey, message: Hash, signature: Text) {
    |signature| == 1 && signature[0].Signature? && signature[0].key == key && signature[0].message == message
  }

  /** A string of bytes as characters; base58 text and `did:key:` are ASCII. */
  function Characters(s: seq<byte>): string {
    seq(|s|, i requires 0 <= i < |s| => s[i] as char)
  }

  function KeyOfDid(did: seq<byte>): Result<PublicKey, KeyError> {
    FromDidKey(Characters(did))
  }

  /** How an identifier is parsed into the key it carries. */
  type KeyParser = Str -> Option<PublicKey>

  /** An anchor whose identifier is parsed into its key. */
  predicate Certified(keys: KeyParser, anchor: TrustAnchor) {
    keys(anchor.did) == Some(anchor.key)
  }

  /** The parser of `did:key` identifiers. */
  function DidKeys(did: Str): Option<PublicKey> {
    match KeyOfDid(did)
    case Ok(key) => Some(key)
    case Err(_) => None
  }

  lemma CharactersInjective(a: seq<byte>, b: seq<byte>)
    requires Characters(a) == Characters(b)
    ensures a == b
  {
    assert |a| == |b|;
    forall i | 0 <= i < |a|
      ensures a[i] == b[i]
    {
      assert Characters(a)[i] == Characters(b)[i];
      assert a[i] as char as int == a[i] && b[i] as char as int == b[i];
    }
  }

  /** A `did:key` names one key, and one key has one `did:key`. */
  lemma CertifiedKey(a: TrustAnchor, b: TrustAnchor)
    requires Certified(DidKeys, a) && Certified(DidKeys, b)
    ensures a.did == b.did <==> a.key == b.key
  {
    FromDidKeyExact(Characters(a.did), a.key);
    FromDidKeyExact(Characters(b.did), b.key);
    if a.key == b.key {
      CharactersInjective(a.did, b.did);
    }
  }
}
