/** The base58 encoder behind `did:key` identifiers, proved against positional notation,
    and the decoding of base58 text that inverts it. */
module Base58 {
  import opened Wrappers

  /** The digits and letters without `0`, `I`, `O` and `l`. */
  const ALPHABET: string :=
    "123456789" + "ABCDEFGH" + "JKLMN" + "PQRSTUVWXYZ" + "abcdefghijk" + "mnopqrstuvwxyz"

  type Base = b: int | b == 58 || b == 256 witness 58

  // -- Positional notation, most significant digit first --------------------------------

  function ValueOf(ds: seq<int>, base: Base): int {
    if ds == [] then 0
    else if base == 58 then ValueOf(ds[..|ds| - 1], base) * 58 + ds[|ds| - 1]
    else ValueOf(ds[..|ds| - 1], base) * 256 + ds[|ds| - 1]
  }

  /** The digits of `n` without leading zeros: none for zero. */
  function DigitsOf(n: nat, base: Base): (ds: seq<int>)
    ensures forall i | 0 <= i < |ds| :: 0 <= ds[i] < base
    ensures n > 0 ==> |ds| > 0 && ds[0] != 0
    ensures n == 0 ==> ds == []
    decreases n
  {
    if n == 0 then []
    else if base == 58 then DigitsOf(n / 58, base) + [n % 58]
    else DigitsOf(n / 256, base) + [n % 256]
  }

  predicate AreDigits(ds: seq<int>, base: Base) {
    forall i | 0 <= i < |ds| :: 0 <= ds[i] < base
  }

  lemma {:induction false} ValueNonNegative(ds: seq<int>, base: Base)
    requires AreDigits(ds, base)
    ensures ValueOf(ds, base) >= 0
    ensures |ds| > 0 && ds[0] != 0 ==> ValueOf(ds, base) > 0
  {
    if ds != [] {
      ValueNonNegative(ds[..|ds| - 1], base);
    }
  }

  lemma {:induction false} ValueOfDigits(n: nat, base: Base)
    ensures ValueOf(DigitsOf(n, base), base) == n
    decreases n
  {
    if n > 0 {
      var q := if base == 58 then n / 58 else n / 256;
      ValueOfDigits(q, base);
      var ds := DigitsOf(n, base);
      assert ds[..|ds| - 1] == DigitsOf(q, base);
    }
  }

  /** Digits without a leading zero are the digits of their value. */
  lemma {:induction false} DigitsOfValue(ds: seq<int>, base: Base)
    requires AreDigits(ds, base) && (ds == [] || ds[0] != 0)
    ensures ValueOf(ds, base) >= 0 && DigitsOf(ValueOf(ds, base), base) == ds
  {
    ValueNonNegative(ds, base);
    if ds != [] {
      var init := ds[..|ds| - 1];
      DigitsOfValue(init, base);
      assert ds == init + [ds[|ds| - 1]];
      var v, d, n := ValueOf(init, base), ds[|ds| - 1], ValueOf(ds, base);
      if base == 58 {
        assert n == v * 58 + d && n / 58 == v && n % 58 == d;
      } else {
        assert n == v * 256 + d && n / 256 == v && n % 256 == d;
      }
    }
  }

  function Repeat(x: int, k: nat): (s: seq<int>)
    ensures |s| == k && forall i | 0 <= i < k :: s[i] == x
  {
    seq(k, _ => x)
  }

  function LeadingZeros(ds: seq<int>): (k: nat)
    ensures k <= |ds|
    ensures forall i | 0 <= i < k :: ds[i] == 0
    ensures k < |ds| ==> ds[k] != 0
  {
    if ds == [] || ds[0] != 0 then 0 else 1 + LeadingZeros(ds[1..])
  }

  lemma {:induction false} ValueSkipsZeros(k: nat, ds: seq<int>, base: Base)
    ensures ValueOf(Repeat(0, k) + ds, base) == ValueOf(ds, base)
    decreases |ds|, k
  {
    var s := Repeat(0, k) + ds;
    if ds != [] {
      assert s[..|s| - 1] == Repeat(0, k) + ds[..|ds| - 1];
      ValueSkipsZeros(k, ds[..|ds| - 1], base);
    } else if k > 0 {
      assert s[..|s| - 1] == Repeat(0, k - 1) + ds;
      ValueSkipsZeros(k - 1, ds, base);
    }
  }

  lemma {:induction false} LeadingZerosExact(k: nat, ds: seq<int>)
    requires ds == [] || ds[0] != 0
    ensures LeadingZeros(Repeat(0, k) + ds) == k
  {
    var s := Repeat(0, k) + ds;
    if k == 0 {
      assert s == ds;
    } else {
      assert s[1..] == Repeat(0, k - 1) + ds;
      LeadingZerosExact(k - 1, ds);
    }
  }

  // -- Characters --------------------------------------------------------------------

  /** The digit a character stands for. */
  function CharValue(c: char): Option<int> {
    var n := c as int;
    if '1' <= c <= '9' then Some(n - '1' as int)
    else if 'A' <= c <= 'H' then Some(n - 'A' as int + 9)
    else if 'J' <= c <= 'N' then Some(n - 'J' as int + 17)
    else if 'P' <= c <= 'Z' then Some(n - 'P' as int + 22)
    else if 'a' <= c <= 'k' then Some(n - 'a' as int + 33)
    else if 'm' <= c <= 'z' then Some(n - 'm' as int + 44)
    else None
  }

  predicate Consecutive(s: string, start: char) {
    forall i | 0 <= i < |s| :: s[i] as int == start as int + i
  }

  lemma AlphabetIsConsecutive()
    ensures Consecutive("123456789", '1') && Consecutive("ABCDEFGH", 'A') && Consecutive("JKLMN", 'J')
    ensures Consecutive("PQRSTUVWXYZ", 'P') && Consecutive("abcdefghijk", 'a') && Consecutive("mnopqrstuvwxyz", 'm')
  {
  }

  lemma CharOfValue(d: int)
    requires 0 <= d < 58
    ensures CharValue(ALPHABET[d]) == Some(d)
  {
    Segments(d);
    AlphabetIsConsecutive();
  }

  lemma Segments(d: int)
    requires 0 <= d < 58
    ensures ALPHABET[d] ==
      if d < 9 then "123456789"[d]
      else if d < 17 then "ABCDEFGH"[d - 9]
      else if d < 22 then "JKLMN"[d - 17]
      else if d < 33 then "PQRSTUVWXYZ"[d - 22]
      else if d < 44 then "abcdefghijk"[d - 33]
      else "mnopqrstuvwxyz"[d - 44]
  {
  }

  lemma ValueOfChar(c: char)
    requires CharValue(c).Some?
    ensures 0 <= CharValue(c).value < 58 && ALPHABET[CharValue(c).value] == c
  {
    var d := CharValue(c).value;
    CharOfValue(d);
    assert CharValue(c) == CharValue(ALPHABET[d]);
  }

  function Chars(ds: seq<int>): (s: string)
    requires AreDigits(ds, 58)
    ensures |s| == |ds|
  {
    seq(|ds|, i requires 0 <= i < |ds| => ALPHABET[ds[i]])
  }

  // -- Encoding ----------------------------------------------------------------------

  /** The digits the encoder emits: one zero per leading zero byte, then the digits of the
      value, and one digit zero when the value is zero. */
  ghost function EncodedDigits(input: seq<byte>): (ds: seq<int>)
    ensures AreDigits(ds, 58)
  {
    ValueNonNegative(input, 256);
    var v := ValueOf(input, 256);
    Repeat(0, LeadingZeros(input)) + (if v == 0 then [0] else DigitsOf(v, 58))
  }

  ghost function EncodedText(input: seq<byte>): string {
    Chars(EncodedDigits(input))
  }

  /** The value of digits stored least significant first. */
  ghost function LittleEndian(ds: seq<int>): int {
    if ds == [] then 0 else ds[0] + 58 * LittleEndian(ds[1..])
  }

  ghost function Spill(carry: nat): (ds: seq<int>)
    ensures AreDigits(ds, 58)
    ensures carry > 0 ==> ds != [] && ds[|ds| - 1] != 0
  {
    if carry == 0 then [] else [carry % 58] + Spill(carry / 58)
  }

  lemma {:induction false} SpillValue(carry: nat)
    ensures LittleEndian(Spill(carry)) == carry
  {
    if carry > 0 {
      SpillValue(carry / 58);
      assert Spill(carry)[1..] == Spill(carry / 58);
    }
  }

  /** The digits of `256 * ds + carry`, by one pass over `ds` from index `i` on. */
  ghost function Absorb(ds: seq<int>, i: nat, carry: nat): (r: seq<int>)
    requires AreDigits(ds, 58) && i <= |ds|
    decreases |ds| - i
  {
    if i == |ds| then Spill(carry)
    else
      var c := carry + ds[i] * 256;
      [c % 58] + Absorb(ds, i + 1, c / 58)
  }

  lemma ConsDigits(x: int, t: seq<int>)
    requires 0 <= x < 58 && AreDigits(t, 58)
    ensures AreDigits([x] + t, 58) && (t != [] ==> ([x] + t)[|t|] == t[|t| - 1])
  {
  }

  lemma LastCarry(ds: seq<int>, carry: nat)
    requires AreDigits(ds, 58) && ds != [] && ds[|ds| - 1] != 0
    ensures (carry + ds[|ds| - 1] * 256) / 58 > 0
  {
    var c := carry + ds[|ds| - 1] * 256;
    assert c >= 256;
  }

  /** The first digit of a pass is what the carry leaves; the quotient is handed on. */
  lemma AbsorbFirst(ds: seq<int>, i: nat, carry: nat) returns (q: nat, r: int)
    requires AreDigits(ds, 58) && i < |ds|
    ensures 0 <= r < 58 && 58 * q + r == carry + ds[i] * 256 && q == (carry + ds[i] * 256) / 58
    ensures Absorb(ds, i, carry) == [r] + Absorb(ds, i + 1, q)
  {
    var c := carry + ds[i] * 256;
    q, r := c / 58, c % 58;
  }

  lemma CarriedValue(carry: int, d: int, rest: int, q: int, r: int)
    requires 58 * q + r == carry + d * 256
    ensures r + 58 * (256 * rest + q) == 256 * (d + 58 * rest) + carry
  {
  }

  lemma LittleEndianCons(x: int, t: seq<int>)
    ensures LittleEndian([x] + t) == x + 58 * LittleEndian(t)
  {
    assert ([x] + t)[1..] == t;
  }

  lemma {:induction false} AbsorbDigits(ds: seq<int>, i: nat, carry: nat)
    requires AreDigits(ds, 58) && i <= |ds|
    ensures AreDigits(Absorb(ds, i, carry), 58)
    ensures i < |ds| && ds[|ds| - 1] != 0 ==> Absorb(ds, i, carry)[|Absorb(ds, i, carry)| - 1] != 0
    ensures |Absorb(ds, i, carry)| >= |ds| - i
    decreases |ds| - i
  {
    if i < |ds| {
      var q, r := AbsorbFirst(ds, i, carry);
      AbsorbDigits(ds, i + 1, q);
      ConsDigits(r, Absorb(ds, i + 1, q));
      if i + 1 == |ds| && ds[i] != 0 {
        LastCarry(ds, carry);
      }
    }
  }

  lemma {:induction false} AbsorbValue(ds: seq<int>, i: nat, carry: nat)
    requires AreDigits(ds, 58) && i <= |ds|
    ensures LittleEndian(Absorb(ds, i, carry)) == 256 * LittleEndian(ds[i..]) + carry
    decreases |ds| - i
  {
    if i < |ds| {
      var q, r := AbsorbFirst(ds, i, carry);
      AbsorbValue(ds, i + 1, q);
      LittleEndianCons(r, Absorb(ds, i + 1, q));
      assert ds[i..] == [ds[i]] + ds[i + 1..];
      LittleEndianCons(ds[i], ds[i + 1..]);
      CarriedValue(carry, ds[i], LittleEndian(ds[i + 1..]), q, r);
    } else {
      SpillValue(carry);
      assert ds[i..] == [];
    }
  }

  /** Digits with no zero in front, or the single digit zero. */
  ghost predicate Numeral(ds: seq<int>) {
    ds != [] && AreDigits(ds, 58) && (ds == [0] || ds[|ds| - 1] != 0)
  }

  lemma AbsorbNumeral(ds: seq<int>, b: byte)
    requires Numeral(ds)
    ensures Numeral(Absorb(ds, 0, b))
    ensures LittleEndian(Absorb(ds, 0, b)) == 256 * LittleEndian(ds) + b
  {
    AbsorbValue(ds, 0, b);
    AbsorbDigits(ds, 0, b);
    assert ds[0..] == ds;
    if ds == [0] {
      assert Absorb(ds, 0, b) == [b % 58] + Absorb(ds, 1, b / 58);
    }
  }

  function Reverse(ds: seq<int>): (r: seq<int>)
    ensures |r| == |ds| && forall i | 0 <= i < |ds| :: r[i] == ds[|ds| - 1 - i]
  {
    if ds == [] then [] else Reverse(ds[1..]) + [ds[0]]
  }

  lemma {:induction false} ReverseValue(ds: seq<int>)
    ensures ValueOf(Reverse(ds), 58) == LittleEndian(ds)
  {
    if ds != [] {
      ReverseValue(ds[1..]);
      var r := Reverse(ds);
      assert r[..|r| - 1] == Reverse(ds[1..]);
    }
  }

  lemma NumeralDigits(ds: seq<int>)
    requires Numeral(ds)
    ensures LittleEndian(ds) >= 0
    ensures Reverse(ds) == if LittleEndian(ds) == 0 then [0] else DigitsOf(LittleEndian(ds), 58)
  {
    ReverseValue(ds);
    var r := Reverse(ds);
    if ds == [0] {
      assert LittleEndian(ds) == 0 + 58 * LittleEndian([]);
    } else {
      assert r[0] != 0;
      DigitsOfValue(r, 58);
      ValueNonNegative(r, 58);
    }
  }

  lemma AbsorbStep(done: seq<int>, ds: seq<int>, i: nat, carry: nat)
    requires AreDigits(ds, 58) && i < |ds|
    ensures var c := carry + ds[i] * 256;
      done + Absorb(ds, i, carry) == (done + [c % 58]) + Absorb(ds, i + 1, c / 58)
  {
  }

  lemma UpdatePrefix(ds: seq<int>, i: nat, x: int)
    requires i < |ds|
    ensures ds[i := x][..i + 1] == ds[..i] + [x]
  {
  }

  lemma CarryFits(carry: int, digit: int)
    requires 0 <= carry <= 255 && 0 <= digit < 58
    ensures 0 <= carry + digit * 256 < 0x1_0000_0000 && 0 <= (carry + digit * 256) / 58 <= 255
  {
  }

  /** One digit of the pass: what is written, what is left and what the carry becomes. */
  lemma AbsorbNext(digits: seq<int>, before: seq<int>, i: nat, carry: int, whole: seq<int>)
    requires AreDigits(before, 58) && i < |before| == |digits| && 0 <= carry <= 255
    requires digits[i..] == before[i..] && digits[..i] + Absorb(before, i, carry) == whole
    ensures var c := carry + digits[i] * 256;
      && 0 <= c < 0x1_0000_0000 && 0 <= c / 58 <= 255
      && digits[i := c % 58][i + 1..] == before[i + 1..]
      && digits[i := c % 58][..i + 1] + Absorb(before, i + 1, c / 58) == whole
  {
    assert digits[i] == digits[i..][0] == before[i];
    CarryFits(carry, before[i]);
    var c := carry + before[i] * 256;
    assert digits[i := c % 58][i + 1..] == digits[i..][1..];
    AbsorbStep(digits[..i], before, i, carry);
    UpdatePrefix(digits, i, c % 58);
  }

  method AbsorbDigit(digits: seq<u32>, i: nat, carry: u32, ghost before: seq<int>, ghost whole: seq<int>)
    returns (next: seq<u32>, left: u32)
    requires AreDigits(before, 58) && i < |before| == |digits| && carry <= 255
    requires digits[i..] == before[i..] && digits[..i] + Absorb(before, i, carry) == whole
    ensures |next| == |digits| && left <= 255
    ensures next[i + 1..] == before[i + 1..] && next[..i + 1] + Absorb(before, i + 1, left) == whole
  {
    AbsorbNext(digits, before, i, carry, whole);
    left := carry + digits[i] * 256;
    next := digits[i := left % 58];
    left := left / 58;
  }

  /** Multiplies the number in `digits` by 256 and adds `b`, in place. */
  method AbsorbByte(before: seq<u32>, b: byte) returns (digits: seq<u32>)
    requires Numeral(before)
    ensures digits == Absorb(before, 0, b)
  {
    digits := before;
    var carry: u32 := b;
    ghost var whole := Absorb(before, 0, b);
    for i := 0 to |digits|
      invariant |digits| == |before| && carry <= 255
      invariant digits[i..] == before[i..] && digits[..i] + Absorb(before, i, carry) == whole
    {
      digits, carry := AbsorbDigit(digits, i, carry, before, whole);
    }
    assert digits[..|digits|] == digits;
    digits := PushCarry(digits, carry);
  }

  method PushCarry(before: seq<u32>, carry: u32) returns (digits: seq<u32>)
    ensures digits == before + Spill(carry)
  {
    digits := before;
    var left: u32 := carry;
    while left > 0
      invariant digits + Spill(left) == before + Spill(carry)
    {
      assert digits + ([left % 58] + Spill(left / 58)) == (digits + [left % 58]) + Spill(left / 58);
      digits := digits + [left % 58];
      left := left / 58;
    }
    assert digits + [] == digits;
  }

  lemma ReverseNext(zeros: seq<int>, digits: seq<int>, i: nat)
    requires i < |digits|
    ensures zeros + Reverse(digits[i..]) == (zeros + Reverse(digits[i + 1..])) + [digits[i]]
  {
    assert digits[i..][0] == digits[i] && digits[i..][1..] == digits[i + 1..];
  }

  method Encode(input: seq<byte>) returns (result: string)
    ensures result == EncodedText(input)
  {
    var digits: seq<u32> := [0];
    for n := 0 to |input|
      invariant Numeral(digits) && LittleEndian(digits) == ValueOf(input[..n], 256)
    {
      AbsorbNumeral(digits, input[n]);
      digits := AbsorbByte(digits, input[n]);
      assert input[..n + 1][..n] == input[..n];
    }
    assert input[..|input|] == input;
    result := "";
    for i := 0 to LeadingZeros(input)
      invariant result == Chars(Repeat(0, i))
    {
      result := result + [ALPHABET[0]];
      OneMoreZero(i);
    }
    var zeros := Repeat(0, LeadingZeros(input));
    for i := |digits| downto 0
      invariant result == Chars(zeros + Reverse(digits[i..]))
    {
      ReverseNext(zeros, digits, i);
      result := result + [ALPHABET[digits[i]]];
    }
    NumeralDigits(digits);
    assert digits[0..] == digits;
  }

  // -- Decoding ----------------------------------------------------------------------

  function CharValues(s: string): (r: Option<seq<int>>)
    ensures r.Some? ==> |r.value| == |s| && AreDigits(r.value, 58)
  {
    if s == "" then Some([])
    else if CharValue(s[0]).None? then None
    else
      match CharValues(s[1..])
      case None => None
      case Some(ds) => Some([CharValue(s[0]).value] + ds)
  }

  /** The bytes a base58 text denotes: a zero byte per leading `1`, then the bytes of the
      value of the whole. */
  function Decode(s: string): Option<seq<byte>> {
    match CharValues(s)
    case None => None
    case Some(ds) =>
      ValueNonNegative(ds, 58);
      Some(Repeat(0, LeadingZeros(ds)) + DigitsOf(ValueOf(ds, 58), 256))
  }

  lemma {:induction false} CharValuesOfChars(ds: seq<int>)
    requires AreDigits(ds, 58)
    ensures CharValues(Chars(ds)) == Some(ds)
  {
    if ds != [] {
      CharOfValue(ds[0]);
      CharValuesOfChars(ds[1..]);
      assert Chars(ds)[1..] == Chars(ds[1..]);
      assert ds == [ds[0]] + ds[1..];
    }
  }

  lemma {:induction false} CharsOfCharValues(s: string)
    requires CharValues(s).Some?
    ensures Chars(CharValues(s).value) == s
  {
    if s != "" {
      var ds := CharValues(s).value;
      ValueOfChar(s[0]);
      CharsOfCharValues(s[1..]);
      assert ds[1..] == CharValues(s[1..]).value;
      assert Chars(ds)[1..] == Chars(ds[1..]);
      assert s == [s[0]] + s[1..] && Chars(ds) == [Chars(ds)[0]] + Chars(ds)[1..];
    }
  }

  /** A digit string is its leading zeros and the digits of its value. */
  lemma ZerosThenDigits(ds: seq<int>, base: Base)
    requires AreDigits(ds, base)
    ensures ValueOf(ds, base) >= 0
    ensures ds == Repeat(0, LeadingZeros(ds)) + DigitsOf(ValueOf(ds, base), base)
    ensures ValueOf(ds, base) == 0 <==> LeadingZeros(ds) == |ds|
  {
    var k := LeadingZeros(ds);
    var tail := ds[k..];
    assert ds == Repeat(0, k) + tail;
    ValueSkipsZeros(k, tail, base);
    DigitsOfValue(tail, base);
    ValueNonNegative(tail, base);
  }

  lemma ZerosAndDigitsOf(k: nat, n: nat, base: Base)
    ensures var ds := Repeat(0, k) + DigitsOf(n, base);
      AreDigits(ds, base) && ValueOf(ds, base) == n && LeadingZeros(ds) == k
  {
    var ds := DigitsOf(n, base);
    ValueSkipsZeros(k, ds, base);
    ValueOfDigits(n, base);
    LeadingZerosExact(k, ds);
  }

  predicate HasNonZero(input: seq<byte>) {
    exists i | 0 <= i < |input| :: input[i] != 0
  }

  lemma DecodeEncodedPositive(input: seq<byte>)
    requires ValueOf(input, 256) > 0
    ensures Decode(EncodedText(input)) == Some(input)
  {
    var v, k := ValueOf(input, 256), LeadingZeros(input);
    ZerosThenDigits(input, 256);
    CharValuesOfChars(EncodedDigits(input));
    ZerosAndDigitsOf(k, v, 58);
  }

  lemma ZerosOnly(k: nat, base: Base)
    ensures AreDigits(Repeat(0, k), base) && ValueOf(Repeat(0, k), base) == 0 && LeadingZeros(Repeat(0, k)) == k
  {
    var none: seq<int> := [];
    ValueSkipsZeros(k, none, base);
    LeadingZerosExact(k, none);
    assert Repeat(0, k) + none == Repeat(0, k);
  }

  lemma DecodeZeros(k: nat)
    ensures AreDigits(Repeat(0, k), 58) && Decode(Chars(Repeat(0, k))) == Some(Repeat(0, k))
  {
    ZerosOnly(k, 58);
    CharValuesOfChars(Repeat(0, k));
    assert Repeat(0, k) + DigitsOf(ValueOf(Repeat(0, k), 58), 256) == Repeat(0, k);
  }

  lemma OneMoreZero(k: nat)
    ensures Repeat(0, k) + [0] == Repeat(0, k + 1)
  {
  }

  lemma EncodedZeros(input: seq<byte>)
    requires ValueOf(input, 256) == 0
    ensures EncodedDigits(input) == Repeat(0, |input| + 1)
  {
    ZerosThenDigits(input, 256);
    OneMoreZero(|input|);
  }

  lemma DecodeEncodedZero(input: seq<byte>)
    requires ValueOf(input, 256) == 0
    ensures Decode(EncodedText(input)) == Some(Repeat(0, |input| + 1))
  {
    EncodedZeros(input);
    DecodeZeros(|input| + 1);
  }

  lemma NonZeroValue(input: seq<byte>)
    ensures ValueOf(input, 256) >= 0
    ensures HasNonZero(input) <==> ValueOf(input, 256) > 0
  {
    ZerosThenDigits(input, 256);
    var k := LeadingZeros(input);
    if k < |input| {
      assert input[k] != 0;
    }
  }

  /** Decoding inverts encoding exactly on inputs with a non-zero byte: on all others the
      encoder emits one `1` too many. */
  lemma DecodeEncoded(input: seq<byte>)
    ensures Decode(EncodedText(input)) == Some(input) <==> HasNonZero(input)
  {
    NonZeroValue(input);
    if HasNonZero(input) {
      DecodeEncodedPositive(input);
    } else {
      DecodeEncodedZero(input);
      assert |Repeat(0, |input| + 1)| == |input| + 1;
    }
  }

  /** A text that decodes to such an input is the one the encoder writes for it. */
  lemma EncodedDecoded(s: string)
    requires Decode(s).Some? && HasNonZero(Decode(s).value)
    ensures EncodedText(Decode(s).value) == s
  {
    var ds := CharValues(s).value;
    ZerosThenDigits(ds, 58);
    var k, v, input := LeadingZeros(ds), ValueOf(ds, 58), Decode(s).value;
    ZerosAndDigitsOf(k, v, 256);
    NonZeroValue(input);
    CharsOfCharValues(s);
  }

  // -- The text is short and ASCII ----------------------------------------------------

  lemma {:induction false} LongerValueMoreDigits(m: nat, n: nat)
    requires m <= n
    ensures |DigitsOf(m, 58)| <= |DigitsOf(n, 58)|
    decreases n
  {
    if n > 0 && m > 0 {
      LongerValueMoreDigits(m / 58, n / 58);
    }
  }

  /** One more byte takes at most two more digits. */
  lemma ByteTakesTwoDigits(u: nat, b: byte)
    ensures |DigitsOf(256 * u + b, 58)| <= |DigitsOf(u, 58)| + 2
  {
    var w := 58 * u + 57;
    LongerValueMoreDigits(256 * u + b, 58 * w + 57);
    assert (58 * w + 57) / 58 == w && w / 58 == u;
    assert |DigitsOf(58 * w + 57, 58)| == |DigitsOf(w, 58)| + 1 == |DigitsOf(u, 58)| + 2;
  }

  lemma {:induction false} DigitsOfBytes(input: seq<byte>)
    ensures ValueOf(input, 256) >= 0 && |DigitsOf(ValueOf(input, 256), 58)| <= 2 * |input|
  {
    if input != [] {
      DigitsOfBytes(input[..|input| - 1]);
      ByteTakesTwoDigits(ValueOf(input[..|input| - 1], 256), input[|input| - 1]);
    }
  }

  lemma EncodedIsShort(input: seq<byte>)
    ensures |EncodedText(input)| <= 3 * |input| + 1
  {
    DigitsOfBytes(input);
  }

  lemma EncodedIsAscii(input: seq<byte>)
    ensures forall c | c in EncodedText(input) :: c as int < 128
  {
    forall c | c in EncodedText(input)
      ensures c as int < 128
    {
      var ds := EncodedDigits(input);
      var i :| 0 <= i < |ds| && Chars(ds)[i] == c;
      CharOfValue(ds[i]);
    }
  }
}
