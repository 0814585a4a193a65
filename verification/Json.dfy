/** JSON values as the canonicalizer and the structural comparison receive them, and what
    a value means once every way of spelling it has been forgotten.

    A string is a sequence of Unicode scalar values. A number keeps the three shapes of the
    parser's number type: an unsigned 64-bit integer, a negative 64-bit integer, or a
    double. A finite non-zero double is represented by its shortest round-tripping digits
    and decimal exponent. */
module Json {

  /** The largest integer such that it and every smaller one are distinct doubles. */
  const MAX_SAFE_INTEGER: int := 0x1F_FFFF_FFFF_FFFF

  predicate IsDigit(c: char) {
    '0' <= c <= '9'
  }

  predicate AllDigits(s: string) {
    forall c | c in s :: IsDigit(c)
  }

  /** A digit string with no zero at either end. */
  predicate Significant(s: string) {
    |s| > 0 && AllDigits(s) && s[0] != '0' && s[|s| - 1] != '0'
  }

  type Digits = s: string | Significant(s) witness "1"
  type Unsigned = n: int | 0 <= n < 0x1_0000_0000_0000_0000
  type Negative = n: int | -0x8000_0000_0000_0000 <= n < 0 witness -1

  /** `Finite(s, d, e)` is `d[0].d[1]d[2]...` times ten to the `e`, negated when `s`. */
  datatype Double =
    | NaN
    | Infinite(negative: bool)
    | ZeroDouble(negative: bool)
    | Finite(negative: bool, digits: Digits, exp10: int)

  datatype Number = PosInt(u: Unsigned) | NegInt(i: Negative) | Float(f: Double)

  datatype Value =
    | Null
    | Bool(b: bool)
    | String(s: string)
    | Num(n: Number)
    | Array(items: seq<Value>)
    | Object(fields: map<string, Value>)

  /** An exact decimal: `Dec(s, d, p)` is `0.d` times ten to the `p`, negated when `s`. */
  datatype Decimal = DecZero | Dec(negative: bool, digits: Digits, point: int)

  /** A value up to spelling: numbers by the decimal they denote, objects by their fields. */
  datatype Meaning =
    | MNull
    | MBool(b: bool)
    | MString(s: string)
    | MNumber(d: Decimal)
    | MArray(items: seq<Meaning>)
    | MObject(fields: map<string, Meaning>)

  // -- Decimal text of a natural number ------------------------------------------

  function DigitChar(d: nat): (c: char)
    requires d < 10
    ensures IsDigit(c)
  {
    ('0' as int + d) as char
  }

  function DigitValue(c: char): (d: nat)
    requires IsDigit(c)
    ensures d < 10
  {
    c as int - '0' as int
  }

  function NatText(n: nat): (s: string)
    ensures |s| > 0 && AllDigits(s)
    ensures s[0] == '0' ==> n == 0 && |s| == 1
  {
    if n < 10 then [DigitChar(n)] else NatText(n / 10) + [DigitChar(n % 10)]
  }

  function NatValue(s: string): nat
    requires AllDigits(s)
  {
    if s == "" then 0 else 10 * NatValue(s[..|s| - 1]) + DigitValue(s[|s| - 1])
  }

  lemma {:induction false} NatTextDenotes(n: nat)
    ensures NatValue(NatText(n)) == n
  {
    var s := NatText(n);
    if n >= 10 {
      NatTextDenotes(n / 10);
      assert s[..|s| - 1] == NatText(n / 10);
    } else {
      assert s[..0] == "";
    }
  }

  lemma NatTextInjective(m: nat, n: nat)
    requires NatText(m) == NatText(n)
    ensures m == n
  {
    NatTextDenotes(m);
    NatTextDenotes(n);
  }

  function IntText(i: int): string {
    if i < 0 then "-" + NatText(-i) else NatText(i)
  }

  // -- The decimal a digit string denotes -----------------------------------------

  function TrimRight(s: string): (t: string)
    ensures |t| <= |s| && t == s[..|t|]
    ensures |t| > 0 ==> t[|t| - 1] != '0'
    ensures forall i | |t| <= i < |s| :: s[i] == '0'
  {
    if |s| > 0 && s[|s| - 1] == '0' then TrimRight(s[..|s| - 1]) else s
  }

  /** The decimal `0.ds` times ten to the `point`, with its insignificant zeros removed. */
  function MakeDecimal(negative: bool, ds: string, point: int): Decimal
    requires AllDigits(ds)
    decreases |ds|
  {
    if ds == "" then DecZero
    else if ds[0] == '0' then MakeDecimal(negative, ds[1..], point - 1)
    else Dec(negative, TrimRight(ds), point)
  }

  lemma {:induction false} TrimRightPadded(ds: Digits, zeros: string)
    requires forall i | 0 <= i < |zeros| :: zeros[i] == '0'
    ensures TrimRight(ds + zeros) == ds
  {
    var s := ds + zeros;
    if zeros != "" {
      assert s[..|s| - 1] == ds + zeros[..|zeros| - 1];
      TrimRightPadded(ds, zeros[..|zeros| - 1]);
    } else {
      assert s == ds;
    }
  }

  /** Zeros written before or after significant digits do not change the decimal. */
  lemma {:induction false} MakeDecimalPadded(negative: bool, lead: nat, ds: Digits, trail: nat, point: int)
    ensures AllDigits(Zeros(lead) + ds + Zeros(trail))
    ensures MakeDecimal(negative, Zeros(lead) + ds + Zeros(trail), point) == Dec(negative, ds, point - lead)
    decreases lead
  {
    var s := Zeros(lead) + ds + Zeros(trail);
    if lead == 0 {
      assert s == ds + Zeros(trail);
      TrimRightPadded(ds, Zeros(trail));
    } else {
      assert s[1..] == Zeros(lead - 1) + ds + Zeros(trail);
      MakeDecimalPadded(negative, lead - 1, ds, trail, point - 1);
    }
  }

  function Zeros(n: nat): (s: string)
    ensures |s| == n && forall i | 0 <= i < n :: s[i] == '0'
    ensures AllDigits(s)
  {
    seq(n, _ => '0')
  }

  /** The decimal of an integer. */
  function IntDecimal(i: int): Decimal {
    if i < 0 then MakeDecimal(true, NatText(-i), |NatText(-i)|)
    else MakeDecimal(false, NatText(i), |NatText(i)|)
  }

  // -- Integers are the only way to spell their decimal ---------------------------

  function Pow10(e: nat): (p: nat)
    ensures p > 0
  {
    if e == 0 then 1 else 10 * Pow10(e - 1)
  }

  lemma TimesTen(v: nat, p: nat)
    ensures 10 * (v * p) == v * (10 * p)
  {
  }

  lemma {:induction false} NatValuePadded(s: string, zeros: nat)
    requires AllDigits(s)
    ensures AllDigits(s + Zeros(zeros))
    ensures NatValue(s + Zeros(zeros)) == NatValue(s) * Pow10(zeros)
  {
    var t := s + Zeros(zeros);
    if zeros == 0 {
      assert t == s;
    } else {
      assert t[..|t| - 1] == s + Zeros(zeros - 1);
      NatValuePadded(s, zeros - 1);
      TimesTen(NatValue(s), Pow10(zeros - 1));
    }
  }

  /** `IntDecimal` denotes its integer: sign, and digits scaled to the decimal point. */
  lemma IntDecimalDenotes(i: int)
    ensures i == 0 <==> IntDecimal(i) == DecZero
    ensures i != 0 ==>
      && var d := IntDecimal(i);
      && d.negative == (i < 0) && d.point >= |d.digits|
      && NatValue(d.digits) * Pow10(d.point - |d.digits|) == (if i < 0 then -i else i)
  {
    if i == 0 {
      assert NatText(0) == "0";
      assert MakeDecimal(false, "0", 1) == MakeDecimal(false, "0"[1..], 0);
    } else {
      var n := if i < 0 then -i else i;
      var s := NatText(n);
      NatTextDenotes(n);
      assert s[0] != '0';
      var t := TrimRight(s);
      assert s == t + Zeros(|s| - |t|);
      NatValuePadded(t, |s| - |t|);
    }
  }

  lemma IntDecimalInjective(i: int, j: int)
    requires IntDecimal(i) == IntDecimal(j)
    ensures i == j
  {
    IntDecimalDenotes(i);
    IntDecimalDenotes(j);
  }

  // -- Numbers and values -------------------------------------------------------

  predicate IsInteger(n: Number) {
    !n.Float?
  }

  function IntegerOf(n: Number): int
    requires IsInteger(n)
  {
    match n
    case PosInt(u) => u
    case NegInt(i) => i
  }

  predicate FiniteNumber(n: Number) {
    n.Float? ==> n.f.ZeroDouble? || n.f.Finite?
  }

  function DoubleMeaning(f: Double): Decimal
    requires f.ZeroDouble? || f.Finite?
  {
    match f
    case ZeroDouble(_) => DecZero
    case Finite(negative, digits, exp10) => Dec(negative, digits, exp10 + 1)
  }

  function NumberMeaning(n: Number): Decimal
    requires FiniteNumber(n)
  {
    if IsInteger(n) then IntDecimal(IntegerOf(n)) else DoubleMeaning(n.f)
  }

  /** No number of `v` is infinite or not a number. */
  ghost predicate AllFinite(v: Value) {
    match v
    case Num(n) => FiniteNumber(n)
    case Array(items) => forall i | 0 <= i < |items| :: AllFinite(items[i])
    case Object(fields) => forall k | k in fields :: AllFinite(fields[k])
    case _ => true
  }

  ghost function MeaningOf(v: Value): Meaning
    requires AllFinite(v)
  {
    match v
    case Null => MNull
    case Bool(b) => MBool(b)
    case String(s) => MString(s)
    case Num(n) => MNumber(NumberMeaning(n))
    case Array(items) => MArray(seq(|items|, i requires 0 <= i < |items| => MeaningOf(items[i])))
    case Object(fields) => MObject(map k | k in fields :: MeaningOf(fields[k]))
  }

  /** An integer too large for every integer of its magnitude to be a distinct double. */
  predicate HazardousNumber(n: Number) {
    IsInteger(n) && (IntegerOf(n) > MAX_SAFE_INTEGER || IntegerOf(n) < -MAX_SAFE_INTEGER)
  }

  function Pow2(e: nat): nat {
    if e == 0 then 1 else 2 * Pow2(e - 1)
  }

  /** The safe range ends at `2^53 - 1` on both sides. */
  lemma HazardousExactly(n: Number)
    requires IsInteger(n)
    ensures HazardousNumber(n) <==> IntegerOf(n) >= Pow2(53) || -IntegerOf(n) >= Pow2(53)
  {
    assert Pow2(4) == 16 && Pow2(8) == 16 * Pow2(4) && Pow2(12) == 16 * Pow2(8) && Pow2(16) == 16 * Pow2(12);
    assert Pow2(20) == 16 * Pow2(16) && Pow2(24) == 16 * Pow2(20) && Pow2(28) == 16 * Pow2(24);
    assert Pow2(32) == 16 * Pow2(28) && Pow2(36) == 16 * Pow2(32) && Pow2(40) == 16 * Pow2(36);
    assert Pow2(44) == 16 * Pow2(40) && Pow2(48) == 16 * Pow2(44) && Pow2(52) == 16 * Pow2(48);
    assert Pow2(53) == 2 * Pow2(52);
  }

  ghost predicate HazardFree(v: Value) {
    match v
    case Num(n) => !HazardousNumber(n)
    case Array(items) => forall i | 0 <= i < |items| :: HazardFree(items[i])
    case Object(fields) => forall k | k in fields :: HazardFree(fields[k])
    case _ => true
  }
}
