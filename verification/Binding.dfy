/** Structural equality of parsed JSON values, the comparison of the carry-the-octets
    profile, and its agreement with the canonical text of the other profile.

    `wide` stands for the conversion of an integer beyond the safe range to a double; how
    it rounds is not modelled. */
module Binding {
  import opened Json
  import opened KeyOrder
  import opened Jcs
  import opened JcsRoundTrip
  import opened Wrappers

  function AsI64(n: Number): Option<int> {
    match n
    case PosInt(u) => if u < 0x8000_0000_0000_0000 then Some(u) else None
    case NegInt(i) => Some(i)
    case Float(_) => None
  }

  function AsU64(n: Number): Option<int> {
    if n.PosInt? then Some(n.u) else None
  }

  function DoubleOf(d: Decimal): (f: Double)
    ensures (f.Finite? || f.ZeroDouble?) && DoubleMeaning(f) == d
  {
    match d
    case DecZero => ZeroDouble(false)
    case Dec(negative, digits, point) => Finite(negative, digits, point - 1)
  }

  /** The double an integer of the safe range is exactly. */
  function ExactDouble(i: int): Double {
    DoubleOf(IntDecimal(i))
  }

  function AsF64(n: Number, wide: int -> Double): Double {
    if !IsInteger(n) then n.f
    else if HazardousNumber(n) then wide(IntegerOf(n))
    else ExactDouble(IntegerOf(n))
  }

  /** Equality of doubles: a NaN equals nothing and the two zeros are equal. */
  predicate DoubleEq(f: Double, g: Double) {
    if f.NaN? || g.NaN? then false
    else if f.ZeroDouble? && g.ZeroDouble? then true
    else f == g
  }

  predicate NumbersEq(x: Number, y: Number, wide: int -> Double) {
    if AsI64(x).Some? && AsI64(y).Some? then AsI64(x) == AsI64(y)
    else if AsU64(x).Some? && AsU64(y).Some? then AsU64(x) == AsU64(y)
    else DoubleEq(AsF64(x, wide), AsF64(y, wide))
  }

  predicate SemanticEq(a: Value, b: Value, wide: int -> Double) {
    match (a, b)
    case (Null, Null) => true
    case (Bool(x), Bool(y)) => x == y
    case (String(x), String(y)) => x == y
    case (Num(x), Num(y)) => NumbersEq(x, y, wide)
    case (Array(xs), Array(ys)) =>
      |xs| == |ys| && forall i | 0 <= i < |xs| :: SemanticEq(xs[i], ys[i], wide)
    case (Object(xs), Object(ys)) =>
      |xs| == |ys| && forall k | k in xs.Keys :: k in ys && SemanticEq(xs[k], ys[k], wide)
    case _ => false
  }

  // -- Equal texts are equal meanings ---------------------------------------------

  lemma {:induction false} NatTextLength(n: nat, k: nat)
    requires n < Pow10(k) && k > 0
    ensures |NatText(n)| <= k
  {
    if n >= 10 {
      NatTextLength(n / 10, k - 1);
    }
  }

  lemma SixtyFourBits()
    ensures 0x1_0000_0000_0000_0000 < Pow10(20)
  {
    assert Pow10(4) == 10_000 && Pow10(8) == 10_000 * Pow10(4) && Pow10(12) == 10_000 * Pow10(8);
    assert Pow10(16) == 10_000 * Pow10(12) && Pow10(20) == 10_000 * Pow10(16);
  }

  /** A double prints as a 64-bit integer does exactly when its shortest decimal denotes that
      integer. */
  lemma IntegralDoubleText(i: int, f: Double)
    requires -0x1_0000_0000_0000_0000 < i < 0x1_0000_0000_0000_0000
    requires f.Finite? || f.ZeroDouble?
    ensures IntText(i) == EsNumberText(f) <==> IntDecimal(i) == DoubleMeaning(f)
  {
    if IntDecimal(i) == DoubleMeaning(f) {
      IntegralDecimalText(i, f);
    }
    if IntText(i) == EsNumberText(f) {
      TextDenotes(IntText(i), i, f);
    }
  }

  lemma TextDenotes(text: string, i: int, f: Double)
    requires f.Finite? || f.ZeroDouble?
    requires text == IntText(i) && text == EsNumberText(f)
    ensures IntDecimal(i) == DoubleMeaning(f)
  {
    var p := IntLayout(i);
    ReadSpelled(text, p, IntDecimal(i), "");
    NumberRoundTrip(Float(f), "");
  }

  lemma IntegralDecimalText(i: int, f: Double)
    requires -0x1_0000_0000_0000_0000 < i < 0x1_0000_0000_0000_0000
    requires (f.Finite? || f.ZeroDouble?) && IntDecimal(i) == DoubleMeaning(f)
    ensures IntText(i) == EsNumberText(f)
  {
    if i == 0 {
      IntDecimalDenotes(i);
    } else {
      var s := NatText(if i < 0 then -i else i);
      SixtyFourBits();
      NatTextLength(if i < 0 then -i else i, 20);
      IntegerDigits(i, s);
      WholeText(f, s);
    }
  }

  /** Beyond the safe range a double can equal an integer and print otherwise: `2^60` prints as
      `1152921504606847000`. */
  lemma LargeDoublePrintsOtherwise(i: Unsigned, f: Double, wide: int -> Double)
    requires i == 0x1000_0000_0000_0000 && f == Finite(false, "1152921504606847", 18) && wide(i) == f
    ensures SemanticEq(Num(PosInt(i)), Num(Float(f)), wide) && IntText(i) != EsNumberText(f)
  {
    LastDigitsDiffer(i, f);
  }

  lemma LastDigitsDiffer(i: nat, f: Double)
    requires i >= 10 && i % 10 == 6 && f.Finite? && !f.negative && |f.digits| < f.exp10 + 1 <= 21
    ensures IntText(i) != EsNumberText(f)
  {
    EndsInZero(f, |f.digits|);
    LastDigit(i, 6);
  }

  lemma EndsInZero(f: Double, k: nat)
    requires f.Finite? && !f.negative && |f.digits| == k && k < f.exp10 + 1 <= 21
    ensures EsNumberText(f) != "" && EsNumberText(f)[|EsNumberText(f)| - 1] == '0'
  {
    assert EsNumberText(f) == "" + f.digits + Zeros(f.exp10 + 1 - k);
  }

  lemma LastDigit(i: nat, d: nat)
    requires i >= 10 && i % 10 == d
    ensures IntText(i)[|IntText(i)| - 1] == DigitChar(d)
  {
  }

  lemma IntegerDigits(i: int, s: string)
    requires i != 0 && s == NatText(if i < 0 then -i else i)
    ensures IntDecimal(i).Dec? && IntDecimal(i).negative == (i < 0) && IntDecimal(i).point == |s|
    ensures IntDecimal(i).digits == TrimRight(s)
  {
  }

  lemma WholeText(f: Double, s: string)
    requires f.Finite? && f.digits == TrimRight(s) && f.exp10 + 1 == |s| <= 21
    ensures EsNumberText(f) == (if f.negative then "-" else "") + s
  {
    assert s == f.digits + Zeros(|s| - |f.digits|);
  }

  lemma NumberTextByMeaning(x: Number, y: Number)
    requires FiniteNumber(x) && FiniteNumber(y) && NumberMeaning(x) == NumberMeaning(y)
    ensures NumberText(x) == NumberText(y)
  {
    if IsInteger(x) && IsInteger(y) {
      IntDecimalInjective(IntegerOf(x), IntegerOf(y));
    } else if IsInteger(x) {
      IntegralDoubleText(IntegerOf(x), y.f);
    } else if IsInteger(y) {
      IntegralDoubleText(IntegerOf(y), x.f);
    }
  }

  lemma {:induction false} TextByMeaning(a: Value, b: Value)
    requires AllFinite(a) && AllFinite(b) && MeaningOf(a) == MeaningOf(b)
    ensures Text(a) == Text(b)
    decreases a, 1
  {
    match a
    case Null =>
    case Bool(_) =>
    case String(_) =>
    case Num(x) => NumberTextByMeaning(x, b.n);
    case Array(xs) =>
      assert |xs| == |MeaningOf(a).items| == |b.items|;
      ItemsTextByMeaning(a, b, 0);
    case Object(xs) =>
      assert xs.Keys == MeaningOf(a).fields.Keys == b.fields.Keys;
      SortedKeysMembers(xs.Keys);
      MembersTextByMeaning(SortedKeys(xs.Keys), a, b, 0);
  }

  lemma {:induction false} ItemsTextByMeaning(a: Value, b: Value, i: nat)
    requires a.Array? && b.Array? && AllFinite(a) && AllFinite(b) && MeaningOf(a) == MeaningOf(b)
    requires i <= |a.items| == |b.items|
    ensures ItemsText(a, i) == ItemsText(b, i)
    decreases a, 0, |a.items| - i
  {
    if i < |a.items| {
      assert MeaningOf(a.items[i]) == MeaningOf(a).items[i] == MeaningOf(b.items[i]);
      TextByMeaning(a.items[i], b.items[i]);
      ItemsTextByMeaning(a, b, i + 1);
    }
  }

  lemma {:induction false} MembersTextByMeaning(keys: seq<string>, a: Value, b: Value, i: nat)
    requires a.Object? && b.Object? && AllFinite(a) && AllFinite(b) && MeaningOf(a) == MeaningOf(b)
    requires i <= |keys| && forall k | k in keys :: k in a.fields && k in b.fields
    ensures MembersText(keys, a, i) == MembersText(keys, b, i)
    decreases a, 0, |keys| - i
  {
    if i < |keys| {
      var k := keys[i];
      assert MeaningOf(a.fields[k]) == MeaningOf(a).fields[k] == MeaningOf(b.fields[k]);
      TextByMeaning(a.fields[k], b.fields[k]);
      MembersTextByMeaning(keys, a, b, i + 1);
    }
  }

  /** Two values have the same canonical text exactly when they mean the same. */
  lemma SameTextIffSameMeaning(a: Value, b: Value)
    requires AllFinite(a) && AllFinite(b)
    ensures Text(a) == Text(b) <==> MeaningOf(a) == MeaningOf(b)
  {
    CanonicalTextParses(a);
    CanonicalTextParses(b);
    if MeaningOf(a) == MeaningOf(b) {
      TextByMeaning(a, b);
    }
  }

  // -- Structural equality against meaning ------------------------------------------

  predicate Wide(i: int) {
    i > MAX_SAFE_INTEGER || i < -MAX_SAFE_INTEGER
  }

  /** Rounding an integer keeps its sign and never overflows. */
  ghost predicate Rounding(wide: int -> Double) {
    forall i | Wide(i) :: wide(i).Finite? && wide(i).negative == (i < 0)
  }

  /** A double is what its own shortest decimal converts to. Every double is genuine. */
  ghost predicate Genuine(f: Double, wide: int -> Double) {
    f.Finite? ==> forall i | Wide(i) && IntDecimal(i) == DoubleMeaning(f) :: wide(i) == f
  }

  ghost predicate AllGenuine(v: Value, wide: int -> Double) {
    match v
    case Num(n) => n.Float? ==> Genuine(n.f, wide)
    case Array(items) => forall i | 0 <= i < |items| :: AllGenuine(items[i], wide)
    case Object(fields) => forall k | k in fields :: AllGenuine(fields[k], wide)
    case _ => true
  }

  /** An integer beyond the safe range against the double it converts to, when the shortest
      decimal of that double is another number. The double may even equal the integer. */
  predicate RoundedOnto(x: Number, y: Number, wide: int -> Double) {
    && HazardousNumber(x) && y.Float? && y.f.Finite?
    && wide(IntegerOf(x)) == y.f && IntDecimal(IntegerOf(x)) != DoubleMeaning(y.f)
  }

  predicate Rounded(x: Number, y: Number, wide: int -> Double) {
    RoundedOnto(x, y, wide) || RoundedOnto(y, x, wide)
  }

  /** Some position of `a` and `b` holds an integer against such a double. */
  ghost predicate RoundedSomewhere(a: Value, b: Value, wide: int -> Double) {
    match (a, b)
    case (Num(x), Num(y)) => Rounded(x, y, wide)
    case (Array(xs), Array(ys)) =>
      exists i | 0 <= i < |xs| && i < |ys| :: RoundedSomewhere(xs[i], ys[i], wide)
    case (Object(xs), Object(ys)) =>
      exists k | k in xs && k in ys :: RoundedSomewhere(xs[k], ys[k], wide)
    case _ => false
  }

  /** What the comparison of `a` with `b` relies on: correct conversion to double, or no
      integer that needs it. */
  ghost predicate Comparable(a: Value, b: Value, wide: int -> Double) {
    || (Rounding(wide) && AllGenuine(a, wide) && AllGenuine(b, wide))
    || (HazardFree(a) && HazardFree(b))
  }

  lemma NumbersEqExact(x: Number, y: Number, wide: int -> Double)
    requires FiniteNumber(x) && FiniteNumber(y) && Comparable(Num(x), Num(y), wide)
    ensures NumbersEq(x, y, wide) && !Rounded(x, y, wide) <==> NumberMeaning(x) == NumberMeaning(y)
  {
    if IsInteger(x) && IsInteger(y) {
      IntegersEqExact(x, y, wide);
    } else if IsInteger(x) {
      MixedEqExact(x, y, wide);
    } else if IsInteger(y) {
      MixedEqExact(y, x, wide);
    }
  }

  lemma ExactDoubleSign(i: int)
    requires i != 0
    ensures ExactDouble(i).Finite? && ExactDouble(i).negative == (i < 0)
  {
    IntDecimalDenotes(i);
  }

  lemma SameIntegerDecimal(i: int, j: int)
    ensures IntDecimal(i) == IntDecimal(j) <==> i == j
  {
    if IntDecimal(i) == IntDecimal(j) {
      IntDecimalInjective(i, j);
    }
  }

  /** Integers are compared exactly: those no one integer type holds both of differ in sign. */
  lemma IntegersEqIffSame(x: Number, y: Number, wide: int -> Double)
    requires IsInteger(x) && IsInteger(y)
    requires Rounding(wide) || !(HazardousNumber(x) || HazardousNumber(y))
    ensures NumbersEq(x, y, wide) <==> IntegerOf(x) == IntegerOf(y)
  {
    if (IntegerOf(x) < 0) != (IntegerOf(y) < 0) {
      assert !DoubleEq(AsF64(x, wide), AsF64(y, wide)) by {
        ConvertedSign(x, wide);
        ConvertedSign(y, wide);
        OppositeSigns(AsF64(x, wide), IntegerOf(x), AsF64(y, wide), IntegerOf(y));
      }
    }
  }

  lemma IntegersEqExact(x: Number, y: Number, wide: int -> Double)
    requires IsInteger(x) && IsInteger(y) && Comparable(Num(x), Num(y), wide)
    ensures NumbersEq(x, y, wide) <==> NumberMeaning(x) == NumberMeaning(y)
  {
    SameIntegerDecimal(IntegerOf(x), IntegerOf(y));
    IntegersEqIffSame(x, y, wide);
  }

  lemma OppositeSigns(f: Double, i: int, g: Double, j: int)
    requires (i < 0) != (j < 0)
    requires if i == 0 then f.ZeroDouble? else f.Finite? && f.negative == (i < 0)
    requires if j == 0 then g.ZeroDouble? else g.Finite? && g.negative == (j < 0)
    ensures !DoubleEq(f, g)
  {
  }

  /** Converting an integer to a double keeps its sign. */
  lemma ConvertedSign(x: Number, wide: int -> Double)
    requires IsInteger(x) && (Rounding(wide) || !HazardousNumber(x))
    ensures IntegerOf(x) == 0 ==> AsF64(x, wide).ZeroDouble?
    ensures IntegerOf(x) != 0 ==> AsF64(x, wide).Finite? && AsF64(x, wide).negative == (IntegerOf(x) < 0)
  {
    var i := IntegerOf(x);
    assert HazardousNumber(x) == Wide(i);
    if i == 0 {
      IntDecimalDenotes(i);
    } else {
      ExactDoubleSign(i);
    }
  }

  lemma MixedEqExact(x: Number, y: Number, wide: int -> Double)
    requires IsInteger(x) && y.Float? && FiniteNumber(y)
    requires Comparable(Num(x), Num(y), wide)
    ensures NumbersEq(x, y, wide) == NumbersEq(y, x, wide)
    ensures NumbersEq(x, y, wide) && !Rounded(x, y, wide) <==> NumberMeaning(x) == NumberMeaning(y)
  {
    if HazardousNumber(x) {
      WideEqExact(x, y, wide);
    } else {
      SameDoubleMeaning(DoubleOf(IntDecimal(IntegerOf(x))), y.f);
    }
  }

  lemma WideEqIs(x: Number, y: Number, wide: int -> Double)
    requires HazardousNumber(x) && y.Float? && FiniteNumber(y) && Rounding(wide)
    ensures wide(IntegerOf(x)).Finite?
    ensures NumbersEq(x, y, wide) == DoubleEq(wide(IntegerOf(x)), y.f)
    ensures NumbersEq(y, x, wide) == DoubleEq(y.f, wide(IntegerOf(x)))
    ensures Rounded(x, y, wide)
            <==> y.f.Finite? && wide(IntegerOf(x)) == y.f && IntDecimal(IntegerOf(x)) != DoubleMeaning(y.f)
  {
    assert Wide(IntegerOf(x));
  }

  lemma WideEqExact(x: Number, y: Number, wide: int -> Double)
    requires HazardousNumber(x) && y.Float? && FiniteNumber(y) && Rounding(wide) && Genuine(y.f, wide)
    ensures NumbersEq(x, y, wide) == NumbersEq(y, x, wide)
    ensures NumbersEq(x, y, wide) && !Rounded(x, y, wide) <==> NumberMeaning(x) == NumberMeaning(y)
  {
    var i := IntegerOf(x);
    assert Wide(i);
    WideEqIs(x, y, wide);
    IntDecimalDenotes(i);
    GenuineOrRounded(wide(i), y.f, IntDecimal(i));
  }

  lemma GenuineOrRounded(w: Double, g: Double, d: Decimal)
    requires w.Finite? && (g.Finite? || g.ZeroDouble?) && d != DecZero
    requires g.Finite? && d == DoubleMeaning(g) ==> w == g
    ensures DoubleEq(w, g) == DoubleEq(g, w)
    ensures DoubleEq(w, g) && !(g.Finite? && w == g && d != DoubleMeaning(g)) <==> d == DoubleMeaning(g)
  {
  }

  lemma SameDoubleMeaning(f: Double, g: Double)
    requires (f.Finite? || f.ZeroDouble?) && (g.Finite? || g.ZeroDouble?)
    ensures DoubleEq(f, g) <==> DoubleMeaning(f) == DoubleMeaning(g)
    ensures DoubleEq(f, g) == DoubleEq(g, f)
  {
  }

  ghost predicate Agree(a: Value, b: Value, wide: int -> Double) {
    SemanticEq(a, b, wide) && !RoundedSomewhere(a, b, wide)
  }

  lemma {:induction false} ArraysEqExact(a: Value, b: Value, wide: int -> Double)
    requires a.Array? && b.Array? && |a.items| == |b.items| && AllFinite(a) && AllFinite(b) && Comparable(a, b, wide)
    ensures Agree(a, b, wide) <==> MeaningOf(a) == MeaningOf(b)
    decreases a, 0
  {
    forall i | 0 <= i < |a.items|
      ensures Agree(a.items[i], b.items[i], wide) <==> MeaningOf(a).items[i] == MeaningOf(b).items[i]
    {
      ValuesEqExact(a.items[i], b.items[i], wide);
    }
    if MeaningOf(a) == MeaningOf(b) {
      assert forall i | 0 <= i < |a.items| :: MeaningOf(a).items[i] == MeaningOf(b).items[i];
    }
  }

  lemma {:induction false} ObjectsEqExact(a: Value, b: Value, wide: int -> Double)
    requires a.Object? && b.Object? && AllFinite(a) && AllFinite(b) && Comparable(a, b, wide)
    ensures Agree(a, b, wide) <==> MeaningOf(a) == MeaningOf(b)
    decreases a, 0, 1
  {
    var xs, ys := a.fields, b.fields;
    assert MeaningOf(a).fields.Keys == xs.Keys && MeaningOf(b).fields.Keys == ys.Keys;
    if xs.Keys == ys.Keys {
      FieldsEqExact(a, b, wide);
    } else if SemanticEq(a, b, wide) {
      SubsetOfSameSize(xs.Keys, ys.Keys);
    }
  }

  lemma {:induction false} FieldsEqExact(a: Value, b: Value, wide: int -> Double)
    requires a.Object? && b.Object? && AllFinite(a) && AllFinite(b) && Comparable(a, b, wide)
    requires a.fields.Keys == b.fields.Keys
    ensures Agree(a, b, wide) <==> MeaningOf(a) == MeaningOf(b)
    decreases a, 0, 0
  {
    var xs, ys := a.fields, b.fields;
    forall k | k in xs
      ensures Agree(xs[k], ys[k], wide) <==> MeaningOf(xs[k]) == MeaningOf(ys[k])
    {
      ValuesEqExact(xs[k], ys[k], wide);
    }
    FieldsMeanTheSame(a, b);
    FieldsAgree(a, b, wide);
  }

  lemma ItemsMeanTheSame(a: Value, b: Value)
    requires a.Array? && b.Array? && AllFinite(a) && AllFinite(b) && |a.items| == |b.items|
    ensures MeaningOf(a) == MeaningOf(b)
            <==> forall i | 0 <= i < |a.items| :: MeaningOf(a.items[i]) == MeaningOf(b.items[i])
  {
    var m, n := MeaningOf(a).items, MeaningOf(b).items;
    assert |m| == |a.items| && |n| == |b.items|;
    assert forall i | 0 <= i < |a.items| :: m[i] == MeaningOf(a.items[i]) && n[i] == MeaningOf(b.items[i]);
  }

  lemma FieldsMeanTheSame(a: Value, b: Value)
    requires a.Object? && b.Object? && AllFinite(a) && AllFinite(b) && a.fields.Keys == b.fields.Keys
    ensures MeaningOf(a) == MeaningOf(b)
            <==> forall k | k in a.fields :: MeaningOf(a.fields[k]) == MeaningOf(b.fields[k])
  {
    var m, n := MeaningOf(a).fields, MeaningOf(b).fields;
    assert m.Keys == a.fields.Keys && n.Keys == b.fields.Keys;
    assert forall k | k in a.fields :: m[k] == MeaningOf(a.fields[k]) && n[k] == MeaningOf(b.fields[k]);
  }

  lemma FieldsAgree(a: Value, b: Value, wide: int -> Double)
    requires a.Object? && b.Object? && a.fields.Keys == b.fields.Keys
    ensures Agree(a, b, wide) <==> forall k | k in a.fields :: Agree(a.fields[k], b.fields[k], wide)
  {
    assert |a.fields| == |a.fields.Keys| && |b.fields| == |b.fields.Keys|;
  }

  lemma {:induction false} SubsetOfSameSize<T>(a: set<T>, b: set<T>)
    requires a <= b && |a| == |b|
    ensures a == b
  {
    if x :| x in a {
      SubsetOfSameSize(a - {x}, b - {x});
    }
  }

  lemma {:induction false} ValuesEqExact(a: Value, b: Value, wide: int -> Double)
    requires AllFinite(a) && AllFinite(b) && Comparable(a, b, wide)
    ensures Agree(a, b, wide) <==> MeaningOf(a) == MeaningOf(b)
    decreases a, 1
  {
    match (a, b)
    case (Num(x), Num(y)) => NumbersEqExact(x, y, wide);
    case (Array(xs), Array(ys)) =>
      if |xs| == |ys| {
        ArraysEqExact(a, b, wide);
      } else {
        assert |MeaningOf(a).items| == |xs| && |MeaningOf(b).items| == |ys|;
      }
    case (Object(_), Object(_)) => ObjectsEqExact(a, b, wide);
    case _ =>
  }

  // -- The two binding profiles -----------------------------------------------------

  /** For all values, hazardous or not: the canonical texts are equal exactly when the
      structural comparison accepts the pair and no position of it compares an integer with
      the double it converts to while the shortest decimal of that double is another number. */
  lemma ProfilesAgreeExactly(a: Value, b: Value, wide: int -> Double)
    requires AllFinite(a) && AllFinite(b)
    requires Rounding(wide) && AllGenuine(a, wide) && AllGenuine(b, wide)
    ensures Text(a) == Text(b) <==> SemanticEq(a, b, wide) && !RoundedSomewhere(a, b, wide)
  {
    ValuesEqExact(a, b, wide);
    SameTextIffSameMeaning(a, b);
  }

  lemma {:induction false} HazardFreeNeverRounds(a: Value, b: Value, wide: int -> Double)
    requires HazardFree(a) && HazardFree(b)
    ensures !RoundedSomewhere(a, b, wide)
  {
    match (a, b)
    case (Array(xs), Array(ys)) =>
      forall i | 0 <= i < |xs| && i < |ys|
        ensures !RoundedSomewhere(xs[i], ys[i], wide)
      {
        HazardFreeNeverRounds(xs[i], ys[i], wide);
      }
    case (Object(xs), Object(ys)) =>
      forall k | k in xs && k in ys
        ensures !RoundedSomewhere(xs[k], ys[k], wide)
      {
        HazardFreeNeverRounds(xs[k], ys[k], wide);
      }
    case _ =>
  }

  /** Without precision hazards the two profiles accept the same pairs, however wide
      integers convert. */
  lemma ProfilesAgree(a: Value, b: Value, wide: int -> Double)
    requires AllFinite(a) && AllFinite(b) && HazardFree(a) && HazardFree(b)
    ensures Text(a) == Text(b) <==> SemanticEq(a, b, wide)
  {
    ValuesEqExact(a, b, wide);
    HazardFreeNeverRounds(a, b, wide);
    SameTextIffSameMeaning(a, b);
  }

  /** What is assumed of the conversion can be met. */
  lemma {:induction false} ExactConversionQualifies(v: Value)
    ensures Rounding(ExactDouble) && AllGenuine(v, ExactDouble)
  {
    forall i | Wide(i)
      ensures ExactDouble(i).Finite? && ExactDouble(i).negative == (i < 0)
    {
      ExactDoubleSign(i);
    }
    match v
    case Array(items) =>
      forall i | 0 <= i < |items|
        ensures AllGenuine(items[i], ExactDouble)
      {
        ExactConversionQualifies(items[i]);
      }
    case Object(fields) =>
      forall k | k in fields
        ensures AllGenuine(fields[k], ExactDouble)
      {
        ExactConversionQualifies(fields[k]);
      }
    case _ =>
  }
}
