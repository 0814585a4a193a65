/** How far structural equality is an equivalence relation: reflexive and symmetric on all
    finite values, and transitive exactly where it does not end at two distinct integers. */
module Transitivity {
  import opened Json
  import opened Jcs
  import opened Binding

  // -- Numbers --------------------------------------------------------------------------

  predicate DistinctIntegers(x: Number, y: Number) {
    IsInteger(x) && IsInteger(y) && IntegerOf(x) != IntegerOf(y)
  }

  lemma SameIntegerConvertsAlike(x: Number, y: Number, wide: int -> Double)
    requires IsInteger(x) && IsInteger(y) && IntegerOf(x) == IntegerOf(y) && Rounding(wide)
    ensures DoubleEq(AsF64(x, wide), AsF64(y, wide))
  {
    ConvertedSign(x, wide);
    assert HazardousNumber(x) == HazardousNumber(y);
  }

  lemma FloatsCompareAsDoubles(x: Number, y: Number, wide: int -> Double)
    requires !IsInteger(x) || !IsInteger(y)
    ensures NumbersEq(x, y, wide) == DoubleEq(AsF64(x, wide), AsF64(y, wide))
  {
  }

  /** Equal numbers convert to equal doubles, and so do numbers of which one is no integer
      exactly when they are equal. */
  lemma EqualNumbersConvertAlike(x: Number, y: Number, wide: int -> Double)
    requires FiniteNumber(x) && FiniteNumber(y) && Rounding(wide)
    ensures NumbersEq(x, y, wide) <==> DoubleEq(AsF64(x, wide), AsF64(y, wide)) && !DistinctIntegers(x, y)
  {
    if IsInteger(x) && IsInteger(y) {
      IntegersEqIffSame(x, y, wide);
      if IntegerOf(x) == IntegerOf(y) {
        SameIntegerConvertsAlike(x, y, wide);
      }
    } else {
      FloatsCompareAsDoubles(x, y, wide);
    }
  }

  lemma NumbersTransitiveExactly(x: Number, y: Number, z: Number, wide: int -> Double)
    requires FiniteNumber(x) && FiniteNumber(y) && FiniteNumber(z) && Rounding(wide)
    requires NumbersEq(x, y, wide) && NumbersEq(y, z, wide)
    ensures NumbersEq(x, z, wide) <==> !DistinctIntegers(x, z)
  {
    EqualNumbersConvertAlike(x, y, wide);
    EqualNumbersConvertAlike(y, z, wide);
    EqualNumbersConvertAlike(x, z, wide);
  }

  // -- Values ---------------------------------------------------------------------------

  lemma {:induction false} SemanticEqIsReflexive(a: Value, wide: int -> Double)
    requires AllFinite(a)
    ensures SemanticEq(a, a, wide)
  {
    match a
    case Array(items) =>
      forall i | 0 <= i < |items|
        ensures SemanticEq(items[i], items[i], wide)
      {
        SemanticEqIsReflexive(items[i], wide);
      }
    case Object(fields) =>
      forall k | k in fields
        ensures SemanticEq(fields[k], fields[k], wide)
      {
        SemanticEqIsReflexive(fields[k], wide);
      }
    case _ =>
  }

  lemma EqualObjectsShareKeys(a: Value, b: Value, wide: int -> Double)
    requires a.Object? && b.Object? && SemanticEq(a, b, wide)
    ensures a.fields.Keys == b.fields.Keys
  {
    assert |a.fields| == |a.fields.Keys| && |b.fields| == |b.fields.Keys|;
    SubsetOfSameSize(a.fields.Keys, b.fields.Keys);
  }

  lemma {:induction false} SemanticEqIsSymmetric(a: Value, b: Value, wide: int -> Double)
    requires SemanticEq(a, b, wide)
    ensures SemanticEq(b, a, wide)
  {
    match (a, b)
    case (Array(xs), Array(ys)) =>
      forall i | 0 <= i < |xs|
        ensures SemanticEq(ys[i], xs[i], wide)
      {
        SemanticEqIsSymmetric(xs[i], ys[i], wide);
      }
    case (Object(xs), Object(ys)) =>
      EqualObjectsShareKeys(a, b, wide);
      forall k | k in xs
        ensures SemanticEq(ys[k], xs[k], wide)
      {
        SemanticEqIsSymmetric(xs[k], ys[k], wide);
      }
    case _ =>
  }

  /** Some position of `a` and `b` holds two distinct integers. */
  ghost predicate DistinctIntegersSomewhere(a: Value, b: Value) {
    match (a, b)
    case (Num(x), Num(y)) => DistinctIntegers(x, y)
    case (Array(xs), Array(ys)) => exists i | 0 <= i < |xs| && i < |ys| :: DistinctIntegersSomewhere(xs[i], ys[i])
    case (Object(xs), Object(ys)) => exists k | k in xs && k in ys :: DistinctIntegersSomewhere(xs[k], ys[k])
    case _ => false
  }

  /** Of three values equal in a chain, the ends are equal exactly when no position of them
      holds two distinct integers. */
  lemma {:induction false} TransitiveExactly(a: Value, b: Value, c: Value, wide: int -> Double)
    requires AllFinite(a) && AllFinite(b) && AllFinite(c) && Rounding(wide)
    requires SemanticEq(a, b, wide) && SemanticEq(b, c, wide)
    ensures SemanticEq(a, c, wide) <==> !DistinctIntegersSomewhere(a, c)
    decreases a, 1
  {
    match a
    case Num(x) => NumbersTransitiveExactly(x, b.n, c.n, wide);
    case Array(_) => ArraysTransitiveExactly(a, b, c, wide);
    case Object(_) => ObjectsTransitiveExactly(a, b, c, wide);
    case _ =>
  }

  lemma {:induction false} ArraysTransitiveExactly(a: Value, b: Value, c: Value, wide: int -> Double)
    requires a.Array? && AllFinite(a) && AllFinite(b) && AllFinite(c) && Rounding(wide)
    requires SemanticEq(a, b, wide) && SemanticEq(b, c, wide)
    ensures SemanticEq(a, c, wide) <==> !DistinctIntegersSomewhere(a, c)
    decreases a, 0
  {
    var xs, ys, zs := a.items, b.items, c.items;
    forall i | 0 <= i < |xs|
      ensures SemanticEq(xs[i], zs[i], wide) <==> !DistinctIntegersSomewhere(xs[i], zs[i])
    {
      TransitiveExactly(xs[i], ys[i], zs[i], wide);
    }
  }

  lemma {:induction false} ObjectsTransitiveExactly(a: Value, b: Value, c: Value, wide: int -> Double)
    requires a.Object? && AllFinite(a) && AllFinite(b) && AllFinite(c) && Rounding(wide)
    requires SemanticEq(a, b, wide) && SemanticEq(b, c, wide)
    ensures SemanticEq(a, c, wide) <==> !DistinctIntegersSomewhere(a, c)
    decreases a, 0
  {
    var xs, ys, zs := a.fields, b.fields, c.fields;
    EqualObjectsShareKeys(a, b, wide);
    EqualObjectsShareKeys(b, c, wide);
    forall k | k in xs
      ensures SemanticEq(xs[k], zs[k], wide) <==> !DistinctIntegersSomewhere(xs[k], zs[k])
    {
      TransitiveExactly(xs[k], ys[k], zs[k], wide);
    }
  }

  /** Without precision hazards the comparison is an equivalence relation outright. */
  lemma SemanticEqIsEquivalence(a: Value, b: Value, c: Value, wide: int -> Double)
    requires AllFinite(a) && AllFinite(b) && AllFinite(c)
    ensures SemanticEq(a, a, wide)
    ensures SemanticEq(a, b, wide) ==> SemanticEq(b, a, wide)
    ensures HazardFree(a) && HazardFree(b) && HazardFree(c) && SemanticEq(a, b, wide) && SemanticEq(b, c, wide)
            ==> SemanticEq(a, c, wide)
  {
    SemanticEqIsReflexive(a, wide);
    if SemanticEq(a, b, wide) {
      SemanticEqIsSymmetric(a, b, wide);
    }
    if HazardFree(a) && HazardFree(b) && HazardFree(c) {
      ProfilesAgree(a, b, wide);
      ProfilesAgree(b, c, wide);
      ProfilesAgree(a, c, wide);
    }
  }

  /** Any two integers beyond the safe range that convert to one double both equal it and not
      each other, and the canonical text tells it from at least one of them. */
  lemma NeighboursBreakTransitivity(x: Number, z: Number, f: Double, wide: int -> Double)
    requires HazardousNumber(x) && HazardousNumber(z) && IntegerOf(x) != IntegerOf(z) && Rounding(wide)
    requires f.Finite? && wide(IntegerOf(x)) == f && wide(IntegerOf(z)) == f
    ensures SemanticEq(Num(x), Num(Float(f)), wide) && SemanticEq(Num(Float(f)), Num(z), wide)
    ensures !SemanticEq(Num(x), Num(z), wide)
    ensures Text(Num(Float(f))) != Text(Num(x)) || Text(Num(Float(f))) != Text(Num(z))
  {
    NumbersTransitiveExactly(x, Float(f), z, wide);
    if NumberText(x) == NumberText(z) {
      SameIntegerText(IntegerOf(x), IntegerOf(z));
    }
  }

  lemma SameIntegerText(i: int, j: int)
    requires IntText(i) == IntText(j)
    ensures i == j
  {
    var m, n := if i < 0 then -i else i, if j < 0 then -j else j;
    assert NatText(m)[0] in NatText(m) && NatText(n)[0] in NatText(n);
    assert (i < 0) == (IntText(i)[0] == '-') && (j < 0) == (IntText(j)[0] == '-');
    assert NatText(m) == (if i < 0 then IntText(i)[1..] else IntText(i));
    assert NatText(n) == (if j < 0 then IntText(j)[1..] else IntText(j));
    NatTextInjective(m, n);
  }

  /** In particular `2^53` and `2^53 + 1`, which both round to the double `2^53`. */
  lemma SemanticEqIsNotTransitive(i: Unsigned, j: Unsigned, f: Double, wide: int -> Double)
    requires i == 0x20_0000_0000_0000 && j == 0x20_0000_0000_0001 && f == Finite(false, "9007199254740992", 15)
    requires wide(i) == f && wide(j) == f
    ensures SemanticEq(Num(PosInt(i)), Num(Float(f)), wide) && SemanticEq(Num(Float(f)), Num(PosInt(j)), wide)
    ensures !SemanticEq(Num(PosInt(i)), Num(PosInt(j)), wide)
  {
  }
}
