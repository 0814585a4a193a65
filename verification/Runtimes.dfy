/** The runtime that holds every number as a double: exactly when it binds arguments to the
    text the others write, and accepts the pairs they accept.

    Its strings and its order of keys are the writer's, so its text of a value is the canonical
    text of the value with every integer converted. */
module Runtimes {
  import opened Json
  import opened Jcs
  import opened Binding
  import opened Transitivity

  ghost function Converted(v: Value, wide: int -> Double): Value {
    match v
    case Num(n) => Num(Float(AsF64(n, wide)))
    case Array(items) => Array(seq(|items|, i requires 0 <= i < |items| => Converted(items[i], wide)))
    case Object(fields) => Object(map k | k in fields :: Converted(fields[k], wide))
    case _ => v
  }

  /** An integer whose double has another number for its shortest decimal. */
  predicate PrintsOtherwise(n: Number, wide: int -> Double) {
    && HazardousNumber(n) && wide(IntegerOf(n)).Finite?
    && DoubleMeaning(wide(IntegerOf(n))) != IntDecimal(IntegerOf(n))
  }

  ghost predicate PrintsOtherwiseSomewhere(v: Value, wide: int -> Double) {
    match v
    case Num(n) => PrintsOtherwise(n, wide)
    case Array(items) => exists i | 0 <= i < |items| :: PrintsOtherwiseSomewhere(items[i], wide)
    case Object(fields) => exists k | k in fields :: PrintsOtherwiseSomewhere(fields[k], wide)
    case _ => false
  }

  // -- The text -------------------------------------------------------------------------

  lemma NumberConverted(n: Number, wide: int -> Double)
    requires FiniteNumber(n) && Rounding(wide)
    ensures FiniteNumber(Float(AsF64(n, wide)))
    ensures NumberMeaning(Float(AsF64(n, wide))) == NumberMeaning(n) <==> !PrintsOtherwise(n, wide)
  {
    if HazardousNumber(n) {
      assert Wide(IntegerOf(n));
    }
  }

  lemma {:induction false} ConvertedIsFinite(v: Value, wide: int -> Double)
    requires AllFinite(v) && Rounding(wide)
    ensures AllFinite(Converted(v, wide))
  {
    match v
    case Num(n) => NumberConverted(n, wide);
    case Array(items) =>
      forall i | 0 <= i < |items|
        ensures AllFinite(Converted(items[i], wide))
      {
        ConvertedIsFinite(items[i], wide);
      }
    case Object(fields) =>
      forall k | k in fields
        ensures AllFinite(Converted(fields[k], wide))
      {
        ConvertedIsFinite(fields[k], wide);
      }
    case _ =>
  }

  lemma {:induction false} MeaningConverted(v: Value, wide: int -> Double)
    requires AllFinite(v) && AllFinite(Converted(v, wide)) && Rounding(wide)
    ensures MeaningOf(Converted(v, wide)) == MeaningOf(v) <==> !PrintsOtherwiseSomewhere(v, wide)
  {
    match v
    case Num(n) => NumberConverted(n, wide);
    case Array(_) => ItemsConverted(v, wide);
    case Object(_) => FieldsConverted(v, wide);
    case _ =>
  }

  lemma {:induction false} ItemsConverted(v: Value, wide: int -> Double)
    requires v.Array? && AllFinite(v) && AllFinite(Converted(v, wide)) && Rounding(wide)
    ensures MeaningOf(Converted(v, wide)) == MeaningOf(v) <==> !PrintsOtherwiseSomewhere(v, wide)
    decreases v, 0
  {
    var w := Converted(v, wide);
    assert forall i | 0 <= i < |v.items| :: w.items[i] == Converted(v.items[i], wide);
    forall i | 0 <= i < |v.items|
      ensures MeaningOf(w.items[i]) == MeaningOf(v.items[i]) <==> !PrintsOtherwiseSomewhere(v.items[i], wide)
    {
      MeaningConverted(v.items[i], wide);
    }
    ItemsMeanTheSame(w, v);
  }

  lemma {:induction false} FieldsConverted(v: Value, wide: int -> Double)
    requires v.Object? && AllFinite(v) && AllFinite(Converted(v, wide)) && Rounding(wide)
    ensures MeaningOf(Converted(v, wide)) == MeaningOf(v) <==> !PrintsOtherwiseSomewhere(v, wide)
    decreases v, 0
  {
    var w := Converted(v, wide);
    forall k | k in v.fields
      ensures MeaningOf(w.fields[k]) == MeaningOf(v.fields[k]) <==> !PrintsOtherwiseSomewhere(v.fields[k], wide)
    {
      MeaningConverted(v.fields[k], wide);
    }
    assert w.fields.Keys == v.fields.Keys;
    FieldsMeanTheSame(w, v);
  }

  /** The two runtimes write one text for a value exactly when no position of it holds an
      integer whose double prints otherwise. */
  lemma TextConvertedExactly(v: Value, wide: int -> Double)
    requires AllFinite(v) && Rounding(wide)
    ensures AllFinite(Converted(v, wide))
    ensures Text(Converted(v, wide)) == Text(v) <==> !PrintsOtherwiseSomewhere(v, wide)
  {
    ConvertedIsFinite(v, wide);
    MeaningConverted(v, wide);
    SameTextIffSameMeaning(Converted(v, wide), v);
  }

  lemma {:induction false} HazardFreePrintsAlike(v: Value, wide: int -> Double)
    requires HazardFree(v)
    ensures !PrintsOtherwiseSomewhere(v, wide)
  {
    match v
    case Array(items) =>
      forall i | 0 <= i < |items|
        ensures !PrintsOtherwiseSomewhere(items[i], wide)
      {
        HazardFreePrintsAlike(items[i], wide);
      }
    case Object(fields) =>
      forall k | k in fields
        ensures !PrintsOtherwiseSomewhere(fields[k], wide)
      {
        HazardFreePrintsAlike(fields[k], wide);
      }
    case _ =>
  }

  /** So without precision hazards they always write one text. */
  lemma HazardFreeTextAgrees(v: Value, wide: int -> Double)
    requires AllFinite(v) && HazardFree(v) && Rounding(wide)
    ensures AllFinite(Converted(v, wide)) && Text(Converted(v, wide)) == Text(v)
  {
    HazardFreePrintsAlike(v, wide);
    TextConvertedExactly(v, wide);
  }

  // -- The comparison -------------------------------------------------------------------

  lemma NumbersConvertedExactly(x: Number, y: Number, wide: int -> Double)
    requires FiniteNumber(x) && FiniteNumber(y) && Rounding(wide)
    ensures NumbersEq(x, y, wide)
       <==> NumbersEq(Float(AsF64(x, wide)), Float(AsF64(y, wide)), wide) && !DistinctIntegers(x, y)
  {
    EqualNumbersConvertAlike(x, y, wide);
  }

  ghost predicate EqualConverted(a: Value, b: Value, wide: int -> Double) {
    SemanticEq(Converted(a, wide), Converted(b, wide), wide)
  }

  lemma ArraysConverted(a: Value, b: Value, wide: int -> Double)
    requires a.Array? && b.Array?
    ensures EqualConverted(a, b, wide)
       <==> && |a.items| == |b.items|
            && forall i | 0 <= i < |a.items| :: EqualConverted(a.items[i], b.items[i], wide)
  {
    var xs, ys := Converted(a, wide).items, Converted(b, wide).items;
    assert |xs| == |a.items| && |ys| == |b.items|;
    assert forall i | 0 <= i < |a.items| :: xs[i] == Converted(a.items[i], wide);
    assert forall i | 0 <= i < |b.items| :: ys[i] == Converted(b.items[i], wide);
  }

  lemma ObjectsConverted(a: Value, b: Value, wide: int -> Double)
    requires a.Object? && b.Object?
    ensures EqualConverted(a, b, wide)
       <==> && |a.fields| == |b.fields|
            && forall k | k in a.fields.Keys :: k in b.fields && EqualConverted(a.fields[k], b.fields[k], wide)
  {
    var xs, ys := Converted(a, wide).fields, Converted(b, wide).fields;
    assert xs.Keys == a.fields.Keys && ys.Keys == b.fields.Keys;
    assert |xs| == |xs.Keys| && |ys| == |ys.Keys|;
    assert |a.fields| == |a.fields.Keys| && |b.fields| == |b.fields.Keys|;
  }

  /** A pair is equal to the other runtimes exactly when it is equal to this one and no position
      of it holds two distinct integers: it accepts more, and no more than those. */
  lemma {:induction false} EqualityConvertedExactly(a: Value, b: Value, wide: int -> Double)
    requires AllFinite(a) && AllFinite(b) && Rounding(wide)
    ensures SemanticEq(a, b, wide) <==> EqualConverted(a, b, wide) && !DistinctIntegersSomewhere(a, b)
    decreases a, 1
  {
    match (a, b)
    case (Num(x), Num(y)) => NumbersConvertedExactly(x, y, wide);
    case (Array(_), Array(_)) => ArrayEqualityConverted(a, b, wide);
    case (Object(_), Object(_)) => ObjectEqualityConverted(a, b, wide);
    case _ =>
  }

  lemma {:induction false} ArrayEqualityConverted(a: Value, b: Value, wide: int -> Double)
    requires a.Array? && b.Array? && AllFinite(a) && AllFinite(b) && Rounding(wide)
    ensures SemanticEq(a, b, wide) <==> EqualConverted(a, b, wide) && !DistinctIntegersSomewhere(a, b)
    decreases a, 0
  {
    var xs, ys := a.items, b.items;
    ArraysConverted(a, b, wide);
    forall i | 0 <= i < |xs| && i < |ys|
      ensures SemanticEq(xs[i], ys[i], wide)
         <==> EqualConverted(xs[i], ys[i], wide) && !DistinctIntegersSomewhere(xs[i], ys[i])
    {
      EqualityConvertedExactly(xs[i], ys[i], wide);
    }
  }

  lemma {:induction false} ObjectEqualityConverted(a: Value, b: Value, wide: int -> Double)
    requires a.Object? && b.Object? && AllFinite(a) && AllFinite(b) && Rounding(wide)
    ensures SemanticEq(a, b, wide) <==> EqualConverted(a, b, wide) && !DistinctIntegersSomewhere(a, b)
    decreases a, 0
  {
    var xs, ys := a.fields, b.fields;
    ObjectsConverted(a, b, wide);
    forall k | k in xs && k in ys
      ensures SemanticEq(xs[k], ys[k], wide)
         <==> EqualConverted(xs[k], ys[k], wide) && !DistinctIntegersSomewhere(xs[k], ys[k])
    {
      EqualityConvertedExactly(xs[k], ys[k], wide);
    }
  }
}
