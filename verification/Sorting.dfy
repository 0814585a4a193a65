/** Lexicographic order, and the stable sort of the standard library. */
module Sorting {
  import opened Wrappers

  predicate LexLeq(a: seq<nat>, b: seq<nat>) {
    a == [] || (b != [] && (a[0] < b[0] || (a[0] == b[0] && LexLeq(a[1..], b[1..]))))
  }

  lemma {:induction false} LexTotal(a: seq<nat>, b: seq<nat>)
    ensures LexLeq(a, b) || LexLeq(b, a)
  {
    if a != [] && b != [] && a[0] == b[0] {
      LexTotal(a[1..], b[1..]);
    }
  }

  lemma {:induction false} LexAntisymmetric(a: seq<nat>, b: seq<nat>)
    requires LexLeq(a, b) && LexLeq(b, a)
    ensures a == b
  {
    if a != [] {
      LexAntisymmetric(a[1..], b[1..]);
      assert a == [a[0]] + a[1..] && b == [b[0]] + b[1..];
    }
  }

  lemma {:induction false} LexTransitive(a: seq<nat>, b: seq<nat>, c: seq<nat>)
    requires LexLeq(a, b) && LexLeq(b, c)
    ensures LexLeq(a, c)
  {
    if a != [] && a[0] == b[0] && b[0] == c[0] {
      LexTransitive(a[1..], b[1..], c[1..]);
    }
  }

  /** They agree below `i`, and there `a` ends or has less. */
  predicate PrecedesAt(a: seq<nat>, b: seq<nat>, i: nat) {
    i <= |a| && i < |b| && a[..i] == b[..i] && (i == |a| || a[i] < b[i])
  }

  /** `a` comes before `b` at their first difference. */
  ghost predicate Precedes(a: seq<nat>, b: seq<nat>) {
    exists i: nat :: PrecedesAt(a, b, i)
  }

  lemma PrecedesAtNext(a: seq<nat>, b: seq<nat>, i: nat)
    requires a != [] && b != [] && a[0] == b[0]
    ensures PrecedesAt(a, b, i + 1) <==> PrecedesAt(a[1..], b[1..], i)
  {
    if i < |a| && i < |b| {
      assert a[..i + 1] == [a[0]] + a[1..][..i] && b[..i + 1] == [b[0]] + b[1..][..i];
      assert a[..i + 1][1..] == a[1..][..i] && b[..i + 1][1..] == b[1..][..i];
    }
  }

  lemma PrecedesNext(a: seq<nat>, b: seq<nat>)
    requires a != [] && b != [] && a[0] == b[0]
    ensures Precedes(a, b) <==> Precedes(a[1..], b[1..])
  {
    if Precedes(a, b) {
      var i: nat :| PrecedesAt(a, b, i);
      assert i > 0;
      PrecedesAtNext(a, b, i - 1);
    }
    if Precedes(a[1..], b[1..]) {
      var i: nat :| PrecedesAt(a[1..], b[1..], i);
      PrecedesAtNext(a, b, i);
    }
  }

  lemma NothingPrecedesItself(a: seq<nat>)
    ensures !Precedes(a, a)
  {
  }

  /** The order is the one by first difference. */
  lemma {:induction false} LexLeqExactly(a: seq<nat>, b: seq<nat>)
    ensures LexLeq(a, b) <==> a == b || Precedes(a, b)
  {
    if a == [] || b == [] {
      assert b != [] ==> PrecedesAt(a, b, 0);
    } else if a[0] == b[0] {
      LexLeqExactly(a[1..], b[1..]);
      PrecedesNext(a, b);
      assert a == [a[0]] + a[1..] && b == [b[0]] + b[1..];
    } else {
      assert PrecedesAt(a, b, 0) <==> a[0] < b[0];
      forall i: nat | i > 0
        ensures !PrecedesAt(a, b, i)
      {
        if i <= |a| && i < |b| {
          assert a[..i][0] == a[0] && b[..i][0] == b[0];
        }
      }
    }
  }

  // -- Sorting by a total preorder ------------------------------------------------------

  ghost predicate TotalPreorder<T(!new)>(leq: (T, T) -> bool) {
    && (forall x, y :: leq(x, y) || leq(y, x))
    && (forall x, y, z :: leq(x, y) && leq(y, z) ==> leq(x, z))
  }

  ghost predicate Antisymmetric<T(!new)>(leq: (T, T) -> bool) {
    forall x, y :: leq(x, y) && leq(y, x) ==> x == y
  }

  /** Equivalent members of `s` are equal. */
  ghost predicate AntisymmetricOn<T>(s: seq<T>, leq: (T, T) -> bool) {
    forall x, y | x in s && y in s && leq(x, y) && leq(y, x) :: x == y
  }

  ghost predicate SortedBy<T>(s: seq<T>, leq: (T, T) -> bool) {
    forall i, j | 0 <= i < j < |s| :: leq(s[i], s[j])
  }

  function Insert<T>(x: T, s: seq<T>, leq: (T, T) -> bool): seq<T> {
    if s == [] || leq(x, s[0]) then [x] + s else [s[0]] + Insert(x, s[1..], leq)
  }

  /** The stable sort of `s`. */
  function SortBy<T>(s: seq<T>, leq: (T, T) -> bool): seq<T> {
    if s == [] then [] else Insert(s[0], SortBy(s[1..], leq), leq)
  }

  lemma {:induction false} InsertMultiset<T>(x: T, s: seq<T>, leq: (T, T) -> bool)
    ensures multiset(Insert(x, s, leq)) == multiset{x} + multiset(s)
  {
    if s != [] && !leq(x, s[0]) {
      InsertMultiset(x, s[1..], leq);
      assert s == [s[0]] + s[1..];
    }
  }

  lemma {:induction false} SortByMultiset<T>(s: seq<T>, leq: (T, T) -> bool)
    ensures multiset(SortBy(s, leq)) == multiset(s)
  {
    if s != [] {
      SortByMultiset(s[1..], leq);
      InsertMultiset(s[0], SortBy(s[1..], leq), leq);
      assert s == [s[0]] + s[1..];
    }
  }

  lemma {:induction false} InsertSorted<T(!new)>(x: T, s: seq<T>, leq: (T, T) -> bool)
    requires TotalPreorder(leq) && SortedBy(s, leq)
    ensures SortedBy(Insert(x, s, leq), leq)
  {
    if s != [] && !leq(x, s[0]) {
      InsertSorted(x, s[1..], leq);
      InsertMultiset(x, s[1..], leq);
      var tail := Insert(x, s[1..], leq);
      forall y | y in tail
        ensures leq(s[0], y)
      {
        assert y in multiset(tail);
        assert y == x || y in s[1..];
      }
    }
  }

  lemma {:induction false} SortBySorted<T(!new)>(s: seq<T>, leq: (T, T) -> bool)
    requires TotalPreorder(leq)
    ensures SortedBy(SortBy(s, leq), leq)
  {
    if s != [] {
      SortBySorted(s[1..], leq);
      InsertSorted(s[0], SortBy(s[1..], leq), leq);
    }
  }

  lemma FirstIsLeast<T(!new)>(s: seq<T>, x: T, leq: (T, T) -> bool)
    requires TotalPreorder(leq) && SortedBy(s, leq) && x in s
    ensures leq(s[0], x)
  {
    assert leq(x, x);
  }

  lemma SameHead<T(!new)>(a: seq<T>, b: seq<T>, leq: (T, T) -> bool)
    requires TotalPreorder(leq) && AntisymmetricOn(a, leq)
    requires SortedBy(a, leq) && SortedBy(b, leq) && multiset(a) == multiset(b) && a != []
    ensures b != [] && a[0] == b[0]
  {
    assert a[0] in multiset(b);
    assert b[0] in multiset(a);
    FirstIsLeast(a, b[0], leq);
    FirstIsLeast(b, a[0], leq);
  }

  lemma TailMultiset<T>(a: seq<T>)
    requires a != []
    ensures multiset(a[1..]) == multiset(a) - multiset{a[0]}
  {
    assert a == [a[0]] + a[1..];
  }

  lemma TailAntisymmetric<T>(a: seq<T>, leq: (T, T) -> bool)
    requires a != [] && AntisymmetricOn(a, leq)
    ensures AntisymmetricOn(a[1..], leq)
  {
  }

  lemma SameHeadAndTail<T>(a: seq<T>, b: seq<T>)
    requires a != [] && b != [] && a[0] == b[0] && a[1..] == b[1..]
    ensures a == b
  {
    assert a == [a[0]] + a[1..] && b == [b[0]] + b[1..];
  }

  lemma TailSorted<T>(a: seq<T>, leq: (T, T) -> bool)
    requires a != [] && SortedBy(a, leq)
    ensures SortedBy(a[1..], leq)
  {
  }

  /** A sorted sequence is determined by its elements. */
  lemma {:induction false} SortedUnique<T(!new)>(a: seq<T>, b: seq<T>, leq: (T, T) -> bool)
    requires TotalPreorder(leq) && AntisymmetricOn(a, leq)
    requires SortedBy(a, leq) && SortedBy(b, leq) && multiset(a) == multiset(b)
    ensures a == b
  {
    if a == [] {
      assert |b| == |multiset(b)| == 0;
    } else {
      SameHead(a, b, leq);
      TailMultiset(a);
      TailMultiset(b);
      TailAntisymmetric(a, leq);
      TailSorted(a, leq);
      TailSorted(b, leq);
      SortedUnique(a[1..], b[1..], leq);
      SameHeadAndTail(a, b);
    }
  }

  /** Two sequences sort alike exactly when one is a permutation of the other, if equivalent
      members are equal. */
  lemma SortByPermutation<T(!new)>(a: seq<T>, b: seq<T>, leq: (T, T) -> bool)
    requires TotalPreorder(leq) && AntisymmetricOn(a, leq)
    ensures SortBy(a, leq) == SortBy(b, leq) <==> multiset(a) == multiset(b)
  {
    SortByMultiset(a, leq);
    SortByMultiset(b, leq);
    SortBySorted(a, leq);
    SortBySorted(b, leq);
    if multiset(a) == multiset(b) {
      forall x | x in SortBy(a, leq)
        ensures x in a
      {
        assert x in multiset(SortBy(a, leq));
      }
      SortedUnique(SortBy(a, leq), SortBy(b, leq), leq);
    }
  }

  // -- Stability ------------------------------------------------------------------------

  /** The members of `s` equivalent to `x`, in order. */
  function Equivalents<T>(s: seq<T>, x: T, leq: (T, T) -> bool): seq<T> {
    if s == [] then []
    else (if leq(x, s[0]) && leq(s[0], x) then [s[0]] else []) + Equivalents(s[1..], x, leq)
  }

  ghost predicate SameEquivalents<T(!new)>(a: seq<T>, b: seq<T>, leq: (T, T) -> bool) {
    forall x :: Equivalents(a, x, leq) == Equivalents(b, x, leq)
  }

  lemma {:induction false} InsertKeepsEquivalents<T(!new)>(y: T, s: seq<T>, x: T, leq: (T, T) -> bool)
    requires TotalPreorder(leq)
    ensures Equivalents(Insert(y, s, leq), x, leq) == Equivalents([y] + s, x, leq)
  {
    if s != [] && !leq(y, s[0]) {
      InsertKeepsEquivalents(y, s[1..], x, leq);
      var rest := Insert(y, s[1..], leq);
      assert ([s[0]] + rest)[1..] == rest;
      assert ([y] + s)[1..] == s && ([y] + s[1..])[1..] == s[1..];
    }
  }

  lemma {:induction false} SortByKeepsEquivalents<T(!new)>(s: seq<T>, x: T, leq: (T, T) -> bool)
    requires TotalPreorder(leq)
    ensures Equivalents(SortBy(s, leq), x, leq) == Equivalents(s, x, leq)
  {
    if s != [] {
      SortByKeepsEquivalents(s[1..], x, leq);
      InsertKeepsEquivalents(s[0], SortBy(s[1..], leq), x, leq);
      var sorted := SortBy(s[1..], leq);
      assert ([s[0]] + sorted)[1..] == sorted;
    }
  }

  lemma {:induction false} EquivalentsOfMember<T(!new)>(s: seq<T>, x: T, y: T, leq: (T, T) -> bool)
    requires y in Equivalents(s, x, leq)
    ensures y in s && leq(x, y) && leq(y, x)
  {
    if y in Equivalents(s[1..], x, leq) {
      EquivalentsOfMember(s[1..], x, y, leq);
    }
  }

  /** The members equivalent to anything are alike in order, one by one. */
  ghost predicate AlikeEquivalents<T(!new)>(a: seq<T>, b: seq<T>, leq: (T, T) -> bool, same: (T, T) -> bool) {
    forall x :: AllSame(Equivalents(a, x, leq), Equivalents(b, x, leq), same)
  }

  lemma FirstEquivalent<T(!new)>(s: seq<T>, leq: (T, T) -> bool)
    requires TotalPreorder(leq) && s != []
    ensures leq(s[0], s[0]) && Equivalents(s, s[0], leq) != [] && Equivalents(s, s[0], leq)[0] == s[0]
  {
    assert leq(s[0], s[0]);
  }

  lemma NoneIsAlike<T(!new)>(b: seq<T>, leq: (T, T) -> bool, same: (T, T) -> bool)
    requires TotalPreorder(leq) && b != []
    ensures !AlikeEquivalents([], b, leq, same)
  {
    FirstEquivalent(b, leq);
    assert !AllSame(Equivalents([], b[0], leq), Equivalents(b, b[0], leq), same);
  }

  lemma HeadFromEquivalents<T(!new)>(a: seq<T>, b: seq<T>, leq: (T, T) -> bool, same: (T, T) -> bool)
    requires TotalPreorder(leq) && SortedBy(a, leq) && SortedBy(b, leq) && a != []
    requires AlikeEquivalents(a, b, leq, same)
    ensures b != [] && same(a[0], b[0]) && leq(a[0], b[0]) && leq(b[0], a[0])
  {
    FirstEquivalent(a, leq);
    assert AllSame(Equivalents(a, a[0], leq), Equivalents(b, a[0], leq), same);
    var y := Equivalents(b, a[0], leq)[0];
    EquivalentsOfMember(b, a[0], y, leq);
    FirstEquivalent(b, leq);
    assert AllSame(Equivalents(a, b[0], leq), Equivalents(b, b[0], leq), same);
    var x := Equivalents(a, b[0], leq)[0];
    EquivalentsOfMember(a, b[0], x, leq);
    FirstIsLeast(a, x, leq);
    FirstIsLeast(b, y, leq);
  }

  lemma EquivalentsCons<T(!new)>(s: seq<T>, x: T, leq: (T, T) -> bool)
    requires s != []
    ensures var rest := Equivalents(s[1..], x, leq);
      if leq(x, s[0]) && leq(s[0], x)
      then Equivalents(s, x, leq) == [s[0]] + rest && Equivalents(s, x, leq)[1..] == rest
      else Equivalents(s, x, leq) == rest
  {
  }

  lemma TailEquivalents<T(!new)>(a: seq<T>, b: seq<T>, x: T, leq: (T, T) -> bool, same: (T, T) -> bool)
    requires TotalPreorder(leq) && a != [] && b != [] && leq(a[0], b[0]) && leq(b[0], a[0])
    requires AllSame(Equivalents(a, x, leq), Equivalents(b, x, leq), same)
    ensures AllSame(Equivalents(a[1..], x, leq), Equivalents(b[1..], x, leq), same)
  {
    EquivalentsCons(a, x, leq);
    EquivalentsCons(b, x, leq);
    if leq(x, a[0]) && leq(a[0], x) {
      assert leq(x, b[0]) && leq(b[0], x);
      AllSameTail(Equivalents(a, x, leq), Equivalents(b, x, leq), same);
    } else {
      assert !(leq(x, b[0]) && leq(b[0], x));
    }
  }

  lemma {:induction false} SortedByEquivalents<T(!new)>(a: seq<T>, b: seq<T>, leq: (T, T) -> bool,
                                                        same: (T, T) -> bool)
    requires TotalPreorder(leq) && SortedBy(a, leq) && SortedBy(b, leq)
    requires AlikeEquivalents(a, b, leq, same)
    ensures AllSame(a, b, same)
  {
    if a == [] {
      if b != [] {
        NoneIsAlike(b, leq, same);
      }
    } else {
      HeadFromEquivalents(a, b, leq, same);
      forall x
        ensures AllSame(Equivalents(a[1..], x, leq), Equivalents(b[1..], x, leq), same)
      {
        TailEquivalents(a, b, x, leq, same);
      }
      SortedByEquivalents(a[1..], b[1..], leq, same);
      AllSameCons(a, b, same);
    }
  }

  /** What is alike is equivalent. */
  ghost predicate Respects<T(!new)>(same: (T, T) -> bool, leq: (T, T) -> bool) {
    forall x, y | same(x, y) :: leq(x, y) && leq(y, x)
  }

  lemma {:induction false} EquivalentsOfAlike<T(!new)>(a: seq<T>, b: seq<T>, x: T, leq: (T, T) -> bool,
                                                       same: (T, T) -> bool)
    requires TotalPreorder(leq) && Respects(same, leq) && AllSame(a, b, same)
    ensures AllSame(Equivalents(a, x, leq), Equivalents(b, x, leq), same)
  {
    if a != [] {
      assert same(a[0], b[0]);
      AllSameTail(a, b, same);
      EquivalentsOfAlike(a[1..], b[1..], x, leq, same);
      var s, t := Equivalents(a[1..], x, leq), Equivalents(b[1..], x, leq);
      if leq(x, a[0]) && leq(a[0], x) {
        assert ([a[0]] + s)[1..] == s && ([b[0]] + t)[1..] == t;
        AllSameCons([a[0]] + s, [b[0]] + t, same);
      } else {
        assert [] + s == s && [] + t == t;
      }
    }
  }

  /** The stable sort forgets exactly the order between members that are not equivalent: the
      sorted lists are alike exactly when the members equivalent to anything are. */
  lemma SortByAlikeExactly<T(!new)>(a: seq<T>, b: seq<T>, leq: (T, T) -> bool, same: (T, T) -> bool)
    requires TotalPreorder(leq) && Respects(same, leq)
    ensures AllSame(SortBy(a, leq), SortBy(b, leq), same) <==> AlikeEquivalents(a, b, leq, same)
  {
    var s, t := SortBy(a, leq), SortBy(b, leq);
    SortBySorted(a, leq);
    SortBySorted(b, leq);
    forall x
      ensures Equivalents(s, x, leq) == Equivalents(a, x, leq) && Equivalents(t, x, leq) == Equivalents(b, x, leq)
      ensures AllSame(s, t, same) ==> AllSame(Equivalents(a, x, leq), Equivalents(b, x, leq), same)
    {
      SortByKeepsEquivalents(a, x, leq);
      SortByKeepsEquivalents(b, x, leq);
      if AllSame(s, t, same) {
        EquivalentsOfAlike(s, t, x, leq, same);
      }
    }
    if AlikeEquivalents(a, b, leq, same) {
      SortedByEquivalents(s, t, leq, same);
    }
  }

  lemma AlikeIsEqual<T>(a: seq<T>, b: seq<T>)
    ensures AllSame(a, b, (x: T, y: T) => x == y) <==> a == b
  {
    var same := (x: T, y: T) => x == y;
    if AllSame(a, b, same) {
      forall i | 0 <= i < |a|
        ensures a[i] == b[i]
      {
        assert same(a[i], b[i]);
      }
    }
  }

  /** And in particular they are equal exactly when those members are. */
  lemma SortByExact<T(!new)>(a: seq<T>, b: seq<T>, leq: (T, T) -> bool)
    requires TotalPreorder(leq)
    ensures SortBy(a, leq) == SortBy(b, leq) <==> SameEquivalents(a, b, leq)
  {
    var same := (x: T, y: T) => x == y;
    SortByAlikeExactly(a, b, leq, same);
    AlikeIsEqual(SortBy(a, leq), SortBy(b, leq));
    forall x
      ensures AllSame(Equivalents(a, x, leq), Equivalents(b, x, leq), same)
              <==> Equivalents(a, x, leq) == Equivalents(b, x, leq)
    {
      AlikeIsEqual(Equivalents(a, x, leq), Equivalents(b, x, leq));
    }
  }
}
