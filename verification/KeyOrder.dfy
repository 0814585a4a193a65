/** The order of object keys: by UTF-16 code unit, section 3.2.3 of RFC 8785. */
module KeyOrder {
  import opened Sorting
  import opened Wrappers

  /** The UTF-16 code units of one Unicode scalar value. */
  function UnitsOf(c: char): (u: seq<nat>)
    ensures |u| > 0
  {
    var n := c as int;
    if n < 0x1_0000 then [n]
    else [0xD800 + (n - 0x1_0000) / 0x400, 0xDC00 + (n - 0x1_0000) % 0x400]
  }

  function Utf16(s: string): seq<nat> {
    if s == "" then [] else UnitsOf(s[0]) + Utf16(s[1..])
  }

  predicate KeyLeq(a: string, b: string) {
    LexLeq(Utf16(a), Utf16(b))
  }

  predicate KeyLess(a: string, b: string) {
    a != b && KeyLeq(a, b)
  }

  ghost predicate Increasing(keys: seq<string>) {
    forall i, j | 0 <= i < j < |keys| :: KeyLess(keys[i], keys[j])
  }

  // -- The order, by first difference of the code units ----------------------------

  /** The string that code units encode as UTF-16 (RFC 2781): one unit outside the surrogates,
      or a high surrogate followed by a low one. */
  function Utf16Decoded(u: seq<nat>): Option<string> {
    if u == [] then Some("")
    else if u[0] < 0xD800 || 0xE000 <= u[0] < 0x1_0000 then Before(u[0] as char, Utf16Decoded(u[1..]))
    else if u[0] < 0xDC00 && |u| > 1 && 0xDC00 <= u[1] < 0xE000 then
      Before((0x1_0000 + (u[0] - 0xD800) * 0x400 + (u[1] - 0xDC00)) as char, Utf16Decoded(u[2..]))
    else None
  }

  function Before(c: char, rest: Option<string>): Option<string> {
    if rest.Some? then Some([c] + rest.value) else None
  }

  /** The units of a string are its UTF-16. */
  lemma {:induction false} Utf16RoundTrip(s: string)
    ensures Utf16Decoded(Utf16(s)) == Some(s)
  {
    if s != "" {
      Utf16RoundTrip(s[1..]);
      DecodedFirst(s[0], Utf16(s[1..]));
      assert s == [s[0]] + s[1..];
    }
  }

  lemma DecodedFirst(c: char, rest: seq<nat>)
    ensures Utf16Decoded(UnitsOf(c) + rest) == Before(c, Utf16Decoded(rest))
  {
    var u := UnitsOf(c);
    var s := u + rest;
    assert s[|u|..] == rest && s[0] == u[0];
    if |u| == 2 {
      assert s[1] == u[1];
    }
  }

  /** One key is before another exactly when, at the first unit where they differ, it ends or
      has the smaller unit. */
  lemma KeyLessExactly(a: string, b: string)
    ensures KeyLess(a, b) <==> Precedes(Utf16(a), Utf16(b))
  {
    LexLeqExactly(Utf16(a), Utf16(b));
    if Utf16(a) == Utf16(b) {
      Utf16Injective(a, b);
    }
    if a == b && Precedes(Utf16(a), Utf16(b)) {
      NothingPrecedesItself(Utf16(a));
    }
  }

  /** So the keys of a map are written in that order, each once. */
  lemma SortedKeysAscend(keys: set<string>)
    ensures Elements(SortedKeys(keys)) == keys
    ensures forall i, j | 0 <= i < j < |SortedKeys(keys)| ::
              Precedes(Utf16(SortedKeys(keys)[i]), Utf16(SortedKeys(keys)[j]))
  {
    var sorted := SortedKeys(keys);
    forall i, j | 0 <= i < j < |sorted|
      ensures Precedes(Utf16(sorted[i]), Utf16(sorted[j]))
    {
      KeyLessExactly(sorted[i], sorted[j]);
    }
  }

  // -- KeyLeq is a total order ----------------------------------------------------

  /** Surrogates occur only in pairs, so the first unit decides how many belong to the
      first scalar value, and distinct strings have distinct units. */
  lemma {:induction false} Utf16Injective(a: string, b: string)
    requires Utf16(a) == Utf16(b)
    ensures a == b
  {
    if a == "" || b == "" {
    } else {
      var ua, ub := UnitsOf(a[0]), UnitsOf(b[0]);
      assert Utf16(a)[0] == ua[0] && Utf16(b)[0] == ub[0];
      assert |ua| == |ub|;
      assert Utf16(a)[..|ua|] == ua && Utf16(b)[..|ub|] == ub;
      assert ua == ub;
      if |ua| == 2 {
        assert Utf16(a)[1] == ua[1] && Utf16(b)[1] == ub[1];
      }
      assert a[0] as int == b[0] as int;
      assert Utf16(a)[|ua|..] == Utf16(a[1..]) && Utf16(b)[|ub|..] == Utf16(b[1..]);
      Utf16Injective(a[1..], b[1..]);
      assert a == [a[0]] + a[1..] && b == [b[0]] + b[1..];
    }
  }

  lemma KeyTotal(a: string, b: string)
    ensures KeyLeq(a, b) || KeyLeq(b, a)
  {
    LexTotal(Utf16(a), Utf16(b));
  }

  lemma KeyAntisymmetric(a: string, b: string)
    requires KeyLeq(a, b) && KeyLeq(b, a)
    ensures a == b
  {
    LexAntisymmetric(Utf16(a), Utf16(b));
    Utf16Injective(a, b);
  }

  lemma KeyTransitive(a: string, b: string, c: string)
    requires KeyLeq(a, b) && KeyLeq(b, c)
    ensures KeyLeq(a, c)
  {
    LexTransitive(Utf16(a), Utf16(b), Utf16(c));
  }

  lemma KeyLessTransitive(a: string, b: string, c: string)
    requires KeyLess(a, b) && KeyLess(b, c)
    ensures KeyLess(a, c)
  {
    KeyTransitive(a, b, c);
    if a == c {
      KeyAntisymmetric(a, b);
    }
  }

  // -- The sorted keys of a set are unique ------------------------------------------

  ghost function Elements(keys: seq<string>): set<string> {
    set k | k in keys
  }

  lemma NoElements(a: seq<string>)
    ensures Elements(a) == {} <==> a == []
  {
    if a != [] {
      assert a[0] in Elements(a);
    }
  }

  /** Two increasing sequences with the same elements are the same sequence. */
  lemma {:induction false} IncreasingUnique(a: seq<string>, b: seq<string>)
    requires Increasing(a) && Increasing(b) && Elements(a) == Elements(b)
    ensures a == b
  {
    NoElements(a);
    NoElements(b);
    if a != [] {
      assert a[0] in Elements(a) && b[0] in Elements(b);
      if a[0] != b[0] {
        FirstIsLeast(a, b[0]);
        FirstIsLeast(b, a[0]);
        KeyAntisymmetric(a[0], b[0]);
      }
      TailElements(a);
      TailElements(b);
      IncreasingUnique(a[1..], b[1..]);
      assert a == [a[0]] + a[1..] && b == [b[0]] + b[1..];
    }
  }

  lemma FirstIsLeast(a: seq<string>, k: string)
    requires Increasing(a) && k in a
    ensures KeyLeq(a[0], k)
  {
    var i :| 0 <= i < |a| && a[i] == k;
    if i == 0 {
      KeyTotal(k, k);
    } else {
      assert KeyLess(a[0], a[i]);
    }
  }

  lemma TailElements(a: seq<string>)
    requires Increasing(a) && a != []
    ensures Increasing(a[1..])
    ensures Elements(a[1..]) == Elements(a) - {a[0]}
  {
    assert a == [a[0]] + a[1..];
    forall i | 0 <= i < |a[1..]|
      ensures a[1..][i] != a[0]
    {
      assert KeyLess(a[0], a[i + 1]);
    }
  }

  /** The keys of a set in increasing order. */
  ghost function SortedKeys(keys: set<string>): (r: seq<string>)
    ensures Increasing(r) && Elements(r) == keys
  {
    SortedKeysExist(keys);
    var r :| Increasing(r) && Elements(r) == keys;
    r
  }

  lemma SortedKeysMembers(keys: set<string>)
    ensures forall k :: k in SortedKeys(keys) <==> k in keys
  {
    assert forall k :: k in SortedKeys(keys) <==> k in Elements(SortedKeys(keys));
  }

  lemma {:induction false} SortedKeysExist(keys: set<string>)
    ensures exists r :: Increasing(r) && Elements(r) == keys
  {
    if keys == {} {
      var r: seq<string> := [];
      assert Increasing(r) && Elements(r) == keys;
    } else {
      var k :| k in keys;
      SortedKeysExist(keys - {k});
      var r :| Increasing(r) && Elements(r) == keys - {k};
      var i := Position(r, k);
      InsertIncreasing(r, k, i);
      var t := r[..i] + [k] + r[i..];
      assert Increasing(t) && Elements(t) == keys;
    }
  }

  /** How many keys of `r` precede `k`. */
  function Position(r: seq<string>, k: string): (i: nat)
    ensures i <= |r|
    ensures forall j | 0 <= j < i :: KeyLess(r[j], k)
    ensures i < |r| ==> !KeyLess(r[i], k)
  {
    if r == [] || !KeyLess(r[0], k) then 0 else 1 + Position(r[1..], k)
  }

  lemma InsertIncreasing(r: seq<string>, k: string, i: nat)
    requires Increasing(r) && k !in r && i == Position(r, k)
    ensures Increasing(r[..i] + [k] + r[i..])
    ensures Elements(r[..i] + [k] + r[i..]) == Elements(r) + {k}
  {
    forall j | i <= j < |r|
      ensures KeyLess(k, r[j])
    {
      KeyTotal(r[i], k);
      if i < j {
        KeyLessTransitive(k, r[i], r[j]);
      }
    }
    var s := r[..i] + [k] + r[i..];
    forall j, m | 0 <= j < m < |s|
      ensures KeyLess(s[j], s[m])
    {
      InsertOrdered(r, k, i, j, m);
    }
    InsertElements(r, k, i);
  }

  lemma InsertOrdered(r: seq<string>, k: string, i: nat, j: nat, m: nat)
    requires Increasing(r) && i <= |r| && j < m <= |r|
    requires forall x | 0 <= x < i :: KeyLess(r[x], k)
    requires forall x | i <= x < |r| :: KeyLess(k, r[x])
    ensures var s := r[..i] + [k] + r[i..]; KeyLess(s[j], s[m])
  {
    var s := r[..i] + [k] + r[i..];
    assert s[j] == if j < i then r[j] else if j == i then k else r[j - 1];
    assert s[m] == if m < i then r[m] else if m == i then k else r[m - 1];
  }

  lemma InsertElements(r: seq<string>, k: string, i: nat)
    requires i <= |r|
    ensures Elements(r[..i] + [k] + r[i..]) == Elements(r) + {k}
  {
    assert r == r[..i] + r[i..];
  }

  // -- Sorting ------------------------------------------------------------------

  /** The keys of a map in increasing order, whatever order the map yields them in. */
  method SortKeys(keys: set<string>) returns (sorted: seq<string>)
    ensures sorted == SortedKeys(keys)
  {
    sorted := [];
    var left := keys;
    while left != {}
      invariant left <= keys
      invariant Increasing(sorted) && Elements(sorted) == keys - left
      decreases left
    {
      var k :| k in left;
      left := left - {k};
      var i := Position(sorted, k);
      InsertIncreasing(sorted, k, i);
      sorted := sorted[..i] + [k] + sorted[i..];
    }
    IncreasingUnique(sorted, SortedKeys(keys));
  }
}
