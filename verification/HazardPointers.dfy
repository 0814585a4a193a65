/** The search reports exactly the hazardous integers of a value, each once, under distinct
    JSON Pointers that evaluate to them. */
module HazardPointers {
  import opened Json
  import opened KeyOrder
  import opened Wrappers
  import opened Hazards

  // -- Escaped tokens ----------------------------------------------------------------

  function EscapePointerChar(c: char): string {
    if c == '~' then "~0" else if c == '/' then "~1" else [c]
  }

  function EscapeChars(key: string): string {
    if key == "" then "" else EscapePointerChar(key[0]) + EscapeChars(key[1..])
  }

  lemma {:induction false} ReplaceAppend(a: string, b: string, c: char, r: string)
    ensures Replace(a + b, c, r) == Replace(a, c, r) + Replace(b, c, r)
  {
    if a == "" {
      assert a + b == b;
    } else {
      assert (a + b)[1..] == a[1..] + b;
      ReplaceAppend(a[1..], b, c, r);
    }
  }

  lemma ReplaceOne(x: char, c: char, r: string)
    ensures Replace([x], c, r) == if x == c then r else [x]
  {
    assert [x][1..] == "";
  }

  /** The two replacements, one after the other, escape each character on its own. */
  lemma {:induction false} EscapeCharwise(key: string)
    ensures EscapeToken(key) == EscapeChars(key)
  {
    if key != "" {
      var first := if key[0] == '~' then "~0" else [key[0]];
      EscapeCharwise(key[1..]);
      ReplaceAppend(first, Replace(key[1..], '~', "~0"), '/', "~1");
      ReplaceOne(key[0], '/', "~1");
      if key[0] == '~' {
        assert "~0" == ['~'] + ['0'];
        ReplaceAppend(['~'], ['0'], '/', "~1");
        ReplaceOne('~', '/', "~1");
        ReplaceOne('0', '/', "~1");
      }
    }
  }

  lemma {:induction false} UnescapeEscaped(key: string)
    ensures Unescape(EscapeChars(key)) == Some(key)
    ensures '/' !in EscapeChars(key)
  {
    if key != "" {
      var tail := EscapeChars(key[1..]);
      UnescapeEscaped(key[1..]);
      var s := EscapePointerChar(key[0]) + tail;
      if key[0] == '~' || key[0] == '/' {
        assert s[2..] == tail;
      } else {
        assert s[1..] == tail;
      }
      assert key == [key[0]] + key[1..];
    }
  }

  lemma {:induction false} EscapeUnescaped(s: string)
    requires '/' !in s && Unescape(s).Some?
    ensures EscapeChars(Unescape(s).value) == s
    decreases |s|
  {
    if s != "" {
      var n := if s[0] == '~' then 2 else 1;
      assert s == s[..n] + s[n..];
      EscapeUnescaped(s[n..]);
      var t := Unescape(s).value;
      assert t[1..] == Unescape(s[n..]).value;
      assert EscapePointerChar(t[0]) == s[..n];
    }
  }

  // -- Index tokens ------------------------------------------------------------------

  lemma AppendDigit(v: nat, c: char)
    requires v > 0 && IsDigit(c)
    ensures NatText(10 * v + DigitValue(c)) == NatText(v) + [c]
  {
    var n := 10 * v + DigitValue(c);
    assert n / 10 == v && n % 10 == DigitValue(c);
  }

  lemma OneDigit(s: string)
    requires |s| == 1 && AllDigits(s)
    ensures NatText(NatValue(s)) == s && (s[0] != '0' ==> NatValue(s) > 0)
  {
    assert s[..0] == "";
  }

  lemma SplitLast(s: string)
    requires |s| > 1 && AllDigits(s)
    ensures s == s[..|s| - 1] + [s[|s| - 1]] && s[..|s| - 1][0] == s[0] && AllDigits(s[..|s| - 1])
  {
  }

  lemma {:induction false} NatTextOfValue(s: string)
    requires s != "" && AllDigits(s) && (s[0] != '0' || |s| == 1)
    ensures NatText(NatValue(s)) == s && (s[0] != '0' ==> NatValue(s) > 0)
  {
    if |s| == 1 {
      OneDigit(s);
    } else {
      SplitLast(s);
      NatTextOfValue(s[..|s| - 1]);
      AppendDigit(NatValue(s[..|s| - 1]), s[|s| - 1]);
    }
  }

  lemma IndexToken(i: nat)
    ensures ParseIndex(NatText(i)) == Some(i)
  {
    NatTextDenotes(i);
  }

  lemma {:induction false} EscapeDigits(s: string)
    requires AllDigits(s)
    ensures EscapeChars(s) == s
  {
    if s != "" {
      assert IsDigit(s[0]);
      EscapeDigits(s[1..]);
    }
  }

  // -- Evaluating one step -----------------------------------------------------------

  /** What may follow a token in a pointer. */
  predicate Rooted(s: string) {
    s == "" || s[0] == '/'
  }

  lemma {:induction false} TokenSpanExact(token: string, rest: string)
    requires '/' !in token && Rooted(rest)
    ensures TokenSpan(token + rest) == Token(token, rest)
  {
    if token == "" {
      assert token + rest == rest;
    } else {
      assert (token + rest)[1..] == token[1..] + rest;
      TokenSpanExact(token[1..], rest);
    }
  }

  lemma {:induction false} TokenSpanWhole(s: string)
    ensures s == TokenSpan(s).text + TokenSpan(s).rest
  {
    if s != "" && s[0] != '/' {
      TokenSpanWhole(s[1..]);
    }
  }

  function StepText(token: string, rest: string): string {
    "/" + (EscapeChars(token) + rest)
  }

  lemma EvaluateStep(v: Value, token: string, rest: string)
    requires Rooted(rest)
    ensures Evaluate(v, StepText(token, rest))
         == match Step(v, token) case None => None case Some(w) => Evaluate(w, rest)
  {
    UnescapeEscaped(token);
    TokenSpanExact(EscapeChars(token), rest);
    assert StepText(token, rest)[1..] == EscapeChars(token) + rest;
  }

  lemma EvaluateSplit(v: Value, pointer: string) returns (token: string, rest: string)
    requires pointer != "" && Evaluate(v, pointer).Some?
    ensures pointer == StepText(token, rest) && Rooted(rest)
    ensures Step(v, token).Some? && Evaluate(Step(v, token).value, rest) == Evaluate(v, pointer)
  {
    var t := TokenSpan(pointer[1..]);
    TokenSpanWhole(pointer[1..]);
    EscapeUnescaped(t.text);
    token, rest := Unescape(t.text).value, t.rest;
  }

  // -- Completeness ------------------------------------------------------------------

  lemma ItemPointerAppend(q: string, i: nat, rest: string)
    ensures ItemPointer(q, i) + rest == q + StepText(NatText(i), rest)
  {
    EscapeDigits(NatText(i));
    Regroup(q, NatText(i), rest);
  }

  lemma MemberPointerAppend(q: string, key: string, rest: string)
    ensures MemberPointer(q, key) + rest == q + StepText(key, rest)
  {
    EscapeCharwise(key);
    Regroup(q, EscapeChars(key), rest);
  }

  lemma Regroup(q: string, token: string, rest: string)
    ensures q + "/" + token + rest == q + ("/" + (token + rest))
  {
  }

  lemma StepIntoItem(v: Value, token: string)
    requires v.Array? && Step(v, token).Some?
    ensures ParseIndex(token).Some?
    ensures var i := ParseIndex(token).value;
      i < |v.items| && Step(v, token).value == v.items[i] && token == NatText(i)
  {
    NatTextOfValue(token);
  }

  lemma {:induction false} HazardsComplete(v: Value, q: string, p: string, text: string,
                                           order: set<string> -> seq<string>)
    requires Enumerates(order) && Hazard(v, p, text)
    ensures (q + p, text) in HazardsIn(v, q, order)
    decreases v
  {
    if p == "" {
      assert q + p == q;
    } else {
      var token, rest := EvaluateSplit(v, p);
      if v.Array? {
        StepIntoItem(v, token);
        var i := ParseIndex(token).value;
        ItemPointerAppend(q, i, rest);
        HazardsComplete(v.items[i], ItemPointer(q, i), rest, text, order);
        ItemReported(v, 0, i, q, (q + p, text), order);
      } else {
        MemberPointerAppend(q, token, rest);
        HazardsComplete(v.fields[token], MemberPointer(q, token), rest, text, order);
        var keys := order(v.fields.Keys);
        var i :| 0 <= i < |keys| && keys[i] == token;
        MemberReported(v, keys, 0, i, q, (q + p, text), order);
      }
    }
  }

  lemma {:induction false} ItemReported(v: Value, i: nat, j: nat, q: string, e: (string, string),
                                       order: set<string> -> seq<string>)
    requires v.Array? && i <= j < |v.items| && Enumerates(order)
    requires e in HazardsIn(v.items[j], ItemPointer(q, j), order)
    ensures e in HazardsInItems(v, i, q, order)
    decreases j - i
  {
    if i < j {
      ItemReported(v, i + 1, j, q, e, order);
    }
  }

  lemma {:induction false} MemberReported(v: Value, keys: seq<string>, i: nat, j: nat, q: string, e: (string, string),
                                         order: set<string> -> seq<string>)
    requires v.Object? && i <= j < |keys| && (forall k | k in keys :: k in v.fields) && Enumerates(order)
    requires e in HazardsIn(v.fields[keys[j]], MemberPointer(q, keys[j]), order)
    ensures e in HazardsInMembers(v, keys, i, q, order)
    decreases j - i
  {
    if i < j {
      MemberReported(v, keys, i + 1, j, q, e, order);
    }
  }

  // -- Soundness ---------------------------------------------------------------------

  lemma HazardOfItem(v: Value, i: nat, rest: string, text: string)
    requires v.Array? && i < |v.items| && Hazard(v.items[i], rest, text)
    ensures Hazard(v, StepText(NatText(i), rest), text)
  {
    IndexToken(i);
    EvaluateStep(v, NatText(i), rest);
  }

  lemma HazardOfMember(v: Value, key: string, rest: string, text: string)
    requires v.Object? && key in v.fields && Hazard(v.fields[key], rest, text)
    ensures Hazard(v, StepText(key, rest), text)
  {
    EvaluateStep(v, key, rest);
  }

  lemma {:induction false} HazardsSound(v: Value, q: string, e: (string, string), order: set<string> -> seq<string>)
    returns (p: string)
    requires Enumerates(order) && e in HazardsIn(v, q, order)
    ensures e.0 == q + p && Hazard(v, p, e.1)
    decreases v
  {
    match v
    case Num(_) =>
      p := "";
      assert q + "" == q;
    case Array(items) =>
      var i := ReportedItem(v, 0, q, e, order);
      var rest := HazardsSound(items[i], ItemPointer(q, i), e, order);
      p := StepText(NatText(i), rest);
      ItemPointerAppend(q, i, rest);
      HazardOfItem(v, i, rest, e.1);
    case Object(fields) =>
      var keys := order(fields.Keys);
      var i := ReportedMember(v, keys, 0, q, e, order);
      var rest := HazardsSound(fields[keys[i]], MemberPointer(q, keys[i]), e, order);
      p := StepText(keys[i], rest);
      MemberPointerAppend(q, keys[i], rest);
      HazardOfMember(v, keys[i], rest, e.1);
  }

  lemma {:induction false} ReportedItem(v: Value, i: nat, q: string, e: (string, string),
                                       order: set<string> -> seq<string>)
    returns (j: nat)
    requires v.Array? && i <= |v.items| && Enumerates(order) && e in HazardsInItems(v, i, q, order)
    ensures i <= j < |v.items| && e in HazardsIn(v.items[j], ItemPointer(q, j), order)
    decreases |v.items| - i
  {
    if e in HazardsIn(v.items[i], ItemPointer(q, i), order) {
      j := i;
    } else {
      j := ReportedItem(v, i + 1, q, e, order);
    }
  }

  lemma {:induction false} ReportedMember(v: Value, keys: seq<string>, i: nat, q: string, e: (string, string),
                                         order: set<string> -> seq<string>)
    returns (j: nat)
    requires v.Object? && i <= |keys| && (forall k | k in keys :: k in v.fields) && Enumerates(order)
    requires e in HazardsInMembers(v, keys, i, q, order)
    ensures i <= j < |keys| && e in HazardsIn(v.fields[keys[j]], MemberPointer(q, keys[j]), order)
    decreases |keys| - i
  {
    if e in HazardsIn(v.fields[keys[i]], MemberPointer(q, keys[i]), order) {
      j := i;
    } else {
      j := ReportedMember(v, keys, i + 1, q, e, order);
    }
  }

  // -- Distinct pointers -------------------------------------------------------------

  ghost predicate DistinctPointers(found: Found) {
    forall i, j | 0 <= i < j < |found| :: found[i].0 != found[j].0
  }

  lemma DistinctAppend(a: Found, b: Found)
    requires DistinctPointers(a) && DistinctPointers(b)
    requires forall x, y | x in a && y in b :: x.0 != y.0
    ensures DistinctPointers(a + b)
  {
    var c := a + b;
    forall i, j | 0 <= i < j < |c|
      ensures c[i].0 != c[j].0
    {
      if i < |a| <= j {
        assert c[i] in a && c[j] in b;
      }
    }
  }

  lemma TokensDiffer(q: string, s: string, p: string, t: string, r: string)
    requires '/' !in s && '/' !in t && Rooted(p) && Rooted(r) && s != t
    ensures q + "/" + s + p != q + "/" + t + r
  {
    TokenSpanExact(s, p);
    TokenSpanExact(t, r);
    AfterSlash(q, s, p);
    AfterSlash(q, t, r);
  }

  lemma AfterSlash(q: string, s: string, p: string)
    ensures (q + "/" + s + p)[|q| + 1..] == s + p
  {
  }

  lemma {:induction false} HazardsDistinct(v: Value, q: string, order: set<string> -> seq<string>)
    requires Enumerates(order)
    ensures DistinctPointers(HazardsIn(v, q, order))
    decreases v, 1
  {
    match v
    case Array(_) => ItemsDistinct(v, 0, q, order);
    case Object(fields) => MembersDistinct(v, order(fields.Keys), 0, q, order);
    case _ =>
  }

  lemma {:induction false} ItemsDistinct(v: Value, i: nat, q: string, order: set<string> -> seq<string>)
    requires v.Array? && i <= |v.items| && Enumerates(order)
    ensures DistinctPointers(HazardsInItems(v, i, q, order))
    decreases v, 0, |v.items| - i
  {
    if i < |v.items| {
      HazardsDistinct(v.items[i], ItemPointer(q, i), order);
      ItemsDistinct(v, i + 1, q, order);
      var a, b := HazardsIn(v.items[i], ItemPointer(q, i), order), HazardsInItems(v, i + 1, q, order);
      forall x, y | x in a && y in b
        ensures x.0 != y.0
      {
        var p := HazardsSound(v.items[i], ItemPointer(q, i), x, order);
        var j := ReportedItem(v, i + 1, q, y, order);
        var r := HazardsSound(v.items[j], ItemPointer(q, j), y, order);
        IndexToken(i);
        IndexToken(j);
        TokensDiffer(q, NatText(i), p, NatText(j), r);
      }
      DistinctAppend(a, b);
    }
  }

  lemma {:induction false} MembersDistinct(v: Value, keys: seq<string>, i: nat, q: string,
                                          order: set<string> -> seq<string>)
    requires v.Object? && i <= |keys| && (forall k | k in keys :: k in v.fields) && Enumerates(order)
    requires forall m, n | 0 <= m < n < |keys| :: keys[m] != keys[n]
    ensures DistinctPointers(HazardsInMembers(v, keys, i, q, order))
    decreases v, 0, |keys| - i
  {
    if i < |keys| {
      var w := v.fields[keys[i]];
      HazardsDistinct(w, MemberPointer(q, keys[i]), order);
      MembersDistinct(v, keys, i + 1, q, order);
      var a, b := HazardsIn(w, MemberPointer(q, keys[i]), order), HazardsInMembers(v, keys, i + 1, q, order);
      forall x, y | x in a && y in b
        ensures x.0 != y.0
      {
        var p := HazardsSound(w, MemberPointer(q, keys[i]), x, order);
        var j := ReportedMember(v, keys, i + 1, q, y, order);
        var r := HazardsSound(v.fields[keys[j]], MemberPointer(q, keys[j]), y, order);
        EscapedTokensDiffer(keys[i], keys[j]);
        TokensDiffer(q, EscapeToken(keys[i]), p, EscapeToken(keys[j]), r);
      }
      DistinctAppend(a, b);
    }
  }

  lemma EscapedTokensDiffer(a: string, b: string)
    requires a != b
    ensures EscapeToken(a) != EscapeToken(b) && '/' !in EscapeToken(a) && '/' !in EscapeToken(b)
  {
    EscapeCharwise(a);
    EscapeCharwise(b);
    UnescapeEscaped(a);
    UnescapeEscaped(b);
  }

  /** The report lists exactly the hazardous integers with the pointers that evaluate to
      them, and no pointer twice. */
  lemma ReportIsExact(v: Value, order: set<string> -> seq<string>)
    requires Enumerates(order)
    ensures forall p, text :: (p, text) in HazardsIn(v, "", order) <==> Hazard(v, p, text)
    ensures DistinctPointers(HazardsIn(v, "", order))
    ensures HazardsIn(v, "", order) == [] <==> HazardFree(v)
  {
    forall p, text
      ensures (p, text) in HazardsIn(v, "", order) <==> Hazard(v, p, text)
    {
      if Hazard(v, p, text) {
        HazardsComplete(v, "", p, text, order);
        assert "" + p == p;
      }
      if (p, text) in HazardsIn(v, "", order) {
        var r := HazardsSound(v, "", (p, text), order);
        assert "" + r == r;
      }
    }
    HazardsDistinct(v, "", order);
    EmptyReport(v, "", order);
  }

  lemma {:induction false} EmptyReport(v: Value, q: string, order: set<string> -> seq<string>)
    requires Enumerates(order)
    ensures HazardsIn(v, q, order) == [] <==> HazardFree(v)
    decreases v, 1
  {
    match v
    case Array(_) => EmptyItems(v, 0, q, order);
    case Object(fields) => EmptyMembers(v, order(fields.Keys), 0, q, order);
    case _ =>
  }

  ghost predicate ItemsHazardFree(v: Value, i: nat)
    requires v.Array? && i <= |v.items|
  {
    forall j | i <= j < |v.items| :: HazardFree(v.items[j])
  }

  lemma ItemsHazardFreeFrom(v: Value, i: nat)
    requires v.Array? && i < |v.items|
    ensures ItemsHazardFree(v, i) <==> HazardFree(v.items[i]) && ItemsHazardFree(v, i + 1)
  {
  }

  lemma {:induction false} EmptyItems(v: Value, i: nat, q: string, order: set<string> -> seq<string>)
    requires v.Array? && i <= |v.items| && Enumerates(order)
    ensures HazardsInItems(v, i, q, order) == [] <==> ItemsHazardFree(v, i)
    decreases v, 0, |v.items| - i
  {
    if i < |v.items| {
      EmptyReport(v.items[i], ItemPointer(q, i), order);
      EmptyItems(v, i + 1, q, order);
      ItemsHazardFreeFrom(v, i);
    }
  }

  lemma {:induction false} EmptyMembers(v: Value, keys: seq<string>, i: nat, q: string,
                                       order: set<string> -> seq<string>)
    requires v.Object? && i <= |keys| && (forall k | k in keys :: k in v.fields) && Enumerates(order)
    ensures HazardsInMembers(v, keys, i, q, order) == []
       <==> forall j | i <= j < |keys| :: HazardFree(v.fields[keys[j]])
    decreases v, 0, |keys| - i
  {
    if i < |keys| {
      EmptyReport(v.fields[keys[i]], MemberPointer(q, keys[i]), order);
      EmptyMembers(v, keys, i + 1, q, order);
    }
  }

  /** Sorted keys are one order that yields every key once. */
  lemma SortedOrderEnumerates()
    ensures Enumerates((keys: set<string>) => SortedKeys(keys))
  {
    forall keys: set<string>
      ensures forall k :: k in SortedKeys(keys) <==> k in keys
    {
      SortedKeysMembers(keys);
    }
  }
}
