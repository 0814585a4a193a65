/** The search for integers too large for the JSON data model, and the JSON Pointers it
    reports them under. `order` is the order in which a map yields its keys. */
module Hazards {
  import opened Json
  import opened Wrappers

  // -- JSON Pointer evaluation, sections 3 and 4 of RFC 6901 -------------------------

  datatype Token = Token(text: string, rest: string)

  /** The characters of `s` up to the next slash, and what follows them. */
  function TokenSpan(s: string): (r: Token)
    ensures |r.text| + |r.rest| == |s|
    ensures '/' !in r.text && (r.rest == "" || r.rest[0] == '/')
  {
    if s == "" || s[0] == '/' then Token("", s)
    else
      var tail := TokenSpan(s[1..]);
      Token([s[0]] + tail.text, tail.rest)
  }

  /** The reference token an escaped one stands for; a `~` must be followed by 0 or 1. */
  function Unescape(s: string): Option<string> {
    if s == "" then Some("")
    else if s[0] != '~' then
      match Unescape(s[1..])
      case None => None
      case Some(t) => Some([s[0]] + t)
    else if |s| == 1 || (s[1] != '0' && s[1] != '1') then None
    else
      match Unescape(s[2..])
      case None => None
      case Some(t) => Some([if s[1] == '0' then '~' else '/'] + t)
  }

  /** An array index: digits without a leading zero, or `0`. */
  function ParseIndex(s: string): Option<nat> {
    if s != "" && AllDigits(s) && (s[0] != '0' || |s| == 1) then Some(NatValue(s)) else None
  }

  function Step(v: Value, token: string): Option<Value> {
    match v
    case Array(items) =>
      (match ParseIndex(token)
       case None => None
       case Some(i) => if i < |items| then Some(items[i]) else None)
    case Object(fields) => if token in fields then Some(fields[token]) else None
    case _ => None
  }

  function Evaluate(v: Value, pointer: string): Option<Value>
    decreases |pointer|
  {
    if pointer == "" then Some(v)
    else if pointer[0] != '/' then None
    else
      var token := TokenSpan(pointer[1..]);
      match Unescape(token.text)
      case None => None
      case Some(t) =>
        match Step(v, t)
        case None => None
        case Some(w) => Evaluate(w, token.rest)
  }

  /** `pointer` leads from `v` to the hazardous integer that `text` writes. */
  predicate Hazard(v: Value, pointer: string, text: string) {
    var w := Evaluate(v, pointer);
    w.Some? && w.value.Num? && HazardousNumber(w.value.n) && text == IntText(IntegerOf(w.value.n))
  }

  // -- The search --------------------------------------------------------------------

  function Replace(s: string, c: char, r: string): string {
    if s == "" then "" else (if s[0] == c then r else [s[0]]) + Replace(s[1..], c, r)
  }

  function EscapeToken(key: string): string {
    Replace(Replace(key, '~', "~0"), '/', "~1")
  }

  /** Every map's keys come out once each. */
  ghost predicate Enumerates(order: set<string> -> seq<string>) {
    forall keys: set<string> ::
      && (forall k :: k in order(keys) <==> k in keys)
      && forall i, j | 0 <= i < j < |order(keys)| :: order(keys)[i] != order(keys)[j]
  }

  type Found = seq<(string, string)>

  /** What the search of `v`, reached under `pointer`, reports. */
  ghost function HazardsIn(v: Value, pointer: string, order: set<string> -> seq<string>): Found
    requires Enumerates(order)
    decreases v, 1
  {
    match v
    case Num(n) => if HazardousNumber(n) then [(pointer, IntText(IntegerOf(n)))] else []
    case Array(_) => HazardsInItems(v, 0, pointer, order)
    case Object(fields) => HazardsInMembers(v, order(fields.Keys), 0, pointer, order)
    case _ => []
  }

  function ItemPointer(pointer: string, i: nat): string {
    pointer + "/" + NatText(i)
  }

  function MemberPointer(pointer: string, key: string): string {
    pointer + "/" + EscapeToken(key)
  }

  ghost function HazardsInItems(v: Value, i: nat, pointer: string, order: set<string> -> seq<string>): Found
    requires v.Array? && i <= |v.items| && Enumerates(order)
    decreases v, 0, |v.items| - i
  {
    if i == |v.items| then []
    else HazardsIn(v.items[i], ItemPointer(pointer, i), order) + HazardsInItems(v, i + 1, pointer, order)
  }

  ghost function HazardsInMembers(v: Value, keys: seq<string>, i: nat, pointer: string,
                                  order: set<string> -> seq<string>): Found
    requires v.Object? && i <= |keys| && (forall k | k in keys :: k in v.fields) && Enumerates(order)
    decreases v, 0, |keys| - i
  {
    if i == |keys| then []
    else
      HazardsIn(v.fields[keys[i]], MemberPointer(pointer, keys[i]), order)
      + HazardsInMembers(v, keys, i + 1, pointer, order)
  }

  lemma Associate(a: Found, b: Found, c: Found)
    ensures a + b + c == a + (b + c)
  {
  }

  class Walk {
    /** The pointer of the value being visited, shared by every level of the search. */
    var pointer: string
    var found: Found

    constructor ()
      ensures pointer == "" && found == []
    {
      pointer, found := "", [];
    }

    method Visit(v: Value, order: set<string> -> seq<string>)
      requires Enumerates(order)
      modifies this
      ensures pointer == old(pointer)
      ensures found == old(found) + HazardsIn(v, pointer, order)
      decreases v, 1
    {
      match v
      case Num(n) =>
        if HazardousNumber(n) {
          found := found + [(pointer, IntText(IntegerOf(n)))];
        }
      case Array(_) => VisitItems(v, order);
      case Object(_) => VisitMembers(v, order);
      case _ =>
    }

    method VisitItems(v: Value, order: set<string> -> seq<string>)
      requires v.Array? && Enumerates(order)
      modifies this
      ensures pointer == old(pointer)
      ensures found == old(found) + HazardsInItems(v, 0, pointer, order)
      decreases v, 0
    {
      for i := 0 to |v.items|
        invariant pointer == old(pointer)
        invariant found + HazardsInItems(v, i, pointer, order) == old(found) + HazardsInItems(v, 0, pointer, order)
      {
        var len := |pointer|;
        pointer := pointer + "/";
        pointer := pointer + NatText(i);
        Visit(v.items[i], order);
        pointer := pointer[..len];
      }
    }

    method VisitMembers(v: Value, order: set<string> -> seq<string>)
      requires v.Object? && Enumerates(order)
      modifies this
      ensures pointer == old(pointer)
      ensures found == old(found) + HazardsIn(v, pointer, order)
      decreases v, 0
    {
      var keys := order(v.fields.Keys);
      for i := 0 to |keys|
        invariant pointer == old(pointer)
        invariant found + HazardsInMembers(v, keys, i, pointer, order) == old(found) + HazardsIn(v, pointer, order)
      {
        var len := |pointer|;
        pointer := pointer + "/";
        pointer := pointer + EscapeToken(keys[i]);
        ghost var before := found;
        Visit(v.fields[keys[i]], order);
        pointer := pointer[..len];
        Associate(before, HazardsIn(v.fields[keys[i]], MemberPointer(pointer, keys[i]), order),
                  HazardsInMembers(v, keys, i + 1, pointer, order));
      }
    }
  }

  method PrecisionHazards(v: Value, order: set<string> -> seq<string>) returns (found: Found)
    requires Enumerates(order)
    ensures found == HazardsIn(v, "", order)
  {
    var walk := new Walk();
    walk.Visit(v, order);
    found := walk.found;
  }
}
