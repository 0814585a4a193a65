/** The JSON Canonicalization Scheme writer (RFC 8785). `Text` is the canonical text of a
    value; the methods of `Writer` emit it onto a growing buffer. */
module Jcs {
  import opened Json
  import opened KeyOrder
  import opened Wrappers

  datatype CanonicalError = NonFiniteNumber

  // -- Numbers ------------------------------------------------------------------

  /** ECMAScript `Number::toString`, section 6.1.6.1.20 of ECMA-262. */
  function EsNumberText(f: Double): string
    requires f.ZeroDouble? || f.Finite?
  {
    match f
    case ZeroDouble(_) => "0"
    case Finite(negative, digits, exp10) =>
      var sign := if negative then "-" else "";
      var k, n := |digits|, exp10 + 1;
      if k <= n <= 21 then
        sign + digits + Zeros(n - k)
      else if 0 < n <= 21 then
        sign + digits[..n] + "." + digits[n..]
      else if -6 < n <= 0 then
        sign + "0." + Zeros(-n) + digits
      else
        var e := n - 1;
        var mant := if k == 1 then digits else digits[..1] + "." + digits[1..];
        sign + mant + "e" + (if e >= 0 then "+" else "-") + NatText(if e >= 0 then e else -e)
  }

  function NumberText(n: Number): string
    requires FiniteNumber(n)
  {
    if IsInteger(n) then IntText(IntegerOf(n)) else EsNumberText(n.f)
  }

  // -- Strings ------------------------------------------------------------------

  function HexDigit(d: nat): char
    requires d < 16
  {
    if d < 10 then ('0' as int + d) as char else ('a' as int + (d - 10)) as char
  }

  function EscapeChar(c: char): string {
    if c == '"' then "\\\""
    else if c == '\\' then "\\\\"
    else if c as int == 0x8 then "\\b"
    else if c as int == 0x9 then "\\t"
    else if c as int == 0xA then "\\n"
    else if c as int == 0xC then "\\f"
    else if c as int == 0xD then "\\r"
    else if c as int < 0x20 then "\\u00" + [HexDigit(c as int / 16), HexDigit(c as int % 16)]
    else [c]
  }

  function EscapedText(s: string): string {
    if s == "" then "" else EscapeChar(s[0]) + EscapedText(s[1..])
  }

  function StringText(s: string): string {
    "\"" + EscapedText(s) + "\""
  }

  // -- Values -------------------------------------------------------------------

  ghost function Text(v: Value): string
    requires AllFinite(v)
    decreases v, 0
  {
    match v
    case Null => "null"
    case Bool(b) => if b then "true" else "false"
    case String(s) => StringText(s)
    case Num(n) => NumberText(n)
    case Array(items) => "[" + ItemsText(v, 0) + "]"
    case Object(fields) => "{" + MembersText(SortedKeys(fields.Keys), v, 0) + "}"
  }

  function Separator(i: nat): string {
    if i > 0 then "," else ""
  }

  /** The items of the array `v` from index `i` on. */
  ghost function ItemsText(v: Value, i: nat): string
    requires v.Array? && AllFinite(v) && i <= |v.items|
    decreases v, 0, |v.items| - i
  {
    if i == |v.items| then ""
    else Separator(i) + Text(v.items[i]) + ItemsText(v, i + 1)
  }

  /** The members of the object `v` under `keys` from index `i` on. */
  ghost function MembersText(keys: seq<string>, v: Value, i: nat): string
    requires v.Object? && AllFinite(v) && i <= |keys| && forall k | k in keys :: k in v.fields
    decreases v, 0, |keys| - i + 1
  {
    if i == |keys| then ""
    else Separator(i) + MemberText(v, keys[i]) + MembersText(keys, v, i + 1)
  }

  ghost function MemberText(v: Value, key: string): string
    requires v.Object? && AllFinite(v) && key in v.fields
    decreases v, 0, 0
  {
    StringText(key) + ":" + Text(v.fields[key])
  }

  // -- The writer ----------------------------------------------------------------

  /** The output string the writer appends to. */
  class Writer {
    var out: string

    constructor ()
      ensures out == ""
    {
      out := "";
    }

    method Push(s: string)
      modifies this
      ensures out == old(out) + s
    {
      out := out + s;
    }

    method WriteString(s: string)
      modifies this
      ensures out == old(out) + StringText(s)
    {
      Push("\"");
      for i := 0 to |s|
        invariant out + EscapedText(s[i..]) == old(out) + "\"" + EscapedText(s)
      {
        EscapeStep(out, s[i..]);
        assert s[i..][1..] == s[i + 1..];
        Push(EscapeChar(s[i]));
      }
      assert s[|s|..] == "";
      assert out == old(out) + "\"" + EscapedText(s);
      Push("\"");
      assert out == old(out) + ("\"" + EscapedText(s) + "\"");
    }

    method WriteValue(v: Value) returns (ok: bool)
      modifies this
      ensures ok <==> AllFinite(v)
      ensures ok ==> out == old(out) + Text(v)
      decreases v, 1
    {
      match v
      case Null => Push("null"); ok := true;
      case Bool(b) => Push(if b then "true" else "false"); ok := true;
      case String(s) => WriteString(s); ok := true;
      case Num(n) =>
        ok := FiniteNumber(n);
        if ok {
          var t := WriteNumber(n);
          Push(t);
        }
      case Array(_) => ok := WriteArray(v);
      case Object(_) => ok := WriteObject(v);
    }

    method WriteArray(v: Value) returns (ok: bool)
      requires v.Array?
      modifies this
      ensures ok <==> AllFinite(v)
      ensures ok ==> out == old(out) + Text(v)
      decreases v, 0
    {
      Push("[");
      ok := WriteItems(v);
      if ok {
        Push("]");
        Enclose(old(out), "[", ItemsText(v, 0), "]");
      }
    }

    method WriteItems(v: Value) returns (ok: bool)
      requires v.Array?
      modifies this
      ensures ok <==> AllFinite(v)
      ensures ok ==> out == old(out) + ItemsText(v, 0)
      decreases v, 0, 1
    {
      var items := v.items;
      for i := 0 to |items|
        invariant forall j | 0 <= j < i :: AllFinite(items[j])
        invariant AllFinite(v) ==> out + ItemsText(v, i) == old(out) + ItemsText(v, 0)
      {
        ghost var before := out;
        Push(Separator(i));
        ok := WriteValue(items[i]);
        if !ok {
          return;
        }
        if AllFinite(v) {
          NextItem(before, v, i);
        }
      }
      ok := true;
    }

    method WriteObject(v: Value) returns (ok: bool)
      requires v.Object?
      modifies this
      ensures ok <==> AllFinite(v)
      ensures ok ==> out == old(out) + Text(v)
      decreases v, 0
    {
      var keys := SortKeys(v.fields.Keys);
      SortedKeysMembers(v.fields.Keys);
      Push("{");
      ok := WriteMembers(v, keys);
      if ok {
        Push("}");
        Enclose(old(out), "{", MembersText(keys, v, 0), "}");
      }
    }

    method WriteMembers(v: Value, keys: seq<string>) returns (ok: bool)
      requires v.Object? && forall k :: k in keys <==> k in v.fields
      modifies this
      ensures ok <==> AllFinite(v)
      ensures ok ==> out == old(out) + MembersText(keys, v, 0)
      decreases v, 0, 1
    {
      for i := 0 to |keys|
        invariant forall j | 0 <= j < i :: AllFinite(v.fields[keys[j]])
        invariant AllFinite(v) ==> out + MembersText(keys, v, i) == old(out) + MembersText(keys, v, 0)
      {
        ghost var before := out;
        Push(Separator(i));
        ok := WriteMember(v, keys[i]);
        if !ok {
          MembersFinite(v, keys);
          return;
        }
        if AllFinite(v) {
          NextMember(before, v, keys, i);
        }
      }
      MembersFinite(v, keys);
      assert out + "" == out;
      ok := true;
    }

    method WriteMember(v: Value, key: string) returns (ok: bool)
      requires v.Object? && key in v.fields
      modifies this
      ensures ok <==> AllFinite(v.fields[key])
      ensures AllFinite(v) ==> out == old(out) + MemberText(v, key)
      decreases v, 0, 0
    {
      WriteString(key);
      Push(":");
      ok := WriteValue(v.fields[key]);
      if AllFinite(v) {
        assert out == old(out) + (StringText(key) + ":" + Text(v.fields[key]));
      }
    }
  }

  lemma MembersFinite(v: Value, keys: seq<string>)
    requires v.Object? && forall k :: k in keys <==> k in v.fields
    ensures AllFinite(v) <==> forall j | 0 <= j < |keys| :: AllFinite(v.fields[keys[j]])
  {
    if forall j | 0 <= j < |keys| :: AllFinite(v.fields[keys[j]]) {
      forall k | k in v.fields
        ensures AllFinite(v.fields[k])
      {
        var j :| 0 <= j < |keys| && keys[j] == k;
      }
    }
  }

  lemma Enclose(before: string, open: string, body: string, close: string)
    ensures before + open + body + close == before + (open + body + close)
  {
  }

  lemma Regroup(a: string, b: string, c: string, rest: string)
    ensures a + (b + c + rest) == a + b + c + rest
  {
  }

  lemma NextItem(before: string, v: Value, i: nat)
    requires v.Array? && AllFinite(v) && i < |v.items|
    ensures before + ItemsText(v, i) == before + Separator(i) + Text(v.items[i]) + ItemsText(v, i + 1)
  {
    Regroup(before, Separator(i), Text(v.items[i]), ItemsText(v, i + 1));
  }

  lemma NextMember(before: string, v: Value, keys: seq<string>, i: nat)
    requires v.Object? && AllFinite(v) && i < |keys| && forall k | k in keys :: k in v.fields
    ensures before + MembersText(keys, v, i)
         == before + Separator(i) + MemberText(v, keys[i]) + MembersText(keys, v, i + 1)
  {
    Regroup(before, Separator(i), MemberText(v, keys[i]), MembersText(keys, v, i + 1));
  }

  lemma EscapeStep(before: string, s: string)
    requires s != ""
    ensures before + EscapedText(s) == before + EscapeChar(s[0]) + EscapedText(s[1..])
  {
  }

  lemma OneMoreZero(before: string, i: nat)
    ensures before + Zeros(i) + "0" == before + Zeros(i + 1)
  {
  }

  method PadZeros(before: string, zeros: nat) returns (s: string)
    ensures s == before + Zeros(zeros)
  {
    s := before;
    for i := 0 to zeros
      invariant s == before + Zeros(i)
    {
      OneMoreZero(before, i);
      s := s + "0";
    }
  }

  /** From the point beyond the digits to the point among them. */
  method FixedNumber(f: Double) returns (s: string)
    requires f.Finite? && 0 < f.exp10 + 1 <= 21
    ensures s == EsNumberText(f)
  {
    var sign := if f.negative then "-" else "";
    var digits := f.digits;
    var k, n := |digits|, f.exp10 + 1;
    if k <= n {
      s := PadZeros(sign + digits, n - k);
    } else {
      s := sign + digits[..n] + "." + digits[n..];
    }
  }

  method ScientificNumber(f: Double) returns (s: string)
    requires f.Finite? && !(-6 < f.exp10 + 1 <= 21)
    ensures s == EsNumberText(f)
  {
    var sign := if f.negative then "-" else "";
    var digits := f.digits;
    var e := f.exp10;
    var mant := if |digits| == 1 then digits else digits[..1] + "." + digits[1..];
    s := sign + mant + "e" + (if e >= 0 then "+" else "-") + NatText(if e >= 0 then e else -e);
  }

  method EsNumberToString(f: Double) returns (s: string)
    requires f.ZeroDouble? || f.Finite?
    ensures s == EsNumberText(f)
  {
    if f.ZeroDouble? {
      return "0";
    }
    var n := f.exp10 + 1;
    if 0 < n <= 21 {
      s := FixedNumber(f);
    } else if -6 < n <= 0 {
      s := (if f.negative then "-" else "") + "0." + Zeros(-n) + f.digits;
    } else {
      s := ScientificNumber(f);
    }
  }

  method WriteNumber(n: Number) returns (s: string)
    requires FiniteNumber(n)
    ensures s == NumberText(n)
  {
    if IsInteger(n) {
      return IntText(IntegerOf(n));
    }
    s := EsNumberToString(n.f);
  }

  method Canonicalize(v: Value) returns (r: Result<string, CanonicalError>)
    ensures r.Ok? <==> AllFinite(v)
    ensures r.Ok? ==> r.value == Text(v)
  {
    var w := new Writer();
    var ok := w.WriteValue(v);
    r := if ok then Ok(w.out) else Err(NonFiniteNumber);
  }
}
