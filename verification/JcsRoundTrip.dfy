/** The canonical text of a value reads back, exactly and to the end, as its meaning. */
module JcsRoundTrip {
  import opened Json
  import opened KeyOrder
  import opened Jcs
  import opened JsonReader

  /** What may follow a value inside an array or object, or at the end of a text. */
  predicate Ends(rest: string) {
    rest == "" || rest[0] == ',' || rest[0] == ']' || rest[0] == '}'
  }

  // -- Numbers ------------------------------------------------------------------

  /** Text that does not continue a run of digits. */
  predicate NoDigit(s: string) {
    s == "" || !IsDigit(s[0])
  }

  lemma {:induction false} DigitSpanExact(ds: string, rest: string)
    requires AllDigits(ds) && NoDigit(rest)
    ensures DigitSpan(ds + rest) == Span(ds, rest)
  {
    var s := ds + rest;
    if ds == "" {
      assert s == rest;
    } else {
      assert s[1..] == ds[1..] + rest;
      DigitSpanExact(ds[1..], rest);
    }
  }

  function ExponentText(e: int): string {
    "e" + (if e >= 0 then "+" else "-") + NatText(if e >= 0 then e else -e)
  }

  lemma DropTwo(a: char, b: char, ds: string, rest: string)
    ensures ([a, b] + ds + rest)[2..] == ds + rest
  {
  }

  lemma ReadSignedExponent(s: string, ds: string, rest: string)
    requires |s| > 1 && s[0] == 'e' && (s[1] == '+' || s[1] == '-')
    requires ds != "" && DigitSpan(s[2..]) == Span(ds, rest)
    ensures ReadExponent(s) == Done(if s[1] == '-' then -(NatValue(ds) as int) else NatValue(ds), rest)
  {
  }

  lemma ReadExponentDigits(sign: char, ds: string, rest: string)
    requires (sign == '+' || sign == '-') && ds != "" && AllDigits(ds) && Ends(rest)
    ensures ReadExponent(['e', sign] + ds + rest)
         == Done(if sign == '-' then -(NatValue(ds) as int) else NatValue(ds), rest)
  {
    DropTwo('e', sign, ds, rest);
    DigitSpanExact(ds, rest);
    ReadSignedExponent(['e', sign] + ds + rest, ds, rest);
  }

  lemma ReadExponentText(e: int, rest: string)
    requires Ends(rest)
    ensures ReadExponent(ExponentText(e) + rest) == Done(e, rest)
  {
    var m := if e >= 0 then e else -e;
    var sign := if e >= 0 then '+' else '-';
    NatTextDenotes(m);
    ReadExponentDigits(sign, NatText(m), rest);
    assert ExponentText(e) == ['e', sign] + NatText(m);
  }

  function FractionText(fraction: string): string {
    if fraction == "" then "" else "." + fraction
  }

  lemma ReadFractionText(fraction: string, after: string)
    requires AllDigits(fraction) && NoDigit(after) && (after == "" || after[0] != '.')
    ensures ReadFraction(FractionText(fraction) + after) == Done(fraction, after)
    ensures NoDigit(FractionText(fraction) + after)
  {
    if fraction == "" {
      assert "" + after == after;
    } else {
      var s := "." + fraction + after;
      assert s[1..] == fraction + after;
      DigitSpanExact(fraction, after);
    }
  }

  /** `exponent` is a written exponent of value `e`, or nothing. */
  predicate Exponent(exponent: string, e: int, rest: string) {
    && (exponent == "" || exponent[0] == 'e')
    && ReadExponent(exponent + rest) == Done(e, rest)
  }

  function ExponentPart(e: int): string {
    if e == 0 then "" else ExponentText(e)
  }

  lemma ReadExponentPart(e: int, rest: string)
    requires Ends(rest)
    ensures Exponent(ExponentPart(e), e, rest)
  {
    if e == 0 {
      assert "" + rest == rest;
    } else {
      ReadExponentText(e, rest);
    }
  }

  lemma ReadUnsignedParts(negative: bool, s: string, whole: string, tail: string, fraction: string, after: string,
                          e: int, rest: string)
    requires DigitSpan(s) == Span(whole, tail) && whole != "" && (s[0] != '0' || |whole| == 1)
    requires ReadFraction(tail) == Done(fraction, after) && ReadExponent(after) == Done(e, rest)
    requires AllDigits(whole + fraction)
    ensures ReadUnsigned(negative, s) == Done(MakeDecimal(negative, whole + fraction, |whole| + e), rest)
  {
  }

  lemma ReadMagnitude(negative: bool, whole: string, fraction: string, exponent: string, e: int, rest: string)
    requires AllDigits(whole) && AllDigits(fraction) && Ends(rest) && Exponent(exponent, e, rest)
    requires whole != "" && (whole[0] != '0' || |whole| == 1)
    ensures ReadUnsigned(negative, whole + (FractionText(fraction) + (exponent + rest)))
         == Done(MakeDecimal(negative, whole + fraction, |whole| + e), rest)
  {
    var after := exponent + rest;
    ReadFractionText(fraction, after);
    var tail := FractionText(fraction) + after;
    DigitSpanExact(whole, tail);
    assert (whole + tail)[0] == whole[0];
    ReadUnsignedParts(negative, whole + tail, whole, tail, fraction, after, e, rest);
  }

  /** A number by its parts: integer digits, fraction digits and exponent, the last two
      `""` when they are not written. */
  function Layout(negative: bool, whole: string, fraction: string, exponent: string): string {
    (if negative then "-" else "") + (whole + (FractionText(fraction) + exponent))
  }

  lemma LayoutAppend(negative: bool, whole: string, fraction: string, exponent: string, rest: string)
    ensures Layout(negative, whole, fraction, exponent) + rest
         == (if negative then "-" else "") + (whole + (FractionText(fraction) + (exponent + rest)))
  {
    var f := FractionText(fraction);
    assert f + (exponent + rest) == (f + exponent) + rest;
    assert whole + ((f + exponent) + rest) == (whole + (f + exponent)) + rest;
  }

  lemma ReadLayout(negative: bool, whole: string, fraction: string, e: int, rest: string)
    requires AllDigits(whole) && AllDigits(fraction) && Ends(rest)
    requires whole != "" && (whole[0] != '0' || |whole| == 1)
    ensures ReadNumber(Layout(negative, whole, fraction, ExponentPart(e)) + rest)
         == Done(MakeDecimal(negative, whole + fraction, |whole| + e), rest)
  {
    var exponent := ExponentPart(e);
    ReadExponentPart(e, rest);
    LayoutAppend(negative, whole, fraction, exponent, rest);
    ReadMagnitude(negative, whole, fraction, exponent, e, rest);
    ReadSigned(negative, whole + (FractionText(fraction) + (exponent + rest)));
  }

  lemma ReadSigned(negative: bool, s: string)
    requires s != "" && s[0] != '-'
    ensures ReadNumber((if negative then "-" else "") + s) == ReadUnsigned(negative, s)
  {
    if negative {
      assert ("-" + s)[1..] == s;
    } else {
      assert "" + s == s;
    }
  }

  /** The written parts of a number's text. */
  datatype Parts = Parts(negative: bool, whole: string, fraction: string, exponent: int)

  /** `text` is a number of the JSON grammar, laid out in `p`, and denotes `d`. */
  ghost predicate Spells(text: string, p: Parts, d: Decimal) {
    && p.whole != "" && AllDigits(p.whole) && (p.whole[0] != '0' || |p.whole| == 1)
    && AllDigits(p.fraction)
    && text == Layout(p.negative, p.whole, p.fraction, ExponentPart(p.exponent))
    && MakeDecimal(p.negative, p.whole + p.fraction, |p.whole| + p.exponent) == d
  }

  lemma ReadSpelled(text: string, p: Parts, d: Decimal, rest: string)
    requires Spells(text, p, d) && Ends(rest)
    ensures ReadNumber(text + rest) == Done(d, rest)
  {
    ReadLayout(p.negative, p.whole, p.fraction, p.exponent, rest);
  }

  lemma MakeDecimalExact(negative: bool, whole: string, fraction: string, digits: Digits, point: int)
    requires whole + fraction == digits
    ensures AllDigits(whole + fraction)
    ensures MakeDecimal(negative, whole + fraction, point) == Dec(negative, digits, point)
  {
    MakeDecimalPadded(negative, 0, digits, 0, point);
    assert digits == Zeros(0) + digits + Zeros(0);
  }

  lemma WholeText(f: Double)
    requires f.Finite? && |f.digits| <= f.exp10 + 1 <= 21
    ensures EsNumberText(f) == Layout(f.negative, f.digits + Zeros(f.exp10 + 1 - |f.digits|), "", "")
  {
    var zeros := Zeros(f.exp10 + 1 - |f.digits|);
    Regroup(if f.negative then "-" else "", f.digits, zeros);
  }

  lemma Regroup(sign: string, digits: string, zeros: string)
    ensures sign + digits + zeros == sign + ((digits + zeros) + ("" + ""))
  {
  }

  lemma WholeDecimal(negative: bool, digits: Digits, trail: nat, point: int)
    ensures AllDigits(digits + Zeros(trail))
    ensures MakeDecimal(negative, digits + Zeros(trail) + "", point) == Dec(negative, digits, point)
  {
    MakeDecimalPadded(negative, 0, digits, trail, point);
    assert digits + Zeros(trail) + "" == Zeros(0) + digits + Zeros(trail);
    assert digits + Zeros(trail) == Zeros(0) + digits + Zeros(trail);
  }

  /** What ECMAScript writes of a double: an exponent exactly below a millionth and from 10^21
      on, and then one digit before the point; and no zero at the end of a fraction. */
  predicate Notation(p: Parts, f: Double)
    requires f.Finite?
  {
    && p.negative == f.negative
    && (p.exponent != 0 <==> f.exp10 < -6 || f.exp10 >= 21)
    && (p.exponent != 0 ==> |p.whole| == 1)
    && (p.fraction == "" || p.fraction[|p.fraction| - 1] != '0')
  }

  lemma WholeLayout(f: Double) returns (p: Parts)
    requires f.Finite? && |f.digits| <= f.exp10 + 1 <= 21
    ensures Spells(EsNumberText(f), p, DoubleMeaning(f)) && Notation(p, f)
  {
    var k, n := |f.digits|, f.exp10 + 1;
    p := Parts(f.negative, f.digits + Zeros(n - k), "", 0);
    WholeText(f);
    WholeDecimal(f.negative, f.digits, n - k, n);
  }

  /** Regroups the text of a number with a fraction the way `Layout` groups it. */
  lemma LayoutWithFraction(sign: string, whole: string, fraction: string, exponent: string)
    ensures sign + whole + "." + fraction + exponent == sign + (whole + (("." + fraction) + exponent))
  {
  }

  lemma PointLayout(f: Double) returns (p: Parts)
    requires f.Finite? && 0 < f.exp10 + 1 <= 21 && f.exp10 + 1 < |f.digits|
    ensures Spells(EsNumberText(f), p, DoubleMeaning(f)) && Notation(p, f)
  {
    var n := f.exp10 + 1;
    var whole, fraction := f.digits[..n], f.digits[n..];
    p := Parts(f.negative, whole, fraction, 0);
    MakeDecimalExact(f.negative, whole, fraction, f.digits, n);
    var sign := if f.negative then "-" else "";
    LayoutWithFraction(sign, whole, fraction, "");
    assert EsNumberText(f) == sign + whole + "." + fraction;
    assert sign + whole + "." + fraction == sign + whole + "." + fraction + "";
  }

  lemma SmallLayout(f: Double) returns (p: Parts)
    requires f.Finite? && -6 < f.exp10 + 1 <= 0
    ensures Spells(EsNumberText(f), p, DoubleMeaning(f)) && Notation(p, f)
  {
    p := Parts(f.negative, "0", Zeros(-f.exp10 - 1) + f.digits, 0);
    SmallSpells(f, p);
    SmallNotation(f, p);
  }

  lemma SmallSpells(f: Double, p: Parts)
    requires f.Finite? && -6 < f.exp10 + 1 <= 0
    requires p == Parts(f.negative, "0", Zeros(-f.exp10 - 1) + f.digits, 0)
    ensures Spells(EsNumberText(f), p, DoubleMeaning(f))
  {
    var m := -f.exp10 - 1;
    MakeDecimalPadded(f.negative, m + 1, f.digits, 0, 1);
    LeadingZeros(m, f.digits);
    SmallText(if f.negative then "-" else "", Zeros(m), f.digits);
  }

  lemma SmallNotation(f: Double, p: Parts)
    requires f.Finite? && -6 < f.exp10 + 1 <= 0
    requires p == Parts(f.negative, "0", Zeros(-f.exp10 - 1) + f.digits, 0)
    ensures Notation(p, f)
  {
    EndsLike(Zeros(-f.exp10 - 1), f.digits);
  }

  lemma EndsLike(zeros: string, digits: string)
    requires digits != ""
    ensures (zeros + digits)[|zeros + digits| - 1] == digits[|digits| - 1]
  {
  }

  lemma LeadingZeros(m: nat, digits: string)
    ensures "0" + (Zeros(m) + digits) == Zeros(m + 1) + digits + Zeros(0)
  {
  }

  lemma SmallText(sign: string, zeros: string, digits: string)
    ensures sign + "0." + zeros + digits == sign + ("0" + (("." + (zeros + digits)) + ""))
  {
  }

  lemma ExponentialLayout(f: Double) returns (p: Parts)
    requires f.Finite? && (f.exp10 + 1 <= -6 || 21 < f.exp10 + 1)
    ensures Spells(EsNumberText(f), p, DoubleMeaning(f)) && Notation(p, f)
  {
    var e := f.exp10;
    var whole, fraction := f.digits[..1], f.digits[1..];
    p := Parts(f.negative, whole, fraction, e);
    MakeDecimalExact(f.negative, whole, fraction, f.digits, e + 1);
    var sign := if f.negative then "-" else "";
    ExponentialText(sign, f.digits, if e >= 0 then "+" else "-", NatText(if e >= 0 then e else -e));
  }

  lemma ExponentialText(sign: string, digits: string, esign: string, exponent: string)
    requires digits != ""
    ensures sign + (if |digits| == 1 then digits else digits[..1] + "." + digits[1..]) + "e" + esign + exponent
         == sign + (digits[..1] + (FractionText(digits[1..]) + ("e" + esign + exponent)))
  {
    var x := "e" + esign + exponent;
    if |digits| == 1 {
      assert digits[..1] == digits && digits[1..] == "";
      assert sign + digits + "e" + esign + exponent == sign + (digits + ("" + x));
    } else {
      LayoutWithFraction(sign, digits[..1], digits[1..], x);
      var m := digits[..1] + "." + digits[1..];
      assert sign + m + "e" + esign + exponent == sign + m + x;
      assert sign + m == sign + digits[..1] + "." + digits[1..];
    }
  }

  /** In each of its four layouts a finite double prints a decimal that denotes exactly
      its sign, digits and exponent, in ECMAScript's notation. */
  lemma EsNumberLayout(f: Double) returns (p: Parts)
    requires f.Finite?
    ensures Spells(EsNumberText(f), p, DoubleMeaning(f)) && Notation(p, f)
  {
    var k, n := |f.digits|, f.exp10 + 1;
    if k <= n <= 21 {
      p := WholeLayout(f);
    } else if 0 < n <= 21 {
      p := PointLayout(f);
    } else if -6 < n <= 0 {
      p := SmallLayout(f);
    } else {
      p := ExponentialLayout(f);
    }
  }

  lemma IntLayout(i: int) returns (p: Parts)
    ensures Spells(IntText(i), p, IntDecimal(i))
  {
    p := Parts(i < 0, NatText(if i < 0 then -i else i), "", 0);
    assert p.whole + "" == p.whole;
  }

  lemma ZeroLayout() returns (p: Parts)
    ensures Spells("0", p, DecZero)
  {
    p := Parts(false, "0", "", 0);
    MakeDecimalOfZero();
  }

  lemma NumberLayout(n: Number) returns (p: Parts)
    requires FiniteNumber(n)
    ensures Spells(NumberText(n), p, NumberMeaning(n))
  {
    if IsInteger(n) {
      p := IntLayout(IntegerOf(n));
    } else if n.f.ZeroDouble? {
      p := ZeroLayout();
    } else {
      p := EsNumberLayout(n.f);
    }
  }

  lemma NumberRoundTrip(n: Number, rest: string)
    requires FiniteNumber(n) && Ends(rest)
    ensures ReadNumber(NumberText(n) + rest) == Done(NumberMeaning(n), rest)
  {
    var p := NumberLayout(n);
    ReadSpelled(NumberText(n), p, NumberMeaning(n), rest);
  }

  lemma MakeDecimalOfZero()
    ensures MakeDecimal(false, "0" + "", 1) == DecZero
  {
    assert "0" + "" == "0" && "0"[1..] == "";
    assert MakeDecimal(false, "0", 1) == MakeDecimal(false, "", 0);
  }

  /** A number's text starts with a digit or a minus sign. */
  lemma NumberTextStart(n: Number)
    requires FiniteNumber(n)
    ensures var t := NumberText(n); t != "" && (t[0] == '-' || IsDigit(t[0]))
  {
  }

  // -- Strings ------------------------------------------------------------------

  lemma ReadControlEscape(n: nat, rest: string)
    requires n < 0x20
    ensures ReadEscape(['u', '0', '0', HexDigit(n / 16), HexDigit(n % 16)] + rest) == Done(n as char, rest)
  {
    var s := ['u', '0', '0', HexDigit(n / 16), HexDigit(n % 16)] + rest;
    assert s[1..] == ['0', '0', HexDigit(n / 16), HexDigit(n % 16)] + rest;
    assert s[5..] == rest;
    assert HexValue(HexDigit(n / 16)) == n / 16 && HexValue(HexDigit(n % 16)) == n % 16;
  }

  lemma ReadEscapeChar(c: char, rest: string)
    ensures var s := EscapeChar(c) + rest;
      && s[0] != '"' && s[0] as int >= 0x20
      && (if s[0] == '\\' then ReadEscape(s[1..]) else Done(s[0], s[1..])) == Done(c, rest)
  {
    var e, n := EscapeChar(c), c as int;
    var s := e + rest;
    assert s[1..] == e[1..] + rest;
    if n < 0x20 && n != 0x8 && n != 0x9 && n != 0xA && n != 0xC && n != 0xD {
      assert e[1..] == ['u', '0', '0', HexDigit(n / 16), HexDigit(n % 16)];
      ReadControlEscape(n, rest);
    } else if |e| == 2 {
      assert s[1..][1..] == rest;
    } else {
      assert s[1..] == rest;
    }
  }

  /** Escaped strings read back unchanged, section 3.2.2.2 of RFC 8785. */
  lemma {:induction false} StringRoundTrip(s: string, rest: string)
    ensures ReadString(EscapedText(s) + "\"" + rest) == Done(s, rest)
  {
    var t := EscapedText(s) + "\"" + rest;
    if s == "" {
      assert t == "\"" + rest;
      assert t[1..] == rest;
    } else {
      var u := EscapedText(s[1..]) + "\"" + rest;
      assert t == EscapeChar(s[0]) + u;
      ReadEscapeChar(s[0], u);
      StringRoundTrip(s[1..], rest);
      assert s == [s[0]] + s[1..];
    }
  }

  // -- Values -------------------------------------------------------------------

  /** Which reader a value's first character selects. */
  lemma ReadValueStart(s: string)
    requires s != "" && s[0] != 'n' && s[0] != 't' && s[0] != 'f'
    ensures !("null" <= s) && !("true" <= s) && !("false" <= s)
  {
  }

  lemma ReadLiteral(v: Value, rest: string)
    requires v.Null? || v.Bool?
    ensures ReadValue(Text(v) + rest) == Done(MeaningOf(v), rest)
  {
    var s := Text(v) + rest;
    assert s[|Text(v)|..] == rest;
    if v.Null? {
      assert "null" <= s;
    } else if v.b {
      assert "true" <= s && s[0] == 't';
    } else {
      assert "false" <= s && s[0] == 'f';
    }
  }

  lemma ReadStringValue(cs: string, rest: string)
    ensures ReadValue(StringText(cs) + rest) == Done(MString(cs), rest)
  {
    var s := StringText(cs) + rest;
    assert s[0] == '"';
    assert s[1..] == EscapedText(cs) + "\"" + rest;
    StringRoundTrip(cs, rest);
    ReadValueStart(s);
  }

  lemma ReadValueNumber(s: string, d: Decimal, rest: string)
    requires s != "" && (s[0] == '-' || IsDigit(s[0])) && ReadNumber(s) == Done(d, rest)
    ensures ReadValue(s) == Done(MNumber(d), rest)
  {
    ReadValueElse(s);
  }

  lemma ReadValueElse(s: string)
    requires s != "" && (s[0] == '-' || IsDigit(s[0]))
    ensures ReadValue(s) == ReadNumberMeaning(s)
  {
    ReadValueStart(s);
  }

  lemma ReadNumberValue(n: Number, rest: string)
    requires FiniteNumber(n) && Ends(rest)
    ensures ReadValue(NumberText(n) + rest) == Done(MNumber(NumberMeaning(n)), rest)
  {
    NumberTextStart(n);
    NumberRoundTrip(n, rest);
    ReadValueNumber(NumberText(n) + rest, NumberMeaning(n), rest);
  }

  /** The meanings of the items of `v` from index `i` on. */
  ghost function ItemMeanings(v: Value, i: nat): seq<Meaning>
    requires v.Array? && AllFinite(v) && i <= |v.items|
    decreases |v.items| - i
  {
    if i == |v.items| then [] else [MeaningOf(v.items[i])] + ItemMeanings(v, i + 1)
  }

  lemma {:induction false} ItemMeaningsAre(v: Value, i: nat)
    requires v.Array? && AllFinite(v) && i <= |v.items|
    ensures ItemMeanings(v, i) == MeaningOf(v).items[i..]
    decreases |v.items| - i
  {
    if i < |v.items| {
      ItemMeaningsAre(v, i + 1);
      var ms := MeaningOf(v).items;
      assert ms[i..] == [ms[i]] + ms[i + 1..];
    }
  }

  /** The meanings of the members of `v` under `keys` from index `i` on. */
  ghost function MemberMeanings(keys: seq<string>, v: Value, i: nat): (m: map<string, Meaning>)
    requires v.Object? && AllFinite(v) && i <= |keys| && forall k | k in keys :: k in v.fields
    ensures forall k :: k in m <==> k in keys[i..]
    ensures forall k | k in m :: m[k] == MeaningOf(v.fields[k])
    decreases |keys| - i
  {
    if i == |keys| then map[]
    else
      assert keys[i..] == [keys[i]] + keys[i + 1..];
      MemberMeanings(keys, v, i + 1)[keys[i] := MeaningOf(v.fields[keys[i]])]
  }

  lemma MemberMeaningsAre(keys: seq<string>, v: Value)
    requires v.Object? && AllFinite(v) && forall k :: k in keys <==> k in v.fields
    ensures MObject(MemberMeanings(keys, v, 0)) == MeaningOf(v)
  {
    var m, n := MemberMeanings(keys, v, 0), MeaningOf(v).fields;
    assert keys[0..] == keys;
    assert forall k :: k in m <==> k in n;
    assert forall k | k in m :: m[k] == n[k];
    assert m == n;
  }

  ghost predicate Distinct(keys: seq<string>) {
    forall i, j | 0 <= i < j < |keys| :: keys[i] != keys[j]
  }

  /** An object's text lists each of its keys once. */
  lemma ObjectText(v: Value) returns (keys: seq<string>)
    requires v.Object? && AllFinite(v)
    ensures Distinct(keys) && forall k :: k in keys <==> k in v.fields
    ensures Text(v) == "{" + MembersText(keys, v, 0) + "}"
  {
    keys := SortedKeys(v.fields.Keys);
    SortedKeysMembers(v.fields.Keys);
    forall i, j | 0 <= i < j < |keys|
      ensures keys[i] != keys[j]
    {
      assert KeyLess(keys[i], keys[j]);
    }
  }

  // -- Reading arrays ---------------------------------------------------------------

  lemma ReadLastItem(s: string, m: Meaning, rest: string)
    requires ReadValue(s) == Done(m, "]" + rest)
    ensures ReadItems(s) == Done([m], rest)
  {
    assert ("]" + rest)[1..] == rest;
  }

  lemma ReadNextItem(s: string, m: Meaning, next: string, ms: seq<Meaning>, rest: string)
    requires ReadValue(s) == Done(m, "," + next) && ReadItems(next) == Done(ms, rest)
    ensures ReadItems(s) == Done([m] + ms, rest)
  {
    assert ("," + next)[1..] == next;
  }

  lemma ReadArray(body: string, ms: seq<Meaning>, rest: string)
    requires body != "" && body[0] != ']' && ReadItems(body) == Done(ms, rest)
    ensures ReadValue("[" + body) == Done(MArray(ms), rest)
  {
    var s := "[" + body;
    assert s[1..] == body;
    NotEmptyPair(s, "[]");
    ReadValueStart(s);
  }

  lemma ReadEmptyArray(rest: string)
    ensures ReadValue("[]" + rest) == Done(MArray([]), rest)
  {
    assert ("[]" + rest)[2..] == rest;
    ReadValueStart("[]" + rest);
  }

  /** What follows the item before index `i` of the array `v`. */
  ghost function ItemsTail(v: Value, i: nat, rest: string): string
    requires v.Array? && AllFinite(v) && i <= |v.items|
  {
    ItemsText(v, i) + ("]" + rest)
  }

  lemma Associate(a: string, b: string, c: string, d: string)
    ensures a + b + c + d == a + (b + (c + d))
  {
  }

  lemma ItemsTailIs(v: Value, i: nat, rest: string)
    requires v.Array? && AllFinite(v) && i <= |v.items|
    ensures ItemsTail(v, i, rest)
         == if i == |v.items| then "]" + rest
            else Separator(i) + (Text(v.items[i]) + ItemsTail(v, i + 1, rest))
  {
    if i == |v.items| {
      assert "" + ("]" + rest) == "]" + rest;
    } else {
      Associate(Separator(i), Text(v.items[i]), ItemsText(v, i + 1), "]" + rest);
    }
  }

  lemma {:induction false} ItemsRoundTrip(v: Value, i: nat, rest: string)
    requires v.Array? && AllFinite(v) && i < |v.items|
    ensures ReadItems(Text(v.items[i]) + ItemsTail(v, i + 1, rest)) == Done(ItemMeanings(v, i), rest)
    decreases v, 0, |v.items| - i
  {
    var s := Text(v.items[i]) + ItemsTail(v, i + 1, rest);
    ItemsTailIs(v, i + 1, rest);
    ValueRoundTrip(v.items[i], ItemsTail(v, i + 1, rest));
    if i + 1 == |v.items| {
      assert ItemMeanings(v, i) == [MeaningOf(v.items[i])];
      ReadLastItem(s, MeaningOf(v.items[i]), rest);
    } else {
      var next := Text(v.items[i + 1]) + ItemsTail(v, i + 2, rest);
      ItemsRoundTrip(v, i + 1, rest);
      ReadNextItem(s, MeaningOf(v.items[i]), next, ItemMeanings(v, i + 1), rest);
    }
  }

  lemma {:induction false} ArrayRoundTrip(v: Value, rest: string)
    requires v.Array? && AllFinite(v)
    ensures ReadValue(Text(v) + rest) == Done(MeaningOf(v), rest)
    decreases v, 1
  {
    ItemMeaningsAre(v, 0);
    AllItemsRoundTrip(v, rest);
  }

  lemma {:induction false} AllItemsRoundTrip(v: Value, rest: string)
    requires v.Array? && AllFinite(v)
    ensures ReadValue("[" + ItemsText(v, 0) + "]" + rest) == Done(MArray(ItemMeanings(v, 0)), rest)
    decreases v, 0, |v.items| + 2
  {
    if v.items == [] {
      ReadEmptyArray(rest);
      assert "[" + "" + "]" == "[]";
    } else {
      LaterItemsRoundTrip(v, 0, rest);
      FirstInBrackets(v, rest);
    }
  }

  lemma FirstInBrackets(v: Value, rest: string)
    requires v.Array? && AllFinite(v) && v.items != []
    ensures "[" + ItemsText(v, 0) + "]" + rest == "[" + (Text(v.items[0]) + ItemsTail(v, 1, rest))
  {
    BracketedItems(v, 0, rest);
    assert "[" + "" == "[";
  }

  lemma BracketedItems(v: Value, i: nat, rest: string)
    requires v.Array? && AllFinite(v) && i < |v.items|
    ensures "[" + ItemsText(v, i) + "]" + rest == "[" + Separator(i) + (Text(v.items[i]) + ItemsTail(v, i + 1, rest))
  {
    ItemsTailIs(v, i, rest);
    Enclosed("[", ItemsText(v, i), "]", rest, Separator(i), Text(v.items[i]) + ItemsTail(v, i + 1, rest));
  }

  lemma Enclosed(open: string, items: string, close: string, rest: string, separator: string, body: string)
    requires items + (close + rest) == separator + body
    ensures open + items + close + rest == open + separator + body
  {
    assert open + items + close + rest == open + (items + (close + rest));
  }

  /** In brackets, the items from index `i` on are read back. */
  lemma {:induction false} LaterItemsRoundTrip(v: Value, i: nat, rest: string)
    requires v.Array? && AllFinite(v) && i < |v.items|
    ensures ReadValue("[" + (Text(v.items[i]) + ItemsTail(v, i + 1, rest))) == Done(MArray(ItemMeanings(v, i)), rest)
    decreases v, 0, |v.items| - i + 1
  {
    var body := Text(v.items[i]) + ItemsTail(v, i + 1, rest);
    TextStart(v.items[i], ItemsTail(v, i + 1, rest));
    ItemsRoundTrip(v, i, rest);
    ReadArray(body, ItemMeanings(v, i), rest);
  }

  lemma OpenTail(open: string, items: string, close: string, rest: string, body: string)
    requires items + (close + rest) == "" + body
    ensures open + items + close + rest == open + body
  {
    assert open + items + close + rest == open + (items + (close + rest));
    assert "" + body == body;
  }

  lemma TextStart(v: Value, tail: string)
    requires AllFinite(v)
    ensures Text(v) + tail != "" && (Text(v) + tail)[0] != ']'
  {
    if v.Num? {
      NumberTextStart(v.n);
    }
    assert (Text(v) + tail)[0] == Text(v)[0];
  }

  // -- Reading objects --------------------------------------------------------------

  /** The head of a member: a key and the colon after it. */
  lemma ReadMemberKey(key: string, value: string)
    ensures var s := StringText(key) + ":" + value;
      s != "" && s[0] == '"' && ReadString(s[1..]) == Done(key, ":" + value)
  {
    var s := StringText(key) + ":" + value;
    assert s[1..] == EscapedText(key) + "\"" + (":" + value);
    StringRoundTrip(key, ":" + value);
  }

  lemma ReadLastMember(key: string, value: string, m: Meaning, rest: string)
    requires ReadValue(value) == Done(m, "}" + rest)
    ensures ReadMembers(StringText(key) + ":" + value) == Done(map[key := m], rest)
  {
    ReadMemberKey(key, value);
    assert (":" + value)[1..] == value;
    assert ("}" + rest)[1..] == rest;
  }

  lemma ReadNextMember(key: string, value: string, m: Meaning, next: string, ms: map<string, Meaning>, rest: string)
    requires ReadValue(value) == Done(m, "," + next)
    requires ReadMembers(next) == Done(ms, rest) && key !in ms
    ensures ReadMembers(StringText(key) + ":" + value) == Done(ms[key := m], rest)
  {
    ReadMemberKey(key, value);
    assert (":" + value)[1..] == value;
    assert ("," + next)[1..] == next;
  }

  lemma ReadObject(body: string, ms: map<string, Meaning>, rest: string)
    requires body != "" && body[0] != '}' && ReadMembers(body) == Done(ms, rest)
    ensures ReadValue("{" + body) == Done(MObject(ms), rest)
  {
    var s := "{" + body;
    assert s[0] == '{' && s[1..] == body;
    NotEmptyPair(s, "{}");
    ReadValueStart(s);
  }

  lemma NotEmptyPair(s: string, pair: string)
    requires |s| > 1 && |pair| == 2 && s[1] != pair[1]
    ensures !(pair <= s)
  {
  }

  lemma ReadEmptyObject(rest: string)
    ensures ReadValue("{}" + rest) == Done(MObject(map[]), rest)
  {
    assert ("{}" + rest)[2..] == rest;
    ReadValueStart("{}" + rest);
  }

  /** What follows the member before index `i` of the object `v`. */
  ghost function MembersTail(keys: seq<string>, v: Value, i: nat, rest: string): string
    requires v.Object? && AllFinite(v) && i <= |keys| && forall k | k in keys :: k in v.fields
  {
    MembersText(keys, v, i) + ("}" + rest)
  }

  lemma MembersTailIs(keys: seq<string>, v: Value, i: nat, rest: string)
    requires v.Object? && AllFinite(v) && i <= |keys| && forall k | k in keys :: k in v.fields
    ensures MembersTail(keys, v, i, rest)
         == if i == |keys| then "}" + rest
            else Separator(i) + (MemberText(v, keys[i]) + MembersTail(keys, v, i + 1, rest))
  {
    if i == |keys| {
      assert "" + ("}" + rest) == "}" + rest;
    } else {
      Associate(Separator(i), MemberText(v, keys[i]), MembersText(keys, v, i + 1), "}" + rest);
    }
  }

  lemma MemberAppend(v: Value, key: string, tail: string)
    requires v.Object? && AllFinite(v) && key in v.fields
    ensures MemberText(v, key) + tail == StringText(key) + ":" + (Text(v.fields[key]) + tail)
  {
    Associate("", StringText(key) + ":", Text(v.fields[key]), tail);
    OpenTail("", StringText(key) + ":" + Text(v.fields[key]), "", tail, MemberText(v, key) + tail);
  }

  lemma {:induction false} MembersRoundTrip(keys: seq<string>, v: Value, i: nat, rest: string)
    requires v.Object? && AllFinite(v) && i < |keys| && Distinct(keys) && forall k | k in keys :: k in v.fields
    ensures ReadMembers(MemberText(v, keys[i]) + MembersTail(keys, v, i + 1, rest))
         == Done(MemberMeanings(keys, v, i), rest)
    decreases v, 0, |keys| - i
  {
    var key, tail := keys[i], MembersTail(keys, v, i + 1, rest);
    MembersTailIs(keys, v, i + 1, rest);
    ValueRoundTrip(v.fields[key], tail);
    MemberAppend(v, key, tail);
    if i + 1 == |keys| {
      assert MemberMeanings(keys, v, i + 1) == map[];
      ReadLastMember(key, Text(v.fields[key]) + tail, MeaningOf(v.fields[key]), rest);
    } else {
      var next := MemberText(v, keys[i + 1]) + MembersTail(keys, v, i + 2, rest);
      MembersRoundTrip(keys, v, i + 1, rest);
      NotLater(keys, i);
      ReadNextMember(key, Text(v.fields[key]) + tail, MeaningOf(v.fields[key]), next, MemberMeanings(keys, v, i + 1),
                     rest);
    }
  }

  lemma NotLater(keys: seq<string>, i: nat)
    requires Distinct(keys) && i < |keys|
    ensures keys[i] !in keys[i + 1..]
  {
  }

  lemma {:induction false} ObjectRoundTrip(v: Value, rest: string)
    requires v.Object? && AllFinite(v)
    ensures ReadValue(Text(v) + rest) == Done(MeaningOf(v), rest)
    decreases v, 1
  {
    var keys := ObjectText(v);
    MemberMeaningsAre(keys, v);
    KeysRoundTrip(keys, v, rest);
  }

  lemma {:induction false} KeysRoundTrip(keys: seq<string>, v: Value, rest: string)
    requires v.Object? && AllFinite(v) && Distinct(keys) && forall k | k in keys :: k in v.fields
    ensures ReadValue("{" + MembersText(keys, v, 0) + "}" + rest) == Done(MObject(MemberMeanings(keys, v, 0)), rest)
    decreases v, 0, |keys| + 2
  {
    if keys == [] {
      ReadEmptyObject(rest);
      assert "{" + "" + "}" == "{}";
    } else {
      LaterKeysRoundTrip(keys, v, 0, rest);
      BracedMembers(keys, v, 0, rest);
      assert "{" + "" == "{";
    }
  }

  lemma BracedMembers(keys: seq<string>, v: Value, i: nat, rest: string)
    requires v.Object? && AllFinite(v) && i < |keys| && forall k | k in keys :: k in v.fields
    ensures "{" + MembersText(keys, v, i) + "}" + rest
         == "{" + Separator(i) + (MemberText(v, keys[i]) + MembersTail(keys, v, i + 1, rest))
  {
    MembersTailIs(keys, v, i, rest);
    Enclosed("{", MembersText(keys, v, i), "}", rest, Separator(i),
             MemberText(v, keys[i]) + MembersTail(keys, v, i + 1, rest));
  }

  /** In braces, the members under the keys from index `i` on are read back. */
  lemma {:induction false} LaterKeysRoundTrip(keys: seq<string>, v: Value, i: nat, rest: string)
    requires v.Object? && AllFinite(v) && Distinct(keys) && i < |keys| && forall k | k in keys :: k in v.fields
    ensures ReadValue("{" + (MemberText(v, keys[i]) + MembersTail(keys, v, i + 1, rest)))
         == Done(MObject(MemberMeanings(keys, v, i)), rest)
    decreases v, 0, |keys| - i + 1
  {
    var body := MemberText(v, keys[i]) + MembersTail(keys, v, i + 1, rest);
    MemberStart(v, keys[i], MembersTail(keys, v, i + 1, rest));
    MembersRoundTrip(keys, v, i, rest);
    ReadObject(body, MemberMeanings(keys, v, i), rest);
  }

  lemma MemberStart(v: Value, key: string, tail: string)
    requires v.Object? && AllFinite(v) && key in v.fields
    ensures MemberText(v, key) + tail != "" && (MemberText(v, key) + tail)[0] == '"'
  {
    assert StringText(key)[0] == '"';
    assert (MemberText(v, key) + tail)[0] == StringText(key)[0];
  }

  /** Every canonical text is read back exactly, whatever follows it, as the meaning it
      was written from. */
  lemma {:induction false} ValueRoundTrip(v: Value, rest: string)
    requires AllFinite(v) && Ends(rest)
    ensures ReadValue(Text(v) + rest) == Done(MeaningOf(v), rest)
    decreases v, 2
  {
    match v
    case Null => ReadLiteral(v, rest);
    case Bool(_) => ReadLiteral(v, rest);
    case String(cs) => ReadStringValue(cs, rest);
    case Num(n) => ReadNumberValue(n, rest);
    case Array(_) => ArrayRoundTrip(v, rest);
    case Object(_) => ObjectRoundTrip(v, rest);
  }

  /** A JSON reader consumes the whole canonical text of a value and yields its meaning. */
  lemma CanonicalTextParses(v: Value)
    requires AllFinite(v)
    ensures Parse(Text(v)) == Done(MeaningOf(v), "")
  {
    ValueRoundTrip(v, "");
    assert Text(v) + "" == Text(v);
  }
}
