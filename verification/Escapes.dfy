/** The escapes the canonical writer chooses: of all that a JSON reader reads as a character, the
    shortest, and of two as short the one with lower-case hexadecimal digits (section 3.2.2.2 of
    RFC 8785). */
module Escapes {
  import opened Jcs
  import opened JsonReader

  /** Inside a string the text is read as this one character. */
  predicate SpellsChar(t: string, c: char) {
    ReadString(t + "\"") == Done([c], "")
  }

  /** The text is a `\u` escape with an upper-case digit. */
  predicate UpperHex(t: string) {
    |t| == 6 && t[1] == 'u' && exists i | 2 <= i < 6 :: 'A' <= t[i] <= 'F'
  }

  lemma ClosingQuote(s: string)
    requires ReadString(s) == Done("", "")
    ensures s == "\""
  {
    assert s[0] == '"' && s[1..] == "";
    assert s == [s[0]] + s[1..];
  }

  /** What follows the backslash of an escape: one letter, or `u` and four or ten characters. */
  lemma EscapeShape(t: string, c: char)
    requires t != "" && t[0] == '\\' && SpellsChar(t, c)
    ensures |t| == 2 || |t| == 6 || |t| == 12
    ensures |t| == 2 <==> |t| >= 2 && t[1] != 'u'
    ensures |t| == 2 ==> ReadEscape([t[1], '"']) == Done(c, "\"")
    ensures |t| == 6 ==> t[1] == 'u' && ReadHex4(t[2..]) == c as int
    ensures |t| == 12 ==> c as int >= 0x1_0000
  {
    var s := t + "\"";
    var first := ReadEscape(s[1..]);
    var tail := ReadString(first.rest);
    assert ReadString(s) == Done([first.value] + tail.value, tail.rest);
    assert ([first.value] + tail.value)[0] == c && |[first.value] + tail.value| == 1;
    ClosingQuote(first.rest);
    assert s[1..] == t[1..] + "\"";
    if |t| > 1 && t[1] == 'u' {
      assert s[1..][1..] == t[2..] + "\"";
      if |t| == 6 {
        assert t[2..] == [t[2], t[3], t[4], t[5]];
      }
    } else if |t| == 2 {
      assert s[1..] == [t[1], '"'];
    }
  }

  lemma NothingSpelled(c: char)
    ensures !SpellsChar("", c)
  {
    assert "" + "\"" == "\"";
  }

  lemma PlainShape(t: string, c: char)
    requires t != "" && t[0] != '\\' && SpellsChar(t, c)
    ensures t == [c] && c != '"' && c as int >= 0x20
  {
    var s := t + "\"";
    assert s[0] == t[0] && ReadString(s[1..]) == Done("", "");
    ClosingQuote(s[1..]);
    assert s == [t[0]] + s[1..] && |t| == 1;
  }

  /** The writer's choice is never longer, and is the only one as short but for the case of
      hexadecimal digits, which it writes in lower case. */
  lemma EscapeIsShortest(t: string, c: char)
    requires SpellsChar(t, c)
    ensures |EscapeChar(c)| <= |t|
    ensures |EscapeChar(c)| == |t| ==> t == EscapeChar(c) || UpperHex(t)
    ensures !UpperHex(EscapeChar(c))
  {
    LowerHex(c);
    if t == "" {
      NothingSpelled(c);
    } else if t[0] != '\\' {
      PlainShape(t, c);
    } else {
      EscapeShape(t, c);
      if |t| == 2 {
        LetterEscape(t, c);
      } else if |t| == 6 && |EscapeChar(c)| == 6 {
        HexEscape(t, c);
      }
    }
  }

  lemma LowerHex(c: char)
    ensures !UpperHex(EscapeChar(c)) && |EscapeChar(c)| <= 6
    ensures |EscapeChar(c)| == 6 <==> c as int < 0x20 && c as int !in {8, 9, 10, 12, 13}
    ensures |EscapeChar(c)| == 1 ==> c != '"' && c != '\\' && EscapeChar(c) == [c]
    ensures |EscapeChar(c)| == 1 || |EscapeChar(c)| == 2 || |EscapeChar(c)| == 6
  {
  }

  lemma LetterEscape(t: string, c: char)
    requires |t| == 2 && t[0] == '\\' && t[1] != 'u' && ReadEscape([t[1], '"']) == Done(c, "\"")
    ensures |EscapeChar(c)| <= 2 && (|EscapeChar(c)| == 2 ==> t == EscapeChar(c))
  {
    assert t == [t[0], t[1]];
  }

  lemma HexEscape(t: string, c: char)
    requires |t| == 6 && t[0] == '\\' && t[1] == 'u' && ReadHex4(t[2..]) == c as int && |EscapeChar(c)| == 6
    ensures t == EscapeChar(c) || UpperHex(t)
  {
    LowerHex(c);
    if !UpperHex(t) {
      assert t == ['\\', 'u', t[2], t[3], t[4], t[5]];
      assert HexValue(t[2]) == 0 && HexValue(t[3]) == 0;
      assert HexValue(t[4]) * 16 + HexValue(t[5]) == c as int;
    }
  }
}
