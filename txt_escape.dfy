/** Escaping of TXT record values in the style of section 5.1 of RFC 1035
    (\" and \\ for the two special characters, \DDD in decimal for characters
    outside printable ASCII), and the partial reversal the parser applies. */
module TxtEscape {
  import opened Text

  predicate Printable(c: char)
  {
    32 <= c as int <= 126
  }

  /** The escape sequence for one character: the switch of escapeTXTValue. */
  function EscapeChar(c: char): (e: string)
    ensures |e| > 0
    ensures e[0] != '"'
    ensures Printable(c) ==> (e == if c == '"' || c == '\\' then ['\\', c] else [c])
  {
    if c == '"' then "\\\""
    else if c == '\\' then "\\\\"
    else if c == '\n' || c == '\r' || c == '\t' then "\\" + ZeroPad(NatToDecimal(c as int), 3)
    else if !Printable(c) then "\\" + ZeroPad(NatToDecimal(c as int), 3)
    else [c]
  }

  function Escape(s: string): string
  {
    if |s| == 0 then "" else EscapeChar(s[0]) + Escape(s[1..])
  }

  lemma {:induction false} EscapeAppend(a: string, b: string)
    ensures Escape(a + b) == Escape(a) + Escape(b)
  {
    if |a| > 0 {
      assert (a + b)[1..] == a[1..] + b;
      EscapeAppend(a[1..], b);
    } else {
      assert a + b == b;
    }
  }

  lemma EscapeSnoc(a: string, c: char)
    ensures Escape(a + [c]) == Escape(a) + EscapeChar(c)
  {
    EscapeAppend(a, [c]);
    EscapeOne(c);
  }

  lemma EscapeOne(c: char)
    ensures Escape([c]) == EscapeChar(c)
  {
    assert [c][1..] == [];
    assert EscapeChar(c) + "" == EscapeChar(c);
  }

  /** escapeTXTValue: a builder filled character by character. */
  method EscapeTXTValue(value: string) returns (escaped: string)
    ensures escaped == Escape(value)
  {
    escaped := "";
    for i := 0 to |value|
      invariant escaped == Escape(value[..i])
    {
      var ch := value[i];
      escaped := escaped + EscapeChar(ch);
      assert value[..i + 1] == value[..i] + [ch];
      EscapeSnoc(value[..i], ch);
    }
    assert value[..|value|] == value;
  }

  /** unescapeTXTValue: only \" and \\ are undone, in two passes. */
  function Unescape(s: string): string
  {
    ReplaceAll(ReplaceAll(s, "\\\"", "\""), "\\\\", "\\")
  }

  /** The text after the first pass: every backslash still doubled. */
  function DoubledBackslashes(s: string): string
  {
    if |s| == 0 then "" else (if s[0] == '\\' then "\\\\" else [s[0]]) + DoubledBackslashes(s[1..])
  }

  /** A character that does not start the pattern is copied through. */
  lemma ReplaceAllSkip(c: char, t: string, pat: string, rep: string)
    requires |pat| == 2 && (c != pat[0] || t == [] || t[0] != pat[1])
    ensures ReplaceAll([c] + t, pat, rep) == [c] + ReplaceAll(t, pat, rep)
  {
    var s := [c] + t;
    assert s[1..] == t;
    if |s| < |pat| {
      assert t == [];
    } else {
      assert s[..2] != pat by {
        assert s[..2][0] == c && s[..2][1] == t[0];
      }
    }
  }

  lemma ReplaceAllMatch(t: string, pat: string, rep: string)
    requires |pat| > 0
    ensures ReplaceAll(pat + t, pat, rep) == rep + ReplaceAll(t, pat, rep)
  {
    assert (pat + t)[..|pat|] == pat;
    assert (pat + t)[|pat|..] == t;
  }

  lemma {:induction false} FirstPass(s: string)
    requires forall i | 0 <= i < |s| :: Printable(s[i])
    ensures ReplaceAll(Escape(s), "\\\"", "\"") == DoubledBackslashes(s)
  {
    if |s| > 0 {
      var c, t := s[0], s[1..];
      FirstPass(t);
      EscapeStartsNoQuote(t);
      FirstPassStep(c, Escape(t));
    }
  }

  lemma EscapeStartsNoQuote(t: string)
    ensures Escape(t) == [] || Escape(t)[0] != '"'
  {
    if |t| > 0 {
      assert Escape(t) == EscapeChar(t[0]) + Escape(t[1..]);
    }
  }

  /** The first pass over one escaped printable character: only \" is
      undone. */
  lemma FirstPassStep(c: char, rest: string)
    requires Printable(c) && (rest == [] || rest[0] != '"')
    ensures ReplaceAll(EscapeChar(c) + rest, "\\\"", "\"") ==
              (if c == '\\' then "\\\\" else [c]) + ReplaceAll(rest, "\\\"", "\"")
  {
    if c == '"' {
      assert EscapeChar(c) == "\\\"";
      ReplaceAllMatch(rest, "\\\"", "\"");
    } else if c == '\\' {
      assert EscapeChar(c) == "\\\\";
      FirstPassBackslash(rest);
    } else {
      assert EscapeChar(c) == [c];
      ReplaceAllSkip(c, rest, "\\\"", "\"");
    }
  }

  lemma FirstPassBackslash(rest: string)
    requires rest == [] || rest[0] != '"'
    ensures ReplaceAll("\\\\" + rest, "\\\"", "\"") == "\\\\" + ReplaceAll(rest, "\\\"", "\"")
  {
    assert "\\\\" == ['\\', '\\'];
    SkipTwo('\\', rest, "\\\"", "\"");
  }

  /** Two copies of a character that cannot end the pattern pass through. */
  lemma SkipTwo(c: char, rest: string, pat: string, rep: string)
    requires |pat| == 2 && c != pat[1] && (rest == [] || rest[0] != pat[1])
    ensures ReplaceAll([c, c] + rest, pat, rep) == [c, c] + ReplaceAll(rest, pat, rep)
  {
    ReplaceAllSkip(c, rest, pat, rep);
    ReplaceAllSkip(c, [c] + rest, pat, rep);
    assert [c, c] + rest == [c] + ([c] + rest);
  }

  lemma {:induction false} SecondPass(s: string)
    ensures ReplaceAll(DoubledBackslashes(s), "\\\\", "\\") == s
  {
    if |s| > 0 {
      SecondPass(s[1..]);
      if s[0] == '\\' {
        ReplaceAllMatch(DoubledBackslashes(s[1..]), "\\\\", "\\");
      } else {
        ReplaceAllSkip(s[0], DoubledBackslashes(s[1..]), "\\\\", "\\");
      }
      assert [s[0]] + s[1..] == s;
    }
  }

  /** On printable ASCII text, unescaping undoes escaping. */
  lemma UnescapeOfEscape(s: string)
    requires forall i | 0 <= i < |s| :: Printable(s[i])
    ensures Unescape(Escape(s)) == s
  {
    FirstPass(s);
    SecondPass(s);
  }

  /** A \DDD escape is not undone: the parser sees the backslash and the
      digits. */
  lemma UnescapeKeepsDecimalEscape(c: char)
    requires !Printable(c)
    ensures Unescape(Escape([c])) == Escape([c])
    ensures |Escape([c])| >= 4 && Escape([c])[0] == '\\'
  {
    var digits := ZeroPad(NatToDecimal(c as int), 3);
    assert Escape([c]) == EscapeChar(c) + Escape([]);
    assert EscapeChar(c) == "\\" + digits;
    ZeroPadDecimal(c as int);
    assert |digits| >= 3;
    assert IsDigit(digits[0]);
    assert '\\' !in digits && '"' !in digits by {
      forall k | 0 <= k < |digits| ensures digits[k] != '\\' && digits[k] != '"' {
        assert IsDigit(digits[k]);
      }
    }
    var e := ['\\'] + digits;
    assert Escape([c]) == e;
    ReplaceAllAbsent(digits, "\\\"", "\"");
    ReplaceAllSkip('\\', digits, "\\\"", "\"");
    assert ReplaceAll(e, "\\\"", "\"") == e;
    ReplaceAllAbsent(digits, "\\\\", "\\");
    ReplaceAllSkip('\\', digits, "\\\\", "\\");
    assert ReplaceAll(e, "\\\\", "\\") == e;
  }
}
