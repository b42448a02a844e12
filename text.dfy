/** The string operations the program takes from Go's `strings`, `fmt` and
    `regexp` packages, on strings seen as sequences of characters. */
module Text {
  import opened Bytes

  predicate IsDigit(c: char)
  {
    '0' <= c <= '9'
  }

  predicate AllDigits(s: string)
  {
    forall i | 0 <= i < |s| :: IsDigit(s[i])
  }

  function DigitValue(c: char): (d: nat)
    requires IsDigit(c)
    ensures d < 10
  {
    c as int - '0' as int
  }

  function DigitChar(d: nat): (c: char)
    requires d < 10
    ensures IsDigit(c)
  {
    ('0' as int + d) as char
  }

  /** fmt's "%d" of a non-negative integer: its decimal digits without
      leading zeros. */
  function NatToDecimal(n: nat): (s: string)
    ensures |s| > 0 && AllDigits(s)
  {
    if n < 10 then [DigitChar(n)] else NatToDecimal(n / 10) + [DigitChar(n % 10)]
  }

  /** fmt's "%d" of any integer. */
  function IntToDecimal(i: int): (s: string)
    ensures |s| > 0
    ensures forall c | c in s :: IsDigit(c) || c == '-'
  {
    if i < 0 then "-" + NatToDecimal(-i) else NatToDecimal(i)
  }

  /** fmt's "%0<w>d": the digits padded on the left with zeros to width `w`. */
  function ZeroPad(s: string, w: nat): (r: string)
    ensures |r| == if |s| < w then w else |s|
  {
    if |s| < w then seq(w - |s|, _ => '0') + s else s
  }

  function DecimalValue(s: string): (n: nat)
    requires AllDigits(s)
  {
    if |s| == 0 then 0
    else DecimalValue(s[..|s| - 1]) * 10 + DigitValue(s[|s| - 1])
  }

  lemma {:induction false} DecimalValueOfNatToDecimal(n: nat)
    ensures DecimalValue(NatToDecimal(n)) == n
  {
    if n >= 10 {
      var s := NatToDecimal(n);
      assert s[..|s| - 1] == NatToDecimal(n / 10);
      DecimalValueOfNatToDecimal(n / 10);
    }
  }

  lemma {:induction false} DecimalValueOfZeros(z: string, s: string)
    requires forall i | 0 <= i < |z| :: z[i] == '0'
    requires AllDigits(s)
    ensures AllDigits(z + s) && DecimalValue(z + s) == DecimalValue(s)
  {
    if |s| > 0 {
      var t := z + s;
      assert t[..|t| - 1] == z + s[..|s| - 1];
      DecimalValueOfZeros(z, s[..|s| - 1]);
    } else {
      assert z + s == z;
      DecimalValueOfAllZeros(z);
    }
  }

  lemma {:induction false} DecimalValueOfAllZeros(z: string)
    requires forall i | 0 <= i < |z| :: z[i] == '0'
    ensures AllDigits(z) && DecimalValue(z) == 0
  {
    if |z| > 0 {
      DecimalValueOfAllZeros(z[..|z| - 1]);
    }
  }

  /** "%03d" keeps the value and adds no character other than digits. */
  lemma ZeroPadDecimal(n: nat)
    ensures AllDigits(ZeroPad(NatToDecimal(n), 3))
    ensures DecimalValue(ZeroPad(NatToDecimal(n), 3)) == n
  {
    var d := NatToDecimal(n);
    var zeros := if |d| < 3 then seq(3 - |d|, _ => '0') else [];
    assert ZeroPad(d, 3) == zeros + d;
    DecimalValueOfZeros(zeros, d);
    DecimalValueOfNatToDecimal(n);
  }

  /** unicode.IsSpace, which is also fmt's notion of white space when
      scanning. */
  predicate IsSpace(c: char)
  {
    var u := c as int;
    (0x09 <= u <= 0x0D) || u == 0x20 || u == 0x85 || u == 0xA0 || u == 0x1680 ||
    (0x2000 <= u <= 0x200A) || u == 0x2028 || u == 0x2029 || u == 0x202F ||
    u == 0x205F || u == 0x3000
  }

  /** The longest prefix made of decimal digits. */
  function LeadingDigits(s: string): (d: string)
    ensures AllDigits(d) && |d| <= |s| && d == s[..|d|]
  {
    if |s| > 0 && IsDigit(s[0]) then [s[0]] + LeadingDigits(s[1..]) else []
  }

  lemma {:induction false} LeadingDigitsOfDigits(s: string, rest: string)
    requires AllDigits(s)
    requires rest == [] || !IsDigit(rest[0])
    ensures LeadingDigits(s + rest) == s
  {
    if |s| > 0 {
      assert (s + rest)[1..] == s[1..] + rest;
      assert s[0] in s;
      LeadingDigitsOfDigits(s[1..], rest);
    } else {
      assert s + rest == rest;
    }
  }

  /** White space skipped before a number; a newline stops the scan. */
  function SkipSpace(s: string): (r: Option<string>)
    ensures r.Some? ==> |r.value| <= |s|
  {
    if |s| == 0 then Some(s)
    else if s[0] == '\n' then None
    else if IsSpace(s[0]) then SkipSpace(s[1..])
    else Some(s)
  }

  const MinInt64: int := -0x8000_0000_0000_0000
  const MaxInt64: int := 0x7FFF_FFFF_FFFF_FFFF

  /** fmt.Sscanf(s, "%d", &v): white space, an optional sign, then the longest
      run of decimal digits, which must be non-empty and fit in 64 bits. None
      stands for a scan error, after which the caller's variable keeps its
      previous value. */
  function ScanInt(s: string): (r: Option<int>)
    ensures r.Some? ==> MinInt64 <= r.value <= MaxInt64
  {
    match SkipSpace(s)
    case None => None
    case Some(t) =>
      var negative := |t| > 0 && t[0] == '-';
      var unsigned := if |t| > 0 && (t[0] == '+' || t[0] == '-') then t[1..] else t;
      var digits := LeadingDigits(unsigned);
      if |digits| == 0 then None
      else
        var v: int := if negative then -(DecimalValue(digits) as int) else DecimalValue(digits);
        if MinInt64 <= v <= MaxInt64 then Some(v) else None
  }

  /** Scanning reads back what "%d" printed, whatever follows it. */
  lemma ScanIntOfIntToDecimal(i: int, rest: string)
    requires MinInt64 <= i <= MaxInt64
    requires rest == [] || !IsDigit(rest[0])
    ensures ScanInt(IntToDecimal(i) + rest) == Some(i)
  {
    if i < 0 {
      ScanNegative(-i, rest);
    } else {
      ScanNonNegative(i, rest);
    }
  }

  lemma ScanNonNegative(n: nat, rest: string)
    requires n <= MaxInt64
    requires rest == [] || !IsDigit(rest[0])
    ensures ScanInt(NatToDecimal(n) + rest) == Some(n)
  {
    DecimalValueOfNatToDecimal(n);
    ScanDigits(NatToDecimal(n), rest);
  }

  lemma ScanNegative(n: nat, rest: string)
    requires 0 < n <= -MinInt64
    requires rest == [] || !IsDigit(rest[0])
    ensures ScanInt("-" + NatToDecimal(n) + rest) == Some(-(n as int))
  {
    var d := NatToDecimal(n);
    DecimalValueOfNatToDecimal(n);
    ScanDigits(d, rest);
    assert "-" + d + rest == "-" + (d + rest);
    ScanSign(d + rest);
  }

  /** Digits followed by a non-digit: no white space to skip, and the digits
      are the leading ones. */
  lemma ScanDigits(d: string, rest: string)
    requires AllDigits(d) && |d| > 0
    requires rest == [] || !IsDigit(rest[0])
    ensures SkipSpace(d + rest) == Some(d + rest)
    ensures LeadingDigits(d + rest) == d
  {
    assert d[0] in d;
    assert (d + rest)[0] == d[0];
    LeadingDigitsOfDigits(d, rest);
  }

  /** A minus sign is not white space, and it is dropped before the digits. */
  lemma ScanSign(u: string)
    ensures SkipSpace("-" + u) == Some("-" + u)
    ensures ("-" + u)[1..] == u
  {
  }

  function ToLowerAscii(c: char): char
  {
    if 'A' <= c <= 'Z' then (c as int + 32) as char else c
  }

  /** strings.ToLower, on the ASCII letters. */
  function ToLower(s: string): (r: string)
    ensures |r| == |s|
    ensures forall i | 0 <= i < |s| :: r[i] == ToLowerAscii(s[i])
  {
    seq(|s|, i requires 0 <= i < |s| => ToLowerAscii(s[i]))
  }

  predicate HasPrefix(s: string, prefix: string)
  {
    |prefix| <= |s| && s[..|prefix|] == prefix
  }

  function TrimPrefix(s: string, prefix: string): string
  {
    if HasPrefix(s, prefix) then s[|prefix|..] else s
  }

  function TrimSuffix(s: string, suffix: string): (r: string)
    ensures |r| <= |s|
  {
    if |suffix| <= |s| && s[|s| - |suffix|..] == suffix then s[..|s| - |suffix|] else s
  }

  predicate OccursAt(s: string, sub: string, k: nat)
  {
    k + |sub| <= |s| && s[k..k + |sub|] == sub
  }

  /** strings.Index: the first position at or after `from` where `sub` occurs,
      or -1. */
  function IndexFrom(s: string, sub: string, from: nat): (r: int)
    ensures r == -1 || (from <= r && OccursAt(s, sub, r))
    ensures r == -1 ==> forall k: nat | from <= k :: !OccursAt(s, sub, k)
    ensures r >= 0 ==> forall k: nat | from <= k < r :: !OccursAt(s, sub, k)
    decreases |s| - from
  {
    if from + |sub| > |s| then -1
    else if OccursAt(s, sub, from) then from
    else IndexFrom(s, sub, from + 1)
  }

  function Index(s: string, sub: string): int
  {
    IndexFrom(s, sub, 0)
  }

  predicate Contains(s: string, sub: string)
  {
    Index(s, sub) >= 0
  }

  /** strings.LastIndex for a one-character needle: the last position of `c`,
      or -1. */
  function LastIndexOf(s: string, c: char): (r: int)
    ensures -1 <= r < |s|
    ensures r >= 0 ==> s[r] == c && forall k | r < k < |s| :: s[k] != c
    ensures r == -1 ==> c !in s
  {
    if |s| == 0 then -1
    else if s[|s| - 1] == c then |s| - 1
    else LastIndexOf(s[..|s| - 1], c)
  }

  /** strings.Split for a one-character separator: never empty, and no piece
      contains the separator. */
  function Split(s: string, sep: char): (parts: seq<string>)
    ensures |parts| >= 1
    ensures forall k | 0 <= k < |parts| :: sep !in parts[k]
  {
    if |s| == 0 then [""]
    else if s[0] == sep then [""] + Split(s[1..], sep)
    else
      var rest := Split(s[1..], sep);
      [[s[0]] + rest[0]] + rest[1..]
  }

  /** Splitting at the first separator. */
  lemma {:induction false} SplitAt(a: string, sep: char, b: string)
    requires sep !in a
    ensures Split(a + [sep] + b, sep) == [a] + Split(b, sep)
  {
    if |a| > 0 {
      assert (a + [sep] + b)[1..] == a[1..] + [sep] + b;
      SplitAt(a[1..], sep, b);
      assert [a[0]] + a[1..] == a;
    } else {
      assert (a + [sep] + b)[1..] == b;
    }
  }

  /** The field after the first separator. */
  lemma SecondField(a: string, b: string, rest: string, sep: char)
    requires sep !in a && sep !in b
    ensures var f := Split(a + [sep] + b + [sep] + rest, sep);
            |f| >= 2 && f[1] == b
  {
    SplitAt(a, sep, b + [sep] + rest);
    SplitAt(b, sep, rest);
    assert a + [sep] + b + [sep] + rest == a + [sep] + (b + [sep] + rest);
  }

  /** The digits after "<word>-" in "<word>-<digits>-<rest>". */
  lemma FieldAfterWord(word: string, d: string, rest: string)
    requires '-' !in word && AllDigits(d)
    ensures var f := Split(word + "-" + d + "-" + rest, '-');
            |f| >= 2 && f[1] == d
  {
    NotInDigits(d, '-');
    SecondField(word, d, rest, '-');
    assert word + "-" + d + "-" + rest == word + ['-'] + d + ['-'] + rest;
  }

  lemma NotInDigits(d: string, c: char)
    requires AllDigits(d) && !IsDigit(c)
    ensures c !in d
  {
    forall i | 0 <= i < |d| ensures d[i] != c {
      assert IsDigit(d[i]);
    }
  }

  /** A string without the separator is one piece. */
  lemma {:induction false} SplitNone(a: string, sep: char)
    requires sep !in a
    ensures Split(a, sep) == [a]
  {
    if |a| > 0 {
      SplitNone(a[1..], sep);
      assert [a[0]] + a[1..] == a;
    }
  }

  /** The first piece of a split is the text before the first separator. */
  lemma {:induction false} SplitFirst(s: string, sep: char)
    ensures HasPrefix(s, Split(s, sep)[0])
    ensures |Split(s, sep)[0]| < |s| ==> s[|Split(s, sep)[0]|] == sep
  {
    if |s| > 0 && s[0] != sep {
      SplitFirst(s[1..], sep);
    }
  }

  /** strings.Join. */
  function Join(parts: seq<string>, sep: string): string
  {
    if |parts| == 0 then ""
    else if |parts| == 1 then parts[0]
    else parts[0] + sep + Join(parts[1..], sep)
  }

  /** Splitting a non-empty join at a one-character separator that no part
      contains gives the parts back. */
  lemma {:induction false} SplitJoin(parts: seq<string>, sep: char)
    requires |parts| > 0
    requires forall k | 0 <= k < |parts| :: sep !in parts[k]
    ensures Split(Join(parts, [sep]), sep) == parts
  {
    if |parts| == 1 {
      SplitNone(parts[0], sep);
    } else {
      SplitJoin(parts[1..], sep);
      SplitAt(parts[0], sep, Join(parts[1..], [sep]));
      assert [parts[0]] + parts[1..] == parts;
    }
  }

  /** strings.ReplaceAll: leftmost, non-overlapping occurrences of `pat`. */
  function ReplaceAll(s: string, pat: string, rep: string): string
    requires |pat| > 0
  {
    if |s| < |pat| then s
    else if s[..|pat|] == pat then rep + ReplaceAll(s[|pat|..], pat, rep)
    else [s[0]] + ReplaceAll(s[1..], pat, rep)
  }

  /** A text too short to hold a second character of a two-character pattern
      is left alone, and so is a text none of whose characters starts it. */
  lemma {:induction false} ReplaceAllAbsent(s: string, pat: string, rep: string)
    requires |pat| > 0 && pat[0] !in s
    ensures ReplaceAll(s, pat, rep) == s
  {
    if |s| >= |pat| {
      assert s[0] in s;
      assert s[..|pat|][0] == s[0];
      ReplaceAllAbsent(s[1..], pat, rep);
      assert [s[0]] + s[1..] == s;
    }
  }

  /** The longest prefix made of non-space characters. */
  function LeadingWord(s: string): (w: string)
    ensures |w| <= |s| && w == s[..|w|]
    ensures forall c | c in w :: !IsSpace(c)
    ensures |s| > 0 && !IsSpace(s[0]) ==> |w| > 0
  {
    if |s| > 0 && !IsSpace(s[0]) then [s[0]] + LeadingWord(s[1..]) else []
  }

  function TrimLeftSpace(s: string): (r: string)
    ensures |r| <= |s| && r == s[|s| - |r|..]
    ensures r == [] || !IsSpace(r[0])
  {
    if |s| > 0 && IsSpace(s[0]) then TrimLeftSpace(s[1..]) else s
  }

  /** strings.Fields: the maximal runs of non-space characters. */
  function Fields(s: string): seq<string>
    decreases |s|
  {
    var t := TrimLeftSpace(s);
    if |t| == 0 then []
    else
      var w := LeadingWord(t);
      [w] + Fields(t[|w|..])
  }

  /** A text holding `sub` at some position contains it. */
  lemma ContainsAt(s: string, sub: string, k: nat)
    requires OccursAt(s, sub, k)
    ensures Contains(s, sub)
  {
  }

  /** The first position of a one-character needle. */
  lemma IndexOfFirst(s: string, c: char, k: nat)
    requires k < |s| && s[k] == c && c !in s[..k]
    ensures Index(s, [c]) == k
  {
    assert s[k..k + 1] == [c];
    assert OccursAt(s, [c], k);
    var r := Index(s, [c]);
    assert r >= 0;
  }

  /** A word followed by white space or nothing is the leading word. */
  lemma {:induction false} LeadingWordOf(w: string, rest: string)
    requires forall c | c in w :: !IsSpace(c)
    requires rest == [] || IsSpace(rest[0])
    ensures LeadingWord(w + rest) == w
  {
    if |w| > 0 {
      assert (w + rest)[1..] == w[1..] + rest;
      assert w[0] in w;
      LeadingWordOf(w[1..], rest);
    }
  }

  /** Fields of a word, a space and the rest. */
  lemma FieldsCons(w: string, rest: string)
    requires |w| > 0 && forall c | c in w :: !IsSpace(c)
    ensures Fields(w + " " + rest) == [w] + Fields(rest)
  {
    var s := w + " " + rest;
    assert w[0] in w;
    assert TrimLeftSpace(s) == s;
    LeadingWordOf(w, " " + rest);
    assert s == w + (" " + rest);
    assert s[|w|..] == " " + rest;
    assert (" " + rest)[1..] == rest;
  }

  /** A text with a non-space character has a field. */
  lemma {:induction false} FieldsNonEmpty(s: string, k: nat)
    requires k < |s| && !IsSpace(s[k])
    ensures |Fields(s)| >= 1
  {
    if IsSpace(s[0]) {
      FieldsNonEmpty(s[1..], k - 1);
    }
  }
}
