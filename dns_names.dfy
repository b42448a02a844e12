/** DNS labels for the TXT transport: the sanitising of message identifiers,
    the chunk labels "c-<seq>-<id>" with their optional "t<minutes>-" prefix,
    and the reading of a sequence number back from a record name. A label is
    at most 63 octets (section 2.3.4 of RFC 1035). */
module DnsNames {
  import opened Bytes
  import opened Text

  const MaxLabelLength: nat := 63

  /** isAlphanumeric: a lower-case letter or a digit. */
  predicate IsAlphanumeric(c: char)
  {
    'a' <= c <= 'z' || '0' <= c <= '9'
  }

  predicate IsLabelChar(c: char)
  {
    IsAlphanumeric(c) || c == '-'
  }

  predicate NoHyphenRun(s: string)
  {
    forall i | 0 <= i < |s| - 1 :: s[i] != '-' || s[i + 1] != '-'
  }

  predicate LabelChars(s: string)
  {
    forall i | 0 <= i < |s| :: IsLabelChar(s[i])
  }

  /** What the sanitiser has before the length limit: only [a-z0-9-], an
      alphanumeric start and no two hyphens in a row. */
  predicate CleanText(s: string)
  {
    LabelChars(s) && (s == [] || IsAlphanumeric(s[0])) && NoHyphenRun(s)
  }

  /** What a DNS label needs: clean text of at most 63 characters that does
      not end in a hyphen either. */
  predicate IsValidLabel(s: string)
  {
    CleanText(s) && |s| <= MaxLabelLength && (s == [] || s[|s| - 1] != '-')
  }

  // ---------------------------------------------------------------------
  // The steps of sanitizeForDNS.

  /** The regular expression [^a-z0-9-] replaced by "-": one hyphen for each
      character outside the label alphabet. */
  function ReplaceInvalid(s: string): (r: string)
    ensures |r| == |s| && LabelChars(r)
    ensures forall i | 0 <= i < |s| :: IsLabelChar(s[i]) ==> r[i] == s[i]
  {
    seq(|s|, i requires 0 <= i < |s| => if IsLabelChar(s[i]) then s[i] else '-')
  }

  function TrimLeftHyphens(s: string): (r: string)
    ensures |r| <= |s| && r == s[|s| - |r|..]
    ensures r == [] || r[0] != '-'
  {
    if |s| > 0 && s[0] == '-' then TrimLeftHyphens(s[1..]) else s
  }

  function TrimRightHyphens(s: string): (r: string)
    ensures |r| <= |s| && r == s[..|r|]
    ensures r == [] || r[|r| - 1] != '-'
  {
    if |s| > 0 && s[|s| - 1] == '-' then TrimRightHyphens(s[..|s| - 1]) else s
  }

  /** strings.Trim(s, "-"). */
  function TrimHyphens(s: string): string
  {
    TrimRightHyphens(TrimLeftHyphens(s))
  }

  /** The regular expression -+ replaced by "-": every maximal run of hyphens
      becomes one. */
  function CollapseHyphens(s: string): (r: string)
    ensures |r| <= |s|
    ensures |s| > 0 ==> |r| > 0 && r[0] == s[0] && r[|r| - 1] == s[|s| - 1]
    ensures LabelChars(s) ==> LabelChars(r)
    ensures NoHyphenRun(r)
  {
    if |s| == 0 then []
    else if |s| > 1 && s[0] == '-' && s[1] == '-' then CollapseHyphens(s[1..])
    else [s[0]] + CollapseHyphens(s[1..])
  }

  /** Cutting to a length at most 63. */
  function Truncate(s: string): (r: string)
    ensures |r| <= MaxLabelLength && |r| <= |s| && r == s[..|r|]
    ensures |s| <= MaxLabelLength ==> r == s
  {
    if |s| > MaxLabelLength then s[..MaxLabelLength] else s
  }

  /** An 'x' in place of a first character that is not alphanumeric. */
  function AlphanumericStart(s: string): (r: string)
    ensures |r| == |s|
    ensures r == [] || IsAlphanumeric(r[0])
    ensures forall i | 0 < i < |s| :: r[i] == s[i]
  {
    if |s| > 0 && !IsAlphanumeric(s[0]) then "x" + s[1..] else s
  }

  /** The text the sanitiser has before it enforces the length limit. */
  function Cleaned(input: string): string
  {
    CollapseHyphens(TrimHyphens(ReplaceInvalid(ToLower(input))))
  }

  lemma TrimHyphensLabelChars(s: string)
    requires LabelChars(s)
    ensures LabelChars(TrimHyphens(s))
    ensures TrimHyphens(s) == [] || TrimHyphens(s)[0] != '-'
  {
    var left := TrimLeftHyphens(s);
    var t := TrimHyphens(s);
    forall i | 0 <= i < |t| ensures IsLabelChar(t[i]) {
      assert t[i] == left[i] == s[|s| - |left| + i];
    }
  }

  lemma CleanedIsClean(input: string)
    ensures CleanText(Cleaned(input))
    ensures Cleaned(input) == [] || Cleaned(input)[|Cleaned(input)| - 1] != '-'
  {
    var replaced := ReplaceInvalid(ToLower(input));
    TrimHyphensLabelChars(replaced);
    var t := TrimRightHyphens(TrimLeftHyphens(replaced));
    assert t == [] || t[|t| - 1] != '-';
    assert Cleaned(input) == CollapseHyphens(t);
  }

  lemma PrefixOfClean(s: string, k: nat)
    requires CleanText(s) && k <= |s|
    ensures CleanText(s[..k])
  {
  }

  /** sanitizeForDNS as written: lower-case, replace, trim, collapse, cut to
      63 characters, and put an 'x' in front of a non-alphanumeric start. The
      cut comes after the trim, so a hyphen at position 63 is left at the
      end. */
  function Sanitize(input: string): (r: string)
    ensures CleanText(r) && |r| <= MaxLabelLength
  {
    var truncated := Truncate(Cleaned(input));
    CleanedIsClean(input);
    PrefixOfClean(Cleaned(input), |truncated|);
    AlphanumericStart(truncated)
  }

  /** The sanitiser with the trailing hyphens trimmed after the cut, which
      keeps the "no trailing hyphen" rule the original states. */
  function SanitizeLabel(input: string): (r: string)
    ensures IsValidLabel(r)
  {
    var truncated := Truncate(Cleaned(input));
    CleanedIsClean(input);
    PrefixOfClean(Cleaned(input), |truncated|);
    var r := TrimRightHyphens(truncated);
    PrefixOfClean(truncated, |r|);
    AlphanumericStart(r)
  }

  /** The cut leaves a trailing hyphen: 62 letters, a hyphen and one more
      letter sanitise to 62 letters and a hyphen. */
  lemma SanitizeLeavesTrailingHyphen()
    ensures var s := seq(62, _ => 'a') + "-b";
            var r := Sanitize(s);
            |r| == 63 && r[62] == '-' && !IsValidLabel(r) && SanitizeLabel(s) == r[..62]
  {
    var s := seq(62, _ => 'a') + "-b";
    assert ToLower(s) == s;
    assert ReplaceInvalid(s) == s;
    assert TrimLeftHyphens(s) == s;
    assert TrimRightHyphens(s) == s;
    CollapseOfNoHyphenRun(s);
    assert Cleaned(s) == s;
    var t := s[..63];
    assert TrimRightHyphens(t) == TrimRightHyphens(t[..62]);
    assert TrimRightHyphens(t[..62]) == t[..62];
  }

  lemma {:induction false} CollapseOfNoHyphenRun(s: string)
    requires NoHyphenRun(s)
    ensures CollapseHyphens(s) == s
  {
    if |s| > 0 {
      CollapseOfNoHyphenRun(s[1..]);
      assert [s[0]] + s[1..] == s;
    }
  }

  /** A valid label is cleaned to itself. */
  lemma CleanedOfValidLabel(s: string)
    requires IsValidLabel(s)
    ensures Cleaned(s) == s
  {
    LowerOfLabelChars(s);
    ReplaceOfLabelChars(s);
    assert TrimLeftHyphens(s) == s;
    assert TrimRightHyphens(s) == s;
    CollapseOfNoHyphenRun(s);
  }

  lemma LowerOfLabelChars(s: string)
    requires LabelChars(s)
    ensures ToLower(s) == s
  {
    assert forall i | 0 <= i < |s| :: ToLower(s)[i] == s[i] by {
      forall i | 0 <= i < |s| ensures ToLower(s)[i] == s[i] {
        assert IsLabelChar(s[i]);
      }
    }
  }

  lemma ReplaceOfLabelChars(s: string)
    requires LabelChars(s)
    ensures ReplaceInvalid(s) == s
  {
    assert forall i | 0 <= i < |s| :: ReplaceInvalid(s)[i] == s[i];
  }

  /** A valid label is left alone, so sanitising twice is sanitising once. */
  lemma SanitizeLabelOfValidLabel(s: string)
    requires IsValidLabel(s)
    ensures SanitizeLabel(s) == s
    ensures Sanitize(s) == s
  {
    CleanedOfValidLabel(s);
  }

  lemma SanitizeLabelIdempotent(s: string)
    ensures SanitizeLabel(SanitizeLabel(s)) == SanitizeLabel(s)
  {
    SanitizeLabelOfValidLabel(SanitizeLabel(s));
  }

  /** The two sanitisers agree unless the cut ends on a hyphen. */
  lemma SanitizeAgrees(s: string)
    requires |Cleaned(s)| <= MaxLabelLength || Cleaned(s)[MaxLabelLength - 1] != '-'
    ensures Sanitize(s) == SanitizeLabel(s)
  {
    CleanedIsClean(s);
    CutKeepsTrimmed(Cleaned(s));
  }

  /** A text that does not end with a hyphen, cut where it holds no hyphen,
      has nothing for the right trim to remove. */
  lemma CutKeepsTrimmed(c: string)
    requires c == [] || c[|c| - 1] != '-'
    requires |c| <= MaxLabelLength || c[MaxLabelLength - 1] != '-'
    ensures TrimRightHyphens(Truncate(c)) == Truncate(c)
  {
  }

  // ---------------------------------------------------------------------
  // Chunk labels.

  /** Go's integer division, which truncates toward zero. */
  function GoDiv(a: int, b: int): (q: int)
    requires b > 0
    ensures a >= 0 ==> q == a / b
    ensures a < 0 ==> q == -((-a) / b)
  {
    if a >= 0 then a / b else -((-a) / b)
  }

  /** "c-%d-%s" of the index and the message id. */
  function ChunkLabelText(index: nat, msgId: string): string
  {
    "c-" + NatToDecimal(index) + "-" + msgId
  }

  /** The label before the length check: the "t%d-" prefix holds the minutes
      since the epoch, computed from the clock reading `unix` in seconds. */
  function FullChunkLabel(timePrefix: bool, index: nat, msgId: string, unix: int): string
  {
    var lab := ChunkLabelText(index, msgId);
    if timePrefix then "t" + IntToDecimal(GoDiv(unix, 60)) + "-" + lab else lab
  }

  /** The id length the truncation keeps: 63 less "c-<index>-", less 12 more
      for the time prefix, which the truncated label then does not carry. */
  function MaxIdLength(timePrefix: bool, index: nat): int
  {
    MaxLabelLength - |"c-" + NatToDecimal(index) + "-"| - (if timePrefix then 12 else 0)
  }

  /** The cases in which createChunkRecord does not slice out of range: the
      label fits, or the id is at least as long as the length kept. */
  predicate LabelFits(timePrefix: bool, index: nat, msgId: string, unix: int)
  {
    |FullChunkLabel(timePrefix, index, msgId, unix)| <= MaxLabelLength ||
    0 <= MaxIdLength(timePrefix, index) <= |msgId|
  }

  /** The label createChunkRecord puts in front of the subdomain. */
  function ChunkLabel(timePrefix: bool, index: nat, msgId: string, unix: int): (lab: string)
    requires LabelFits(timePrefix, index, msgId, unix)
    ensures |lab| <= MaxLabelLength
    ensures |FullChunkLabel(timePrefix, index, msgId, unix)| <= MaxLabelLength ==>
              lab == FullChunkLabel(timePrefix, index, msgId, unix)
  {
    var lab := FullChunkLabel(timePrefix, index, msgId, unix);
    if |lab| > MaxLabelLength then ChunkLabelText(index, LabelId(timePrefix, index, msgId, unix))
    else lab
  }

  /** The part of the id the label keeps: all of it, or the first
      MaxIdLength characters when the label is too long. */
  function LabelId(timePrefix: bool, index: nat, msgId: string, unix: int): (id: string)
    requires LabelFits(timePrefix, index, msgId, unix)
    ensures |id| <= |msgId| && id == msgId[..|id|]
  {
    if |FullChunkLabel(timePrefix, index, msgId, unix)| > MaxLabelLength
    then msgId[..MaxIdLength(timePrefix, index)]
    else msgId
  }

  // ---------------------------------------------------------------------
  // Reading a label back.

  /** The first label of a dotted name. */
  function FirstLabel(name: string): string
  {
    Split(name, '.')[0]
  }

  /** parseChunkRecord's removal of a time prefix: a label starting with 't'
      loses everything up to the first "-c-" found after its first
      character. */
  function StripTimePrefix(lab: string): (r: string)
    ensures |r| <= |lab|
  {
    var idx := Index(lab, "-c-");
    if HasPrefix(lab, "t") && idx > 0 then lab[idx + 1..] else lab
  }

  /** The sequence number parseChunkRecord scans from a record name with
      "c-%d-"; it stays 0 when the scan fails. */
  function LabelSequence(name: string): int
  {
    var lab := StripTimePrefix(FirstLabel(name));
    if HasPrefix(lab, "c-") then
      match ScanInt(lab[2..])
      case Some(v) => v
      case None => 0
    else 0
  }

  lemma FirstLabelOf(lab: string, rest: string)
    requires '.' !in lab
    requires rest == [] || rest[0] == '.'
    ensures FirstLabel(lab + rest) == lab
  {
    if rest == [] {
      assert lab + rest == lab;
      SplitNone(lab, '.');
    } else {
      assert lab + rest == lab + ['.'] + rest[1..];
      SplitAt(lab, '.', rest[1..]);
    }
  }

  /** Where the first occurrence is, given one occurrence and none before. */
  lemma IndexIs(s: string, sub: string, p: nat)
    requires OccursAt(s, sub, p)
    requires forall k: nat | k < p :: !OccursAt(s, sub, k)
    ensures Index(s, sub) == p
  {
    var r := IndexFrom(s, sub, 0);
  }

  lemma StripTimePrefixOfPrefixed(minutes: int, lab: string)
    requires HasPrefix(lab, "c-")
    ensures StripTimePrefix("t" + IntToDecimal(minutes) + "-" + lab) == lab
  {
    var digits := IntToDecimal(minutes);
    var s := "t" + digits + "-" + lab;
    var p := 1 + |digits|;
    assert s[p..p + 3] == "-" + lab[..2];
    forall k: nat | k < p ensures !OccursAt(s, "-c-", k) {
      assert s[k + 1] != 'c' by {
        if k + 1 < p {
          assert s[k + 1] == digits[k];
          assert digits[k] in digits;
        } else {
          assert s[k + 1] == '-';
        }
      }
      if k + 3 <= |s| {
        assert s[k..k + 3][1] == s[k + 1];
      }
    }
    IndexIs(s, "-c-", p);
    assert s[p + 1..] == lab;
  }

  lemma StripTimePrefixOfPlain(lab: string)
    requires HasPrefix(lab, "c-")
    ensures StripTimePrefix(lab) == lab
  {
    assert lab[0] == 'c';
  }

  lemma NoDotInDecimal(i: int)
    ensures '.' !in IntToDecimal(i) && '.' !in NatToDecimal(if i < 0 then -i else i)
  {
    var d := IntToDecimal(i);
    assert forall k | 0 <= k < |d| :: d[k] != '.' by {
      forall k | 0 <= k < |d| ensures d[k] != '.' {
        assert d[k] in d;
      }
    }
    var n := NatToDecimal(if i < 0 then -i else i);
    assert forall k | 0 <= k < |n| :: n[k] != '.' by {
      forall k | 0 <= k < |n| ensures n[k] != '.' {
        assert IsDigit(n[k]);
      }
    }
  }

  lemma ValidLabelHasNoDot(s: string)
    requires IsValidLabel(s)
    ensures '.' !in s
  {
    forall k | 0 <= k < |s| ensures s[k] != '.' {
      assert IsLabelChar(s[k]);
    }
  }

  lemma ConcatNoDot(a: string, b: string)
    requires '.' !in a && '.' !in b
    ensures '.' !in a + b
  {
    forall k | 0 <= k < |a + b| ensures (a + b)[k] != '.' {
      if k < |a| {
        assert (a + b)[k] == a[k];
      } else {
        assert (a + b)[k] == b[k - |a|];
      }
    }
  }

  /** The shape of "c-%d-%s": no dot when the id has none, and the number
      right after "c-". */
  lemma ChunkLabelTextShape(index: nat, id: string)
    requires '.' !in id
    ensures '.' !in ChunkLabelText(index, id)
    ensures HasPrefix(ChunkLabelText(index, id), "c-")
    ensures ChunkLabelText(index, id)[2..] == NatToDecimal(index) + ("-" + id)
  {
    NoDotInDecimal(index);
    ConcatNoDot("c-", NatToDecimal(index));
    ConcatNoDot("c-" + NatToDecimal(index), "-");
    ConcatNoDot("c-" + NatToDecimal(index) + "-", id);
  }

  lemma PrefixedNoDot(minutes: int, plain: string)
    requires '.' !in plain
    ensures '.' !in "t" + IntToDecimal(minutes) + "-" + plain
  {
    NoDotInDecimal(minutes);
    ConcatNoDot("t", IntToDecimal(minutes));
    ConcatNoDot("t" + IntToDecimal(minutes), "-");
    ConcatNoDot("t" + IntToDecimal(minutes) + "-", plain);
  }

  /** Reading the number after "c-" back. */
  lemma LabelSequenceOfPlain(index: nat, id: string, name: string)
    requires index <= MaxInt64 && '.' !in id
    requires StripTimePrefix(FirstLabel(name)) == ChunkLabelText(index, id)
    ensures LabelSequence(name) == index
  {
    ChunkLabelTextShape(index, id);
    assert IntToDecimal(index) == NatToDecimal(index);
    ScanIntOfIntToDecimal(index, "-" + id);
  }

  lemma LabelIdNoDot(timePrefix: bool, index: nat, msgId: string, unix: int)
    requires LabelFits(timePrefix, index, msgId, unix)
    requires '.' !in msgId
    ensures '.' !in LabelId(timePrefix, index, msgId, unix)
  {
    var id := LabelId(timePrefix, index, msgId, unix);
    forall k | 0 <= k < |id| ensures id[k] != '.' {
      assert id[k] in msgId;
    }
  }

  /** A chunk label has no dot when the id has none, starts with 'c' or 't',
      and loses its time prefix to leave "c-<index>-<id>". */
  lemma ChunkLabelParts(timePrefix: bool, index: nat, msgId: string, unix: int)
    requires LabelFits(timePrefix, index, msgId, unix)
    requires '.' !in msgId
    ensures var lab := ChunkLabel(timePrefix, index, msgId, unix);
            '.' !in lab && |lab| > 0 && (lab[0] == 'c' || lab[0] == 't') &&
            StripTimePrefix(lab) == ChunkLabelText(index, LabelId(timePrefix, index, msgId, unix))
  {
    var full := FullChunkLabel(timePrefix, index, msgId, unix);
    var id := LabelId(timePrefix, index, msgId, unix);
    var plain := ChunkLabelText(index, id);
    LabelIdNoDot(timePrefix, index, msgId, unix);
    ChunkLabelTextShape(index, id);
    var lab := ChunkLabel(timePrefix, index, msgId, unix);
    if timePrefix && |full| <= MaxLabelLength {
      var minutes := GoDiv(unix, 60);
      assert lab == "t" + IntToDecimal(minutes) + "-" + plain;
      PrefixedNoDot(minutes, plain);
      StripTimePrefixOfPrefixed(minutes, plain);
    } else {
      assert lab == plain;
      StripTimePrefixOfPlain(plain);
    }
  }

  /** The sequence number is read back from a chunk label, with or without
      the time prefix, cut or not, whatever follows the label's dot. */
  lemma LabelSequenceOfChunkLabel(timePrefix: bool, index: nat, msgId: string, unix: int, rest: string)
    requires LabelFits(timePrefix, index, msgId, unix)
    requires index <= MaxInt64 && '.' !in msgId
    requires rest == [] || rest[0] == '.'
    ensures LabelSequence(ChunkLabel(timePrefix, index, msgId, unix) + rest) == index
  {
    var lab := ChunkLabel(timePrefix, index, msgId, unix);
    var id := LabelId(timePrefix, index, msgId, unix);
    ChunkLabelParts(timePrefix, index, msgId, unix);
    FirstLabelOf(lab, rest);
    LabelIdNoDot(timePrefix, index, msgId, unix);
    LabelSequenceOfPlain(index, id, lab + rest);
  }

  /** A chunk label is told apart from a manifest label: without its time
      prefix it starts with "c-", and it never starts with "m-". */
  lemma ChunkLabelKind(timePrefix: bool, index: nat, msgId: string, unix: int)
    requires LabelFits(timePrefix, index, msgId, unix)
    requires '.' !in msgId
    ensures var lab := ChunkLabel(timePrefix, index, msgId, unix);
            HasPrefix(StripTimePrefix(lab), "c-") && !HasPrefix(lab, "m-")
  {
    ChunkLabelParts(timePrefix, index, msgId, unix);
    LabelIdNoDot(timePrefix, index, msgId, unix);
    ChunkLabelTextShape(index, LabelId(timePrefix, index, msgId, unix));
    NotManifestLabel(ChunkLabel(timePrefix, index, msgId, unix));
  }

  lemma NotManifestLabel(lab: string)
    requires |lab| > 0 && (lab[0] == 'c' || lab[0] == 't')
    ensures !HasPrefix(lab, "m-")
  {
    if |lab| >= 2 {
      assert lab[..2][0] == lab[0];
    }
  }
}
