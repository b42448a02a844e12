/** Base32 text encoding of bytes with the standard alphabet and WITHOUT
    padding (sections 6 and 3.2 of RFC 4648), as produced by
    base32.StdEncoding.WithPadding(base32.NoPadding). The bit string of the
    input is cut into 5-bit groups (the last one filled with zero bits), and
    each group becomes one character. */
module Base32 {
  import opened Bytes
  import opened Bits

  /** The character for a 5-bit group: "ABCDEFGHIJKLMNOPQRSTUVWXYZ234567"[v]. */
  function Base32Digit(v: nat): (c: char)
    requires v < 32
    ensures DigitValue(c) == Some(v)
    ensures 'A' <= c <= 'Z' || '2' <= c <= '7'
  {
    if v < 26 then ('A' as int + v) as char else ('2' as int + v - 26) as char
  }

  function DigitValue(c: char): (r: Option<nat>)
    ensures r.Some? ==> r.value < 32
  {
    if 'A' <= c <= 'Z' then Some(c as int - 'A' as int)
    else if '2' <= c <= '7' then Some(c as int - '2' as int + 26)
    else None
  }

  /** Zero bits appended so that the length is a multiple of 5. */
  function PadTo5(bits: seq<bool>): (r: seq<bool>)
    ensures |r| % 5 == 0 && |bits| <= |r| < |bits| + 5
    ensures r[..|bits|] == bits
  {
    bits + seq((5 - |bits| % 5) % 5, _ => false)
  }

  function Digits(bits: seq<bool>): (s: string)
    requires |bits| % 5 == 0
    ensures 5 * |s| == |bits|
    ensures forall i | 0 <= i < |s| :: 'A' <= s[i] <= 'Z' || '2' <= s[i] <= '7'
  {
    if |bits| == 0 then [] else [Base32Digit(BitsToNat(bits[..5]))] + Digits(bits[5..])
  }

  function Undigits(s: string): (r: Option<seq<bool>>)
    ensures r.Some? ==> |r.value| == 5 * |s|
  {
    if |s| == 0 then Some([])
    else
      match (DigitValue(s[0]), Undigits(s[1..]))
      case (Some(v), Some(rest)) => Some(NatToBits(v, 5) + rest)
      case _ => None
  }

  function Base32Encode(p: bytes): (s: string)
    ensures 5 * |s| == |PadTo5(BytesToBits(p))|
    ensures forall i | 0 <= i < |s| :: 'A' <= s[i] <= 'Z' || '2' <= s[i] <= '7'
  {
    Digits(PadTo5(BytesToBits(p)))
  }

  /** An unpadded text can only end in a group of 2, 4, 5 or 7 characters
      (one to four trailing bytes). */
  predicate ValidUnpaddedLength(n: nat)
  {
    var r := n % 8;
    r == 0 || r == 2 || r == 4 || r == 5 || r == 7
  }

  /** The bytes Go's decoder packs from a final group of k characters: the
      cases 7, 5, 4 and 2 of its packing switch. A group of 1, 3 or 6
      characters matches no case and packs none, without an error. */
  function GroupBytes(k: nat): nat
    requires k < 8
  {
    if k == 2 then 1 else if k == 4 then 2 else if k == 5 then 3 else if k == 7 then 4 else 0
  }

  /** The characters whose bits become bytes: a final group of 1, 3 or 6
      characters is dropped. */
  function Packed(s: string): (t: string)
    ensures t <= s && ValidUnpaddedLength(|t|)
    ensures |s| - |t| < 8 && |t| / 8 == |s| / 8
  {
    var r := |s| % 8;
    if r == 1 || r == 3 || r == 6 then s[..|s| - r] else s
  }

  lemma PackedLength(s: string)
    ensures 5 * |Packed(s)| / 8 == 5 * (|s| / 8) + GroupBytes(|s| % 8)
    ensures 5 * |Packed(s)| <= 5 * |s|
  {
    var q, r := |s| / 8, |s| % 8;
    assert |s| == 8 * q + r;
    if r == 1 || r == 3 || r == 6 {
      assert |Packed(s)| == 8 * q;
      assert 5 * |Packed(s)| == 8 * (5 * q);
    } else {
      assert 5 * |Packed(s)| == 8 * (5 * q) + 5 * r;
    }
  }

  /** Decoding, as the NoPadding decoder does it: every character must be in
      the alphabet, a final group of 1, 3 or 6 characters yields nothing, and
      the fill bits of the last group are dropped. A successful decode has
      five bytes per full group of eight and the bytes of the final group. */
  function Base32Decode(s: string): (r: Option<bytes>)
    ensures r.Some? ==> |r.value| == 5 * (|s| / 8) + GroupBytes(|s| % 8)
  {
    match Undigits(s)
    case None => None
    case Some(bits) =>
      PackedLength(s);
      Some(PackBits(bits[..8 * (5 * |Packed(s)| / 8)]))
  }

  /** One character outside the alphabet makes the whole text undecodable. */
  lemma {:induction false} UndigitsRejects(s: string, i: nat)
    requires i < |s| && DigitValue(s[i]).None?
    ensures Undigits(s).None?
    ensures Base32Decode(s).None?
  {
    if i > 0 {
      UndigitsRejects(s[1..], i - 1);
    }
  }

  lemma {:induction false} UndigitsOfDigits(bits: seq<bool>)
    requires |bits| % 5 == 0
    ensures Undigits(Digits(bits)) == Some(bits)
  {
    if |bits| > 0 {
      var s := Digits(bits);
      assert s[1..] == Digits(bits[5..]);
      UndigitsOfDigits(bits[5..]);
      NatToBitsOfBitsToNat(bits[..5]);
      assert bits == bits[..5] + bits[5..];
    }
  }

  /** Length bookkeeping: k bytes give ceil(8k/5) characters, a valid unpadded
      length from which exactly k bytes are read back. */
  lemma EncodedLength(k: nat)
    ensures var n := (8 * k + (5 - (8 * k) % 5) % 5) / 5;
            ValidUnpaddedLength(n) && 5 * n / 8 == k
  {
    var q, r := k / 5, k % 5;
    assert 8 * k == 5 * (8 * q) + 8 * r;
    assert (8 * k) % 5 == (8 * r) % 5;
    var n := (8 * k + (5 - (8 * k) % 5) % 5) / 5;
    if r == 0 { assert n == 8 * q; }
    else if r == 1 { assert n == 8 * q + 2; }
    else if r == 2 { assert n == 8 * q + 4; }
    else if r == 3 { assert n == 8 * q + 5; }
    else { assert n == 8 * q + 7; }
  }

  /** Every character is one of the 32 digits. */
  predicate InAlphabet(s: string)
  {
    forall i | 0 <= i < |s| :: DigitValue(s[i]).Some?
  }

  lemma {:induction false} UndigitsAccepts(s: string)
    requires InAlphabet(s)
    ensures Undigits(s).Some?
  {
    if |s| > 0 {
      assert InAlphabet(s[1..]) by {
        forall i | 0 <= i < |s| - 1 ensures DigitValue(s[1..][i]).Some? {
          assert s[1..][i] == s[i + 1];
        }
      }
      UndigitsAccepts(s[1..]);
    }
  }

  /** A text decodes exactly when every character is in the alphabet; its
      length never makes the decode fail. */
  lemma Base32DecodeSucceedsIff(s: string)
    ensures Base32Decode(s).Some? <==> InAlphabet(s)
  {
    if InAlphabet(s) {
      UndigitsAccepts(s);
    } else {
      var i :| 0 <= i < |s| && DigitValue(s[i]).None?;
      UndigitsRejects(s, i);
    }
  }

  /** A decode spelled out from the bits of the text. */
  lemma DecodeFromBits(s: string)
    requires Undigits(s).Some?
    ensures Base32Decode(s) == Some(PackBits(Undigits(s).value[..8 * (5 * |Packed(s)| / 8)]))
  {
  }

  /** Cutting the final group of 1, 3 or 6 characters leaves the packed
      text, which packs to itself. */
  lemma PackedCut(s: string)
    requires |s| % 8 == 1 || |s| % 8 == 3 || |s| % 8 == 6
    ensures Packed(s) == s[..|s| - |s| % 8]
    ensures Packed(Packed(s)) == Packed(s)
  {
  }

  /** A decodable text's prefixes decode, to a prefix of its bits. */
  lemma {:induction false} CutBits(s: string, k: nat)
    requires Undigits(s).Some? && k <= |s|
    ensures Undigits(s[..k]).Some?
    ensures Undigits(s[..k]).value <= Undigits(s).value
  {
    if k > 0 {
      var t := s[..k];
      assert t[0] == s[0] && t[1..] == s[1..][..k - 1];
      CutBits(s[1..], k - 1);
      var head := NatToBits(DigitValue(s[0]).value, 5);
      assert Undigits(t).value == head + Undigits(s[1..][..k - 1]).value;
      assert Undigits(s).value == head + Undigits(s[1..]).value;
    }
  }

  /** Two texts with the same packed characters, the bits of one a prefix
      of the bits of the other, decode alike. */
  lemma DecodeOfPrefixBits(s: string, t: string)
    requires Undigits(s).Some? && Undigits(t).Some?
    requires Packed(s) == t && Packed(t) == t
    requires Undigits(t).value <= Undigits(s).value
    ensures Base32Decode(s) == Base32Decode(t)
  {
    PackedLength(t);
    var m := 8 * (5 * |t| / 8);
    assert m <= |Undigits(t).value|;
    assert Undigits(s).value[..m] == Undigits(t).value[..m];
    DecodeFromBits(s);
    DecodeFromBits(t);
  }

  /** A final group of 1, 3 or 6 alphabet characters adds nothing: the text
      decodes as the text without it. */
  lemma Base32DecodeDropsPartialGroup(s: string)
    requires |s| % 8 == 1 || |s| % 8 == 3 || |s| % 8 == 6
    requires InAlphabet(s)
    ensures Base32Decode(s) == Base32Decode(s[..|s| - |s| % 8])
  {
    var k := |s| - |s| % 8;
    UndigitsAccepts(s);
    CutBits(s, k);
    PackedCut(s);
    DecodeOfPrefixBits(s, s[..k]);
  }

  /** Decoding undoes encoding. */
  lemma Base32DecodeOfBase32Encode(p: bytes)
    ensures Base32Decode(Base32Encode(p)) == Some(p)
  {
    var bits := BytesToBits(p);
    var padded := PadTo5(bits);
    var s := Base32Encode(p);
    EncodedLength(|p|);
    assert |s| == |padded| / 5;
    assert Packed(s) == s;
    UndigitsOfDigits(padded);
    assert 8 * (5 * |s| / 8) == |bits|;
    assert padded[..|bits|] == bits;
    PackBitsOfBytesToBits(p);
  }

  /** Joining two texts in the alphabet stays in it. */
  lemma AppendInAlphabet(a: string, b: string)
    requires InAlphabet(a) && InAlphabet(b)
    ensures InAlphabet(a + b)
  {
    forall i | 0 <= i < |a + b| ensures DigitValue((a + b)[i]).Some? {
      if i < |a| {
        assert (a + b)[i] == a[i];
      } else {
        assert (a + b)[i] == b[i - |a|];
      }
    }
  }

  /** Every character of an encoding is in the alphabet. */
  lemma EncodingInAlphabet(p: bytes)
    ensures InAlphabet(Base32Encode(p))
  {
    var e := Base32Encode(p);
    forall i | 0 <= i < |e| ensures DigitValue(e[i]).Some? {
      assert 'A' <= e[i] <= 'Z' || '2' <= e[i] <= '7';
    }
  }

  /** A text of whole groups followed by fewer than eight characters. */
  lemma WholeGroupsThen(e: string, extra: string)
    requires |e| % 8 == 0 && |extra| < 8
    ensures |e + extra| % 8 == |extra|
    ensures (e + extra)[..|e + extra| - |extra|] == e
  {
    assert |e + extra| == 8 * (|e| / 8) + |extra|;
  }

  /** The encoding of bytes whose text fills whole groups, followed by one,
      three or six more alphabet characters, still decodes to the bytes. */
  lemma Base32DecodeIgnoresTrailingGroup(p: bytes, extra: string)
    requires |Base32Encode(p)| % 8 == 0
    requires |extra| == 1 || |extra| == 3 || |extra| == 6
    requires InAlphabet(extra)
    ensures Base32Decode(Base32Encode(p) + extra) == Some(p)
  {
    var e := Base32Encode(p);
    EncodingInAlphabet(p);
    AppendInAlphabet(e, extra);
    WholeGroupsThen(e, extra);
    Base32DecodeDropsPartialGroup(e + extra);
    Base32DecodeOfBase32Encode(p);
  }
}
