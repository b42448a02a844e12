/** Lower-case hexadecimal text encoding of bytes (section 8 of RFC 4648), as
    produced by hex.EncodeToString and read back by hex.DecodeString. */
module Hex {
  import opened Bytes

  predicate IsLowerHexDigit(c: char)
  {
    '0' <= c <= '9' || 'a' <= c <= 'f'
  }

  /** Value of one hex digit; both cases are accepted on input. */
  function HexValue(c: char): (r: Option<nat>)
    ensures r.Some? ==> r.value < 16
  {
    if '0' <= c <= '9' then Some(c as int - '0' as int)
    else if 'a' <= c <= 'f' then Some(c as int - 'a' as int + 10)
    else if 'A' <= c <= 'F' then Some(c as int - 'A' as int + 10)
    else None
  }

  /** The lower-case digit for a nibble: "0123456789abcdef"[n]. */
  function HexDigit(n: nat): (c: char)
    requires n < 16
    ensures IsLowerHexDigit(c) && HexValue(c) == Some(n)
  {
    if n < 10 then ('0' as int + n) as char else ('a' as int + n - 10) as char
  }

  function EncodeByte(b: uint8): string
  {
    [HexDigit(b / 16), HexDigit(b % 16)]
  }

  /** hex.EncodeToString: two lower-case digits per byte, high nibble first. */
  function HexEncode(p: bytes): (s: string)
    ensures |s| == 2 * |p|
    ensures forall c | c in s :: IsLowerHexDigit(c)
  {
    if |p| == 0 then [] else EncodeByte(p[0]) + HexEncode(p[1..])
  }

  /** hex.DecodeString: fails on an odd length or a character that is not a
      hex digit. */
  function HexDecode(s: string): (r: Option<bytes>)
    ensures r.Some? ==> 2 * |r.value| == |s|
  {
    if |s| == 0 then Some([])
    else if |s| == 1 then None
    else
      match (HexValue(s[0]), HexValue(s[1]), HexDecode(s[2..]))
      case (Some(hi), Some(lo), Some(rest)) => Some([hi * 16 + lo] + rest)
      case _ => None
  }

  /** Decoding undoes encoding. */
  lemma {:induction false} HexDecodeOfHexEncode(p: bytes)
    ensures HexDecode(HexEncode(p)) == Some(p)
  {
    if |p| > 0 {
      var s := HexEncode(p);
      assert s[..2] == EncodeByte(p[0]) && s[2..] == HexEncode(p[1..]);
      HexDecodeOfHexEncode(p[1..]);
      assert p == [p[0]] + p[1..];
    }
  }

  /** A text that decodes is the encoding of what it decodes to, up to the case
      of its letters: on lower-case text decoding is injective. */
  lemma {:induction false} HexEncodeOfHexDecode(s: string)
    requires forall c | c in s :: IsLowerHexDigit(c)
    requires HexDecode(s).Some?
    ensures HexEncode(HexDecode(s).value) == s
  {
    if |s| > 0 {
      var rest := s[2..];
      assert forall c | c in rest :: c in s;
      HexEncodeOfHexDecode(rest);
      assert s[0] in s && s[1] in s;
      var b := PairValue(s[0], s[1]);
      DecodeStep(s);
      EncodeCons(b, HexDecode(rest).value);
      assert s == [s[0], s[1]] + rest;
    }
  }

  lemma DecodeStep(s: string)
    requires |s| >= 2 && IsLowerHexDigit(s[0]) && IsLowerHexDigit(s[1]) && HexDecode(s).Some?
    ensures HexDecode(s[2..]).Some?
    ensures HexDecode(s).value == [PairValue(s[0], s[1])] + HexDecode(s[2..]).value
  {
  }

  lemma EncodeCons(b: uint8, p: bytes)
    ensures HexEncode([b] + p) == EncodeByte(b) + HexEncode(p)
  {
    assert ([b] + p)[1..] == p;
  }

  /** The byte two lower-case digits stand for. */
  function PairValue(hi: char, lo: char): (b: uint8)
    requires IsLowerHexDigit(hi) && IsLowerHexDigit(lo)
    ensures EncodeByte(b) == [hi, lo]
  {
    var h, l := HexValue(hi).value, HexValue(lo).value;
    DigitOfValue(hi);
    DigitOfValue(lo);
    assert (h * 16 + l) / 16 == h && (h * 16 + l) % 16 == l;
    h * 16 + l
  }

  lemma DigitOfValue(c: char)
    requires IsLowerHexDigit(c)
    ensures HexValue(c).Some? && HexDigit(HexValue(c).value) == c
  {
  }
}
