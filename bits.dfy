/** Bit strings read and written most significant bit first: the layout of the
    stego bit stream and of base32 digit groups. */
module Bits {
  import opened Bytes

  /** Value of a bit string read most significant bit first. */
  function BitsToNat(bits: seq<bool>): (n: nat)
    ensures n < Pow2(|bits|)
  {
    if |bits| == 0 then 0
    else 2 * BitsToNat(bits[..|bits| - 1]) + (if bits[|bits| - 1] then 1 else 0)
  }

  /** The `w` low bits of `x`, most significant first. */
  function NatToBits(x: nat, w: nat): (bits: seq<bool>)
    ensures |bits| == w
  {
    if w == 0 then [] else NatToBits(x / 2, w - 1) + [x % 2 == 1]
  }

  lemma {:induction false} BitsToNatOfNatToBits(x: nat, w: nat)
    requires x < Pow2(w)
    ensures BitsToNat(NatToBits(x, w)) == x
  {
    if w > 0 {
      var bits := NatToBits(x, w);
      assert bits[..w - 1] == NatToBits(x / 2, w - 1);
      assert x / 2 < Pow2(w - 1);
      BitsToNatOfNatToBits(x / 2, w - 1);
      assert bits[w - 1] == (x % 2 == 1);
      assert x == 2 * (x / 2) + x % 2;
    }
  }

  lemma {:induction false} NatToBitsOfBitsToNat(bits: seq<bool>)
    ensures NatToBits(BitsToNat(bits), |bits|) == bits
  {
    if |bits| > 0 {
      var init := bits[..|bits| - 1];
      var n := BitsToNat(bits);
      assert n / 2 == BitsToNat(init);
      NatToBitsOfBitsToNat(init);
      assert bits == init + [bits[|bits| - 1]];
    }
  }

  /** Bit `k` of `x`, counting from the least significant bit: what
      `(x & (1 << k)) != 0` tests. */
  function TestBit(x: nat, k: nat): bool
  {
    if k == 0 then x % 2 == 1 else TestBit(x / 2, k - 1)
  }

  /** Bit `i` (counted from the most significant end) of NatToBits(x, w) is
      bit `w - 1 - i` of `x`. */
  lemma {:induction false} NatToBitsAt(x: nat, w: nat, i: nat)
    requires i < w
    ensures NatToBits(x, w)[i] == TestBit(x, w - 1 - i)
  {
    if i < w - 1 {
      NatToBitsAt(x / 2, w - 1, i);
    }
  }

  /** The eight bits of one byte, most significant first. */
  function ByteBits(b: uint8): (bits: seq<bool>)
    ensures |bits| == 8
  {
    NatToBits(b, 8)
  }

  /** MSB-first expansion of a byte string: 8 bits per byte. */
  function BytesToBits(p: bytes): (bits: seq<bool>)
    ensures |bits| == 8 * |p|
  {
    if |p| == 0 then [] else BytesToBits(p[..|p| - 1]) + ByteBits(p[|p| - 1])
  }

  /** MSB-first packing of a bit string whose length is a multiple of 8. */
  function PackBits(bits: seq<bool>): (p: bytes)
    requires |bits| % 8 == 0
    ensures 8 * |p| == |bits|
  {
    if |bits| == 0 then []
    else
      var n := |bits| - 8;
      PackBits(bits[..n]) + [BitsToNat(bits[n..]) as uint8]
  }

  /** Packing undoes expansion. */
  lemma {:induction false} PackBitsOfBytesToBits(p: bytes)
    ensures PackBits(BytesToBits(p)) == p
  {
    if |p| > 0 {
      var init, last := p[..|p| - 1], p[|p| - 1];
      var bits := BytesToBits(p);
      assert bits == BytesToBits(init) + ByteBits(last);
      PackBitsSnoc(BytesToBits(init), ByteBits(last));
      PackBitsOfBytesToBits(init);
      BitsToNatOfNatToBits(last, 8);
      assert p == init + [last];
    }
  }

  /** Expansion undoes packing. */
  lemma {:induction false} BytesToBitsOfPackBits(bits: seq<bool>)
    requires |bits| % 8 == 0
    ensures BytesToBits(PackBits(bits)) == bits
  {
    if |bits| > 0 {
      var n := |bits| - 8;
      var init, last := bits[..n], bits[n..];
      var p := PackBits(bits);
      ByteBitsOfBits(last);
      var b := BitsToNat(last) as uint8;
      assert p == PackBits(init) + [b];
      BytesToBitsOfPackBits(init);
      assert BytesToBits(p) == BytesToBits(PackBits(init)) + ByteBits(b) by {
        assert p[..|p| - 1] == PackBits(init);
      }
      assert bits == init + last;
    }
  }

  /** Eight bits are the expansion of the byte they pack to. */
  lemma ByteBitsOfBits(b: seq<bool>)
    requires |b| == 8
    ensures BitsToNat(b) < 256 && ByteBits(BitsToNat(b) as uint8) == b
  {
    NatToBitsOfBitsToNat(b);
  }

  /** The expansion of a prefix is the prefix of the expansion. */
  lemma {:induction false} BytesToBitsPrefix(p: bytes, k: nat)
    requires k <= |p|
    ensures BytesToBits(p[..k]) == BytesToBits(p)[..8 * k]
  {
    if k < |p| {
      assert p[..|p| - 1][..k] == p[..k];
      BytesToBitsPrefix(p[..|p| - 1], k);
    } else {
      assert p[..k] == p;
    }
  }

  /** Bit 8*i + j of the expansion is bit 7 - j of byte i. */
  lemma BytesToBitsAt(p: bytes, i: nat, j: nat)
    requires i < |p| && j < 8
    ensures 8 * i + j < 8 * |p|
    ensures BytesToBits(p)[8 * i + j] == TestBit(p[i], 7 - j)
  {
    BytesToBitsPrefix(p, i + 1);
    assert p[..i + 1][..i] == p[..i];
    assert BytesToBits(p[..i + 1]) == BytesToBits(p[..i]) + ByteBits(p[i]);
    NatToBitsAt(p[i], 8, j);
  }

  /** Byte `i` of the packing is the value of bits 8*i .. 8*i+7. */
  lemma {:induction false} PackBitsAt(bits: seq<bool>, i: nat)
    requires |bits| % 8 == 0 && 8 * i + 8 <= |bits|
    ensures PackBits(bits)[i] as int == BitsToNat(bits[8 * i .. 8 * i + 8])
  {
    var n := |bits| - 8;
    var init := PackBits(bits[..n]);
    assert PackBits(bits) == init + [BitsToNat(bits[n..]) as uint8];
    if 8 * i < n {
      assert bits[..n][8 * i .. 8 * i + 8] == bits[8 * i .. 8 * i + 8];
      PackBitsAt(bits[..n], i);
    } else {
      assert i == |init|;
      assert bits[8 * i .. 8 * i + 8] == bits[n..];
    }
  }

  /** Byte k of the packing of n bytes' worth of bits read from `off`. */
  lemma PackBitsOfWindow(bits: seq<bool>, off: nat, n: nat, k: nat)
    requires off + 8 * n <= |bits| && k < n
    ensures PackBits(bits[off..off + 8 * n])[k] as int == BitsToNat(bits[off + 8 * k..off + 8 * k + 8])
  {
    var s := bits[off..off + 8 * n];
    assert |s| == 8 * n && 8 * k + 8 <= 8 * n;
    PackBitsAt(s, k);
    var a, b := s[8 * k..8 * k + 8], bits[off + 8 * k..off + 8 * k + 8];
    forall j | 0 <= j < 8 ensures a[j] == b[j] {
      assert s[8 * k + j] == bits[off + 8 * k + j];
    }
    assert a == b;
  }

  /** Appending one group of eight bits appends one byte to the packing. */
  lemma PackBitsSnoc(bits: seq<bool>, group: seq<bool>)
    requires |bits| % 8 == 0 && |group| == 8
    ensures PackBits(bits + group) == PackBits(bits) + [BitsToNat(group) as uint8]
  {
    var all := bits + group;
    assert all[..|bits|] == bits;
    assert all[|bits|..] == group;
  }
}
