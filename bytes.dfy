/** Fixed-width unsigned integers and their big-endian byte layout, as used by
    the frame header (magic, sequence, total, checksum) and the stego length
    header. */
module Bytes {

  type uint8 = x: int | 0 <= x < 0x100
  type uint16 = x: int | 0 <= x < 0x1_0000
  type uint32 = x: int | 0 <= x < 0x1_0000_0000
  type bytes = seq<uint8>

  datatype Option<+T> = None | Some(value: T)

  datatype Result<+T, +E> = Ok(value: T) | Err(error: E)

  function Pow2(n: nat): (r: nat)
    ensures r >= 1
  {
    if n == 0 then 1 else 2 * Pow2(n - 1)
  }

  /** The two bytes of `x`, most significant first (binary.BigEndian.PutUint16). */
  function BE16(x: uint16): (r: bytes)
    ensures |r| == 2
  {
    [x / 0x100, x % 0x100]
  }

  /** The four bytes of `x`, most significant first (binary.BigEndian.PutUint32). */
  function BE32(x: uint32): (r: bytes)
    ensures |r| == 4
  {
    [x / 0x100_0000, (x / 0x1_0000) % 0x100, (x / 0x100) % 0x100, x % 0x100]
  }

  /** binary.BigEndian.Uint16 on the first two bytes. */
  function ReadBE16(s: bytes): uint16
    requires |s| >= 2
  {
    s[0] as int * 0x100 + s[1] as int
  }

  /** binary.BigEndian.Uint32 on the first four bytes. */
  function ReadBE32(s: bytes): uint32
    requires |s| >= 4
  {
    s[0] as int * 0x100_0000 + s[1] as int * 0x1_0000 + s[2] as int * 0x100 + s[3] as int
  }

  lemma ReadBE16OfBE16(x: uint16, rest: bytes)
    ensures ReadBE16(BE16(x) + rest) == x
  {
  }

  lemma ReadBE32OfBE32(x: uint32, rest: bytes)
    ensures ReadBE32(BE32(x) + rest) == x
  {
    var s := BE32(x) + rest;
    var q1 := x / 0x100;
    var q2 := q1 / 0x100;
    assert x == q1 * 0x100 + x % 0x100;
    assert q1 == q2 * 0x100 + q1 % 0x100;
    assert q2 == x / 0x1_0000;
    assert x / 0x100_0000 == q2 / 0x100;
    assert q2 == (q2 / 0x100) * 0x100 + q2 % 0x100;
    assert s[0] == q2 / 0x100 && s[1] == q2 % 0x100 && s[2] == q1 % 0x100 && s[3] == x % 0x100;
  }

  /** Reading two bytes and writing them back gives the same two bytes. */
  lemma BE16OfReadBE16(s: bytes)
    requires |s| == 2
    ensures BE16(ReadBE16(s)) == s
  {
  }

  /** Reading four bytes and writing them back gives the same four bytes. */
  lemma BE32OfReadBE32(s: bytes)
    requires |s| == 4
    ensures BE32(ReadBE32(s)) == s
  {
    var x := ReadBE32(s);
    var a, b, c, d := s[0] as int, s[1] as int, s[2] as int, s[3] as int;
    var t := (a * 0x100 + b) * 0x100 + c;
    QuotientOf(x, a, b * 0x1_0000 + c * 0x100 + d, 0x100_0000);
    QuotientOf(x, a * 0x100 + b, c * 0x100 + d, 0x1_0000);
    QuotientOf(a * 0x100 + b, a, b, 0x100);
    QuotientOf(x, t, d, 0x100);
    QuotientOf(t, a * 0x100 + b, c, 0x100);
    assert BE32(x) == [s[0], s[1], s[2], s[3]];
  }

  /** Division by a power of 256 of q*d + r, with r below d, gives q and
      leaves r. */
  lemma QuotientOf(x: int, q: int, r: int, d: int)
    requires d == 0x100 || d == 0x1_0000 || d == 0x100_0000
    requires 0 <= r < d && x == q * d + r
    ensures x / d == q && x % d == r
  {
    if d == 0x100 {
      assert x == q * 0x100 + r;
    } else if d == 0x1_0000 {
      assert x == q * 0x1_0000 + r;
    } else {
      assert x == q * 0x100_0000 + r;
    }
  }
}
