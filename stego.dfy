/** The stego payload's way into and out of an image: the decoder reads the
    least significant bit of every colour channel, row by row, and unpacks a
    big-endian length header and the payload bytes most significant bit
    first; the encoder expands the payload into bits and writes them into
    the least significant bits of random base colours. */
module Stego {
  import opened Bytes
  import opened Bits

  /** The constants of internal/spec. */
  const HeaderSize: nat := 4
  const BitsPerByte: nat := 8
  const Channels: nat := 3
  const SaltSize: nat := 32
  const NonceSize: nat := 12
  const TagSize: nat := 16
  const HeaderBits: nat := HeaderSize * BitsPerByte
  /** The smallest encrypted payload the decoder accepts: salt, nonce, tag
      and four bytes of ciphertext. */
  const MinPayload: nat := SaltSize + NonceSize + TagSize + 4

  /** The red, green and blue bytes of one pixel. */
  datatype Pixel = Pixel(r: uint8, g: uint8, b: uint8)

  /** Whether the lowest bit of a channel is set: `v & 1 == 1`. */
  function Lsb(v: uint8): bool
  {
    v % 2 == 1
  }

  /** Channel `c` of a pixel: 0 red, 1 green, 2 blue. */
  function Channel(p: Pixel, c: nat): uint8
    requires c < Channels
  {
    if c == 0 then p.r else if c == 1 then p.g else p.b
  }

  /** The three bits a pixel carries, red first. */
  function PixelBits(p: Pixel): (bits: seq<bool>)
    ensures |bits| == Channels
    ensures forall c | 0 <= c < Channels :: bits[c] == Lsb(Channel(p, c))
  {
    [Lsb(p.r), Lsb(p.g), Lsb(p.b)]
  }

  /** The bits of one row of pixels, left to right. */
  function RowBits(row: seq<Pixel>): (bits: seq<bool>)
    ensures |bits| == Channels * |row|
  {
    if |row| == 0 then [] else RowBits(row[..|row| - 1]) + PixelBits(row[|row| - 1])
  }

  /** The bits of an image given as its rows, top to bottom. */
  function GridBits(rows: seq<seq<Pixel>>): seq<bool>
  {
    if |rows| == 0 then [] else GridBits(rows[..|rows| - 1]) + RowBits(rows[|rows| - 1])
  }

  /** Every row has `width` pixels. */
  predicate IsGrid(rows: seq<seq<Pixel>>, width: nat)
  {
    forall y | 0 <= y < |rows| :: |rows[y]| == width
  }

  lemma RowBitsStep(row: seq<Pixel>, x: nat)
    requires x < |row|
    ensures RowBits(row[..x + 1]) == RowBits(row[..x]) + PixelBits(row[x])
  {
    assert row[..x + 1][..x] == row[..x];
  }

  lemma GridBitsStep(rows: seq<seq<Pixel>>, y: nat)
    requires y < |rows|
    ensures GridBits(rows[..y + 1]) == GridBits(rows[..y]) + RowBits(rows[y])
  {
    assert rows[..y + 1][..y] == rows[..y];
  }

  /** An image of `height` rows of `width` pixels gives 3 * width * height
      bits. */
  lemma {:induction false} GridBitsLength(rows: seq<seq<Pixel>>, width: nat)
    requires IsGrid(rows, width)
    ensures |GridBits(rows)| == Channels * width * |rows|
  {
    if |rows| > 0 {
      GridBitsLength(rows[..|rows| - 1], width);
      assert Channels * width * |rows| == Channels * width * (|rows| - 1) + Channels * width;
    }
  }

  /** Bit 3x + c of a row is the lowest bit of channel c of pixel x. */
  lemma {:induction false} RowBitsAt(row: seq<Pixel>, x: nat, c: nat)
    requires x < |row| && c < Channels
    ensures RowBits(row)[Channels * x + c] == Lsb(Channel(row[x], c))
  {
    var n := |row| - 1;
    if x < n {
      RowBitsAt(row[..n], x, c);
      assert row[..n][x] == row[x];
    }
  }

  /** Where pixel (y, x) of a `width`-wide image starts in the stream, and
      that it lies inside an image of `height` rows. */
  lemma RowMajor(y: nat, x: nat, c: nat, width: nat, height: nat)
    requires y < height && x < width && c < Channels
    ensures Channels * (y * width + x) + c == Channels * width * y + (Channels * x + c)
    ensures Channels * width * y + (Channels * x + c) < Channels * width * height
  {
    assert Channels * width * (y + 1) <= Channels * width * height;
  }

  /** Row-major order: bit 3 (y w + x) + c of the stream is the lowest bit
      of channel c of the pixel in row y, column x. */
  lemma {:induction false} GridBitsAt(rows: seq<seq<Pixel>>, width: nat, y: nat, x: nat, c: nat)
    requires IsGrid(rows, width) && y < |rows| && x < width && c < Channels
    ensures Channels * (y * width + x) + c < |GridBits(rows)|
    ensures GridBits(rows)[Channels * (y * width + x) + c] == Lsb(Channel(rows[y][x], c))
  {
    var n := |rows| - 1;
    RowMajor(y, x, c, width, |rows|);
    GridBitsLength(rows, width);
    if y < n {
      RowMajor(y, x, c, width, n);
      GridBitsLength(rows[..n], width);
      GridBitsAt(rows[..n], width, y, x, c);
      assert rows[..n][y] == rows[y];
    } else {
      GridBitsLength(rows[..n], width);
      RowBitsAt(rows[n], x, c);
    }
  }

  // ---------------------------------------------------------------------
  // Decoder.

  datatype DecodeError =
    | InsufficientHeader
    | ExceedsAvailable(length: nat, maxBytes: int)
    | TooSmall(length: nat)

  /** The big-endian length read from the first four bytes of the stream. */
  function PayloadLength(bits: seq<bool>): uint32
    requires |bits| >= HeaderBits
  {
    ReadBE32(PackBits(bits[..HeaderBits]))
  }

  /** What ExtractSecurePayload makes of a bit stream: the header's length,
      checked against the bits that follow and against the smallest
      encrypted payload, then that many bytes packed most significant bit
      first. */
  function SecurePayload(bits: seq<bool>): (r: Result<bytes, DecodeError>)
    ensures r.Ok? ==> MinPayload <= |r.value| && HeaderBits + BitsPerByte * |r.value| <= |bits|
    ensures r.Ok? ==> BytesToBits(r.value) == bits[HeaderBits..HeaderBits + BitsPerByte * |r.value|]
  {
    if |bits| < HeaderBits then Err(InsufficientHeader)
    else
      var length := PayloadLength(bits);
      var maxBytes := (|bits| - HeaderBits) / BitsPerByte;
      if length > maxBytes then Err(ExceedsAvailable(length, maxBytes))
      else if length < MinPayload then Err(TooSmall(length))
      else
        var body := bits[HeaderBits..HeaderBits + BitsPerByte * length];
        BytesToBitsOfPackBits(body);
        Ok(PackBits(body))
  }

  /** Bitwise or of two naturals, bit by bit from the lowest. */
  function BitOr(x: nat, y: nat): nat
    decreases x + y
  {
    if x == 0 && y == 0 then 0
    else 2 * BitOr(x / 2, y / 2) + (if x % 2 == 1 || y % 2 == 1 then 1 else 0)
  }

  /** Bitwise and of two naturals, bit by bit from the lowest. */
  function BitAnd(x: nat, y: nat): nat
    decreases x + y
  {
    if x == 0 || y == 0 then 0
    else 2 * BitAnd(x / 2, y / 2) + (if x % 2 == 1 && y % 2 == 1 then 1 else 0)
  }

  lemma {:induction false} BitOrZero(x: nat)
    ensures BitOr(x, 0) == x
  {
    if x > 0 {
      BitOrZero(x / 2);
    }
  }

  /** Or-ing in bit k of a number whose bits 0 .. k are clear adds 2^k. */
  lemma {:induction false} BitOrFreshBit(m: nat, k: nat)
    ensures BitOr(m * Pow2(k + 1), Pow2(k)) == m * Pow2(k + 1) + Pow2(k)
  {
    var x := m * Pow2(k + 1);
    if k == 0 {
      assert x == 2 * m;
      BitOrZero(m);
    } else {
      assert x == 2 * (m * Pow2(k));
      assert Pow2(k) == 2 * Pow2(k - 1);
      BitOrFreshBit(m, k - 1);
    }
  }

  /** And-ing with 2^n - 1 keeps a number below 2^n. */
  lemma {:induction false} BitAndLowMask(z: nat, n: nat)
    requires z < Pow2(n)
    ensures BitAnd(z, Pow2(n) - 1) == z
  {
    if z > 0 {
      assert Pow2(n) == 2 * Pow2(n - 1);
      BitAndLowMask(z / 2, n - 1);
    }
  }

  /** `x |= 1 << k` on the running byte. */
  function SetBit(x: nat, k: nat): nat
  {
    BitOr(x, Pow2(k))
  }

  /** One more bit read: the value doubles and takes the bit. */
  lemma BitsToNatSnoc(bits: seq<bool>, off: nat, j: nat)
    requires off + j < |bits|
    ensures BitsToNat(bits[off..off + j + 1]) == 2 * BitsToNat(bits[off..off + j]) + (if bits[off + j] then 1 else 0)
  {
    var g := bits[off..off + j + 1];
    assert g[..j] == bits[off..off + j];
  }

  lemma GatherStep(bits: seq<bool>, off: nat, j: nat, b: nat)
    requires off + 8 <= |bits| && j < 8
    requires b == BitsToNat(bits[off..off + j]) * Pow2(8 - j)
    ensures (if bits[off + j] then SetBit(b, 7 - j) else b) == BitsToNat(bits[off..off + j + 1]) * Pow2(7 - j)
  {
    var v := BitsToNat(bits[off..off + j]);
    var p := Pow2(7 - j);
    var k := 7 - j;
    BitsToNatSnoc(bits, off, j);
    assert Pow2(8 - j) == 2 * p;
    Doubling(v, p);
    if bits[off + j] {
      assert k + 1 == 8 - j;
      BitOrFreshBit(v, k);
    }
  }

  lemma Doubling(v: int, p: int)
    ensures v * (2 * p) == (2 * v) * p
    ensures (2 * v + 1) * p == v * (2 * p) + p
  {
  }

  /** The byte in bits off .. off + 7, most significant bit first. */
  function ByteAt(bits: seq<bool>, off: nat): nat
    requires off + 8 <= |bits|
  {
    BitsToNat(bits[off..off + 8])
  }

  /** One byte read most significant bit first from bits off .. off + 7. */
  method GatherByte(bits: seq<bool>, off: nat) returns (b: uint8)
    requires off + 8 <= |bits|
    ensures b as int == ByteAt(bits, off)
  {
    var acc: nat := 0;
    for j := 0 to 8
      invariant acc == BitsToNat(bits[off..off + j]) * Pow2(8 - j)
    {
      GatherStep(bits, off, j, acc);
      if bits[off + j] {
        acc := SetBit(acc, 7 - j);
      }
    }
    b := acc;
  }

  /** The decoder of one image: its rows of pixels, the bits read from them
      and the payload unpacked from those bits. */
  class SecureStegoDecoder {
    const img: seq<seq<Pixel>>
    const width: nat
    const height: nat
    var bits: seq<bool>
    var securePayload: bytes

    predicate Valid()
    {
      |img| == height && IsGrid(img, width)
    }

    constructor (img: seq<seq<Pixel>>, width: nat)
      requires IsGrid(img, width)
      ensures Valid() && this.img == img && this.width == width && height == |img|
      ensures bits == [] && securePayload == []
    {
      this.img := img;
      this.width := width;
      height := |img|;
      bits := [];
      securePayload := [];
    }

    /** ExtractBitStream: the lowest bits of every pixel, row by row. */
    method ExtractBitStream()
      requires Valid()
      modifies this
      ensures bits == GridBits(img) && securePayload == old(securePayload)
    {
      bits := [];
      for y := 0 to height
        invariant bits == GridBits(img[..y]) && securePayload == old(securePayload)
      {
        for x := 0 to width
          invariant bits == GridBits(img[..y]) + RowBits(img[y][..x]) && securePayload == old(securePayload)
        {
          var p := img[y][x];
          RowBitsStep(img[y], x);
          bits := bits + [Lsb(p.r), Lsb(p.g), Lsb(p.b)];
        }
        assert img[y][..width] == img[y];
        GridBitsStep(img, y);
      }
      assert img[..height] == img;
    }

    /** ExtractSecurePayload: the payload unpacked from the bits, or the
        reason there is none, in which case the payload is left alone. */
    method ExtractSecurePayload() returns (err: Option<DecodeError>)
      modifies this
      ensures bits == old(bits)
      ensures SecurePayload(bits).Ok? ==> err == None && securePayload == SecurePayload(bits).value
      ensures SecurePayload(bits).Err? ==> err == Some(SecurePayload(bits).error) && securePayload == old(securePayload)
    {
      var bs := bits;
      if |bs| < HeaderBits {
        return Some(InsufficientHeader);
      }
      var lengthBytes := new uint8[HeaderSize];
      for i := 0 to HeaderSize
        modifies lengthBytes
        invariant forall k | 0 <= k < i :: lengthBytes[k] as int == ByteAt(bs, 8 * k)
      {
        lengthBytes[i] := GatherByte(bs, 8 * i);
      }
      PackedHeader(bs, lengthBytes[..]);
      var length := ReadBE32(lengthBytes[..]);
      var maxBytes := (|bs| - HeaderBits) / BitsPerByte;
      if length > maxBytes {
        return Some(ExceedsAvailable(length, maxBytes));
      }
      if length < MinPayload {
        return Some(TooSmall(length));
      }
      var payload := new uint8[length];
      for i := 0 to length
        modifies payload
        invariant forall k | 0 <= k < i :: payload[k] as int == ByteAt(bs, HeaderBits + 8 * k)
      {
        payload[i] := GatherByte(bs, HeaderBits + 8 * i);
      }
      PackedBody(bs, length, payload[..]);
      SecurePayloadAccepts(bs, length, payload[..]);
      securePayload := payload[..];
      return None;
    }
  }

  /** Four bytes read from the first 32 bits are their packing. */
  lemma PackedHeader(bits: seq<bool>, header: bytes)
    requires |bits| >= HeaderBits && |header| == HeaderSize
    requires forall k | 0 <= k < HeaderSize :: header[k] as int == ByteAt(bits, 8 * k)
    ensures PackBits(bits[..HeaderBits]) == header
  {
    var h := bits[..HeaderBits];
    forall k | 0 <= k < HeaderSize ensures PackBits(h)[k] == header[k] {
      PackBitsAt(h, k);
      assert h[8 * k..8 * k + 8] == bits[8 * k..8 * k + 8];
    }
  }

  /** `length` bytes read after the header are the packing of their bits. */
  lemma PackedBody(bits: seq<bool>, length: nat, body: bytes)
    requires HeaderBits + 8 * length <= |bits| && |body| == length
    requires forall k | 0 <= k < length :: body[k] as int == ByteAt(bits, HeaderBits + 8 * k)
    ensures PackBits(bits[HeaderBits..HeaderBits + 8 * length]) == body
  {
    var s := bits[HeaderBits..HeaderBits + 8 * length];
    assert |s| == 8 * length;
    var p := PackBits(s);
    forall k | 0 <= k < length ensures p[k] == body[k] {
      PackBitsOfWindow(bits, HeaderBits, length, k);
      assert p[k] as int == body[k] as int;
    }
    assert p == body;
  }

  /** A header length within bounds and the bytes after it make the
      accepted payload. */
  lemma SecurePayloadAccepts(bits: seq<bool>, length: nat, body: bytes)
    requires |bits| >= HeaderBits && PayloadLength(bits) == length
    requires MinPayload <= length <= (|bits| - HeaderBits) / BitsPerByte
    requires PackBits(bits[HeaderBits..HeaderBits + 8 * length]) == body
    ensures SecurePayload(bits) == Ok(body)
  {
  }

  // ---------------------------------------------------------------------
  // Encoder.

  /** EmbedBit: the channel with its lowest bit set (`v | 1`) or cleared
      (`v & 0xFE`). */
  function EmbedBit(v: uint8, bit: bool): (r: uint8)
    ensures Lsb(r) == bit
    ensures r / 2 == v / 2
  {
    EmbedBitHalves(v, bit);
    if bit then BitOr(v, 1) else BitAnd(v, 0xFE)
  }

  lemma EmbedBitHalves(v: uint8, bit: bool)
    ensures bit ==> BitOr(v, 1) == 2 * (v / 2) + 1
    ensures !bit ==> BitAnd(v, 0xFE) == 2 * (v / 2)
  {
    if bit {
      BitOrZero(v / 2);
    } else if v > 0 {
      BitAndLowMask(v / 2, 7);
    }
  }

  /** Embedding the bit a channel already holds leaves it unchanged. */
  lemma EmbedOwnBit(v: uint8)
    ensures EmbedBit(v, Lsb(v)) == v
  {
    var r := EmbedBit(v, Lsb(v));
    assert r == 2 * (r / 2) + r % 2;
  }

  /** Channel value v with stream bit i written into it, when the stream
      still has that bit. */
  function Put(v: uint8, bits: seq<bool>, i: nat): uint8
  {
    if i < |bits| then EmbedBit(v, bits[i]) else v
  }

  /** A base colour carrying stream bits k, k + 1 and k + 2. */
  function EmbedPixel(p: Pixel, bits: seq<bool>, k: nat): Pixel
  {
    Pixel(Put(p.r, bits, k), Put(p.g, bits, k + 1), Put(p.b, bits, k + 2))
  }

  /** A row of base colours carrying the stream from bit `off` on. */
  function EmbedRow(row: seq<Pixel>, bits: seq<bool>, off: nat): (r: seq<Pixel>)
    ensures |r| == |row|
  {
    seq(|row|, x requires 0 <= x < |row| => EmbedPixel(row[x], bits, off + Channels * x))
  }

  /** The image the embedding loop produces from the base colours. */
  function EmbedGrid(noise: seq<seq<Pixel>>, bits: seq<bool>, width: nat): (r: seq<seq<Pixel>>)
    ensures |r| == |noise|
  {
    seq(|noise|, y requires 0 <= y < |noise| => EmbedRow(noise[y], bits, Channels * width * y))
  }

  /** Pixel (y, x) of the embedded grid carries the stream from bit
      3 (width y + x) on. */
  lemma EmbedGridAt(noise: seq<seq<Pixel>>, bits: seq<bool>, width: nat, y: nat, x: nat)
    requires IsGrid(noise, width) && y < |noise| && x < width
    ensures EmbedGrid(noise, bits, width)[y][x] == EmbedPixel(noise[y][x], bits, Channels * width * y + Channels * x)
  {
  }

  function Min(a: int, b: int): int
  {
    if a < b then a else b
  }

  /** The rows the encoder needs for a payload of `n` bytes at `width`
      pixels a row: ceil(ceil(8 n / 3) / width). */
  function Height(n: nat, width: nat): nat
    requires width > 0
  {
    var pixels := (BitsPerByte * n + Channels - 1) / Channels;
    (pixels + width - 1) / width
  }

  /** The image computed for a payload holds all of its bits. */
  lemma HeightFits(n: nat, width: nat)
    requires width > 0
    ensures BitsPerByte * n <= Channels * width * Height(n, width)
  {
    var pixels := (BitsPerByte * n + Channels - 1) / Channels;
    var h := Height(n, width);
    assert BitsPerByte * n <= Channels * pixels;
    assert pixels <= width * h;
    assert Channels * (width * h) == Channels * width * h;
  }

  /** The bit expansion of CreateStegoImage: bit 8 i + j is bit 7 - j of
      byte i. */
  method ExpandBits(payload: bytes) returns (bits: array<bool>)
    ensures fresh(bits) && bits[..] == BytesToBits(payload)
  {
    bits := new bool[BitsPerByte * |payload|];
    ghost var all := BytesToBits(payload);
    for i := 0 to |payload|
      invariant forall k | 0 <= k < BitsPerByte * i :: bits[k] == all[k]
    {
      for j := 0 to 8
        invariant forall k | 0 <= k < BitsPerByte * i + j :: bits[k] == all[k]
      {
        BytesToBitsAt(payload, i, j);
        bits[i * 8 + j] := TestBit(payload[i], 7 - j);
      }
    }
  }

  /** One pixel of the embedding loop: the red, green and blue lowest bits
      set, in that order, from the stream bits at `bitIndex` while any
      remain. */
  method EmbedPixelBits(base: Pixel, bits: seq<bool>, bitIndex: nat, ghost k: nat)
    returns (pixel: Pixel, next: nat)
    requires bitIndex == Min(k, |bits|)
    ensures pixel == EmbedPixel(base, bits, k)
    ensures next == Min(k + Channels, |bits|)
  {
    var r, g, b := base.r, base.g, base.b;
    next := bitIndex;
    if next < |bits| {
      r := EmbedBit(r, bits[next]);
      next := next + 1;
    }
    if next < |bits| {
      g := EmbedBit(g, bits[next]);
      next := next + 1;
    }
    if next < |bits| {
      b := EmbedBit(b, bits[next]);
      next := next + 1;
    }
    pixel := Pixel(r, g, b);
  }

  /** The embedding loop of CreateStegoImage: pixels in row-major order,
      each base colour from `noise`, its red, green and blue lowest bits set
      from the next unused stream bits while any remain. */
  method EmbedBits(bits: seq<bool>, width: nat, height: nat, noise: seq<seq<Pixel>>)
    returns (img: array2<Pixel>, bitIndex: nat)
    requires |noise| == height && IsGrid(noise, width)
    ensures fresh(img) && img.Length0 == height && img.Length1 == width
    ensures bitIndex == Min(Channels * width * height, |bits|)
    ensures forall y, x | 0 <= y < height && 0 <= x < width :: img[y, x] == EmbedGrid(noise, bits, width)[y][x]
  {
    img := new Pixel[height, width]((y, x) => Pixel(0, 0, 0));
    bitIndex := 0;
    for y := 0 to height
      invariant bitIndex == Min(Channels * width * y, |bits|)
      invariant forall y', x' | 0 <= y' < y && 0 <= x' < width :: img[y', x'] == EmbedGrid(noise, bits, width)[y'][x']
    {
      for x := 0 to width
        invariant bitIndex == Min(Channels * width * y + Channels * x, |bits|)
        invariant forall y', x' | 0 <= y' < y && 0 <= x' < width :: img[y', x'] == EmbedGrid(noise, bits, width)[y'][x']
        invariant forall x' | 0 <= x' < x :: img[y, x'] == EmbedGrid(noise, bits, width)[y][x']
      {
        var pixel;
        pixel, bitIndex := EmbedPixelBits(noise[y][x], bits, bitIndex, Channels * width * y + Channels * x);
        EmbedGridAt(noise, bits, width, y, x);
        img[y, x] := pixel;
      }
      assert Channels * width * (y + 1) == Channels * width * y + Channels * width;
    }
  }

  /** The secure payload's encoder: the payload ready for embedding and the
      image size computed for it. */
  class SecureStegoEncoder {
    var width: nat
    var height: nat
    var securePayload: bytes

    constructor (securePayload: bytes, width: nat)
      ensures this.securePayload == securePayload && this.width == width && height == 0
    {
      this.securePayload := securePayload;
      this.width := width;
      height := 0;
    }

    /** CreateStegoImage from the point the payload is ready: size the
        image, expand the payload into bits and embed them into the base
        colours. */
    method CreateStegoImage(noise: seq<seq<Pixel>>) returns (img: array2<Pixel>)
      requires width > 0
      requires |noise| == Height(|securePayload|, width) && IsGrid(noise, width)
      modifies this
      ensures width == old(width) && securePayload == old(securePayload)
      ensures height == Height(|securePayload|, width)
      ensures fresh(img) && img.Length0 == height && img.Length1 == width
      ensures forall y, x | 0 <= y < height && 0 <= x < width ::
                img[y, x] == EmbedGrid(noise, BytesToBits(securePayload), width)[y][x]
    {
      height := Height(|securePayload|, width);
      var bits := ExpandBits(securePayload);
      var bitIndex;
      img, bitIndex := EmbedBits(bits[..], width, height, noise);
    }
  }

  // ---------------------------------------------------------------------
  // Round trip.

  /** `s` agrees with the stream from bit `off` on, as far as both go. */
  predicate Agrees(s: seq<bool>, bits: seq<bool>, off: nat)
  {
    forall i | 0 <= i < |s| && off + i < |bits| :: s[i] == bits[off + i]
  }

  lemma {:induction false} RowAgrees(row: seq<Pixel>, bits: seq<bool>, off: nat)
    ensures Agrees(RowBits(EmbedRow(row, bits, off)), bits, off)
  {
    if |row| > 0 {
      var n := |row| - 1;
      var e := EmbedRow(row, bits, off);
      assert e[..n] == EmbedRow(row[..n], bits, off);
      RowAgrees(row[..n], bits, off);
      var p := PixelBits(e[n]);
      forall c | 0 <= c < Channels && off + Channels * n + c < |bits|
        ensures p[c] == bits[off + Channels * n + c]
      {
      }
    }
  }

  lemma {:induction false} GridAgrees(noise: seq<seq<Pixel>>, bits: seq<bool>, width: nat)
    requires IsGrid(noise, width)
    ensures Agrees(GridBits(EmbedGrid(noise, bits, width)), bits, 0)
  {
    if |noise| > 0 {
      var n := |noise| - 1;
      var e := EmbedGrid(noise, bits, width);
      assert e[..n] == EmbedGrid(noise[..n], bits, width);
      GridAgrees(noise[..n], bits, width);
      GridBitsLength(e[..n], width);
      RowAgrees(noise[n], bits, Channels * width * n);
    }
  }

  /** The decoder's stream of an embedded image starts with the embedded
      bits, when the image holds them all. */
  lemma EmbedThenExtract(noise: seq<seq<Pixel>>, bits: seq<bool>, width: nat)
    requires IsGrid(noise, width) && |bits| <= Channels * width * |noise|
    ensures |bits| <= |GridBits(EmbedGrid(noise, bits, width))|
    ensures GridBits(EmbedGrid(noise, bits, width))[..|bits|] == bits
  {
    var e := EmbedGrid(noise, bits, width);
    GridBitsLength(e, width);
    GridAgrees(noise, bits, width);
  }

  lemma {:induction false} BytesToBitsAppend(a: bytes, b: bytes)
    ensures BytesToBits(a + b) == BytesToBits(a) + BytesToBits(b)
  {
    if |b| > 0 {
      var n := |b| - 1;
      assert (a + b)[..|a + b| - 1] == a + b[..n];
      BytesToBitsAppend(a, b[..n]);
    } else {
      assert a + b == a;
    }
  }

  /** A stream starting with a length header reads that length back. */
  lemma StreamHeader(stream: seq<bool>, n: uint32, body: bytes)
    requires |BytesToBits(BE32(n) + body)| <= |stream|
    requires stream[..|BytesToBits(BE32(n) + body)|] == BytesToBits(BE32(n) + body)
    ensures |stream| >= HeaderBits && PayloadLength(stream) == n
  {
    var bits := BytesToBits(BE32(n) + body);
    BytesToBitsAppend(BE32(n), body);
    assert stream[..HeaderBits] == bits[..HeaderBits];
    PackBitsOfBytesToBits(BE32(n));
    ReadBE32OfBE32(n, []);
    assert BE32(n) + [] == BE32(n);
  }

  /** The bytes after the header of such a stream are the body. */
  lemma StreamBody(stream: seq<bool>, n: uint32, body: bytes)
    requires |body| == n
    requires |BytesToBits(BE32(n) + body)| <= |stream|
    requires stream[..|BytesToBits(BE32(n) + body)|] == BytesToBits(BE32(n) + body)
    ensures HeaderBits + BitsPerByte * n <= |stream|
    ensures PackBits(stream[HeaderBits..HeaderBits + BitsPerByte * n]) == body
  {
    var bits := BytesToBits(BE32(n) + body);
    BytesToBitsAppend(BE32(n), body);
    assert stream[HeaderBits..HeaderBits + BitsPerByte * n] == bits[HeaderBits..];
    PackBitsOfBytesToBits(body);
  }

  /** A stream that starts with a big-endian length and that many bytes
      decodes to those bytes, when the length is one the decoder accepts. */
  lemma StreamDecodes(stream: seq<bool>, body: bytes)
    requires MinPayload <= |body| < 0x1_0000_0000
    requires |BytesToBits(BE32(|body|) + body)| <= |stream|
    requires stream[..|BytesToBits(BE32(|body|) + body)|] == BytesToBits(BE32(|body|) + body)
    ensures SecurePayload(stream) == Ok(body)
  {
    var n := |body|;
    StreamHeader(stream, n, body);
    StreamBody(stream, n, body);
    SecurePayloadAccepts(stream, n, body);
  }

  /** The image computed for a payload laid out as its header, the body and
      the padding holds all its bits. */
  lemma PayloadFits(body: bytes, pad: bytes, width: nat, height: nat)
    requires |body| < 0x1_0000_0000 && width > 0
    requires height == Height(HeaderSize + |body| + |pad|, width)
    ensures |BytesToBits(BE32(|body|) + body + pad)| <= Channels * width * height
  {
    HeightFits(HeaderSize + |body| + |pad|, width);
  }

  /** A payload laid out as PrepareSecurePayload lays it out (its big-endian
      length, the body, then the random padding), embedded into an image
      sized for all of it, is decoded back to the body: the padding is never
      read. */
  lemma PayloadRoundTrip(body: bytes, pad: bytes, width: nat, noise: seq<seq<Pixel>>)
    requires MinPayload <= |body| < 0x1_0000_0000 && width > 0
    requires |noise| == Height(HeaderSize + |body| + |pad|, width) && IsGrid(noise, width)
    ensures SecurePayload(GridBits(EmbedGrid(noise, BytesToBits(BE32(|body|) + body + pad), width))) == Ok(body)
  {
    var head := BytesToBits(BE32(|body|) + body);
    var bits := BytesToBits(BE32(|body|) + body + pad);
    BytesToBitsAppend(BE32(|body|) + body, pad);
    PayloadFits(body, pad, width, |noise|);
    EmbedThenExtract(noise, bits, width);
    var stream := GridBits(EmbedGrid(noise, bits, width));
    assert stream[..|head|] == bits[..|head|] == head;
    StreamDecodes(stream, body);
  }
}
