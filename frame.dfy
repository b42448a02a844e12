/** The chunk wire format: a 28-byte big-endian header (magic, message id,
    sequence, total, checksum) followed by the payload, rendered as hex or as
    unpadded base32 text. */
module Frame {
  import opened Bytes
  import opened Hex
  import opened Base32
  import opened Text

  const SafeChunkSize: nat := 250
  const MetadataOverhead: nat := 28
  /** (250 - 28) / 2 raw bytes, so that the hex text fits. */
  const PayloadPerChunkHex: nat := (SafeChunkSize - MetadataOverhead) / 2
  /** floor((250 - 28) / 1.6), computed in floating point by the program. */
  const PayloadPerChunkBase32: nat := 138
  /** "DNSC" */
  const ChunkMagic: uint32 := 0x444E5343
  const EncodeHex: string := "hex"
  const EncodeBase32: string := "base32"

  /** A 128-bit message identifier. */
  type MessageId = s: bytes | |s| == 16 witness [0, 0, 0, 0, 0, 0, 0, 0, 0, 0, 0, 0, 0, 0, 0, 0]

  datatype ChunkMetadata = ChunkMetadata(
    magic: uint32,
    messageId: MessageId,
    sequence: uint16,
    totalChunks: uint16,
    checksum: uint32,
    timestamp: int,
    payloadSize: uint16)

  /** A fragment: its header fields, the raw payload, the text that carries it
      and a suggested record name. */
  datatype Chunk = Chunk(metadata: ChunkMetadata, payload: bytes, encoded: string, recordName: string)

  datatype ChunkerConfig = ChunkerConfig(
    encoding: string,
    maxChunkSize: int,
    addRedundancy: bool,
    compression: bool,
    dnsNamePrefix: string)

  /** Raw payload bytes per chunk for an encoding; anything other than
      "base32" gets the hex size. */
  function PayloadSize(encoding: string): (p: nat)
    ensures p == PayloadPerChunkHex || p == PayloadPerChunkBase32
    ensures p == PayloadPerChunkBase32 <==> encoding == EncodeBase32
  {
    if encoding == EncodeHex then PayloadPerChunkHex
    else if encoding == EncodeBase32 then PayloadPerChunkBase32
    else PayloadPerChunkHex
  }

  /** Ceiling division: the number of chunks of `p` bytes for `n` bytes. */
  function TotalChunks(n: nat, p: nat): (total: nat)
    requires p > 0
  {
    (n + p - 1) / p
  }

  /** The chunk count is the fewest chunks of `p` bytes that hold `n` bytes. */
  lemma TotalChunksBounds(n: nat, p: nat)
    requires p > 0
    ensures TotalChunks(n, p) * p >= n
    ensures TotalChunks(n, p) == 0 || (TotalChunks(n, p) - 1) * p < n
    ensures TotalChunks(n, p) == 0 <==> n == 0
  {
    var q := (n + p - 1) / p;
    var m := (n + p - 1) % p;
    assert n + p - 1 == q * p + m;
    assert (q - 1) * p == q * p - p;
  }

  // ---------------------------------------------------------------------
  // Checksum: a byte sum modulo 2^32, rotated left by one bit after each
  // byte.

  /** (x << 1) | (x >> 31) on 32 bits; the two parts share no bit, so the
      "or" is a sum. */
  function RotateLeft1(x: uint32): uint32
  {
    (x * 2) % 0x1_0000_0000 + x / 0x8000_0000
  }

  function RotateRight1(x: uint32): uint32
  {
    x / 2 + (x % 2) * 0x8000_0000
  }

  lemma RotateRight1OfRotateLeft1(x: uint32)
    ensures RotateRight1(RotateLeft1(x)) == x
  {
    var h, l := x / 0x8000_0000, x % 0x8000_0000;
    assert x == h * 0x8000_0000 + l;
    assert (x * 2) % 0x1_0000_0000 == 2 * l;
  }

  function ChecksumStep(sum: uint32, b: uint8): uint32
  {
    RotateLeft1((sum + b) % 0x1_0000_0000)
  }

  /** The checksum loop started from `start`. */
  function ChecksumFrom(start: uint32, p: bytes): uint32
  {
    if |p| == 0 then start else ChecksumStep(ChecksumFrom(start, p[..|p| - 1]), p[|p| - 1])
  }

  function Checksum(p: bytes): uint32
  {
    ChecksumFrom(0, p)
  }

  method CalculateChecksum(data: bytes) returns (sum: uint32)
    ensures sum == Checksum(data)
  {
    sum := 0;
    for i := 0 to |data|
      invariant sum == Checksum(data[..i])
    {
      sum := (sum + data[i]) % 0x1_0000_0000;
      sum := RotateLeft1(sum);
      assert data[..i + 1][..i] == data[..i];
    }
    assert data[..|data|] == data;
  }

  /** Adding a byte modulo 2^32 is injective in the sum and in the byte. */
  lemma AddModInjective(s1: uint32, b1: uint8, s2: uint32, b2: uint8)
    requires (s1 + b1) % 0x1_0000_0000 == (s2 + b2) % 0x1_0000_0000
    ensures s1 == s2 <==> b1 == b2
  {
    var x1 := if s1 + b1 < 0x1_0000_0000 then s1 + b1 else s1 + b1 - 0x1_0000_0000;
    var x2 := if s2 + b2 < 0x1_0000_0000 then s2 + b2 else s2 + b2 - 0x1_0000_0000;
    assert x1 == (s1 + b1) % 0x1_0000_0000;
    assert x2 == (s2 + b2) % 0x1_0000_0000;
  }

  /** One step is injective in the running sum and in the byte. */
  lemma ChecksumStepInjective(s1: uint32, b1: uint8, s2: uint32, b2: uint8)
    requires ChecksumStep(s1, b1) == ChecksumStep(s2, b2)
    ensures s1 == s2 <==> b1 == b2
  {
    var u1: uint32 := (s1 + b1) % 0x1_0000_0000;
    var u2: uint32 := (s2 + b2) % 0x1_0000_0000;
    RotateRight1OfRotateLeft1(u1);
    RotateRight1OfRotateLeft1(u2);
    assert u1 == u2;
    AddModInjective(s1, b1, s2, b2);
  }

  lemma {:induction false} ChecksumFromAppend(start: uint32, a: bytes, b: bytes)
    ensures ChecksumFrom(start, a + b) == ChecksumFrom(ChecksumFrom(start, a), b)
  {
    if |b| > 0 {
      assert (a + b)[..|a + b| - 1] == a + b[..|b| - 1];
      ChecksumFromAppend(start, a, b[..|b| - 1]);
    } else {
      assert a + b == a;
    }
  }

  /** The bytes that follow cannot make two different running sums meet. */
  lemma {:induction false} ChecksumFromInjective(s1: uint32, s2: uint32, p: bytes)
    requires ChecksumFrom(s1, p) == ChecksumFrom(s2, p)
    ensures s1 == s2
  {
    if |p| > 0 {
      ChecksumStepInjective(ChecksumFrom(s1, p[..|p| - 1]), p[|p| - 1], ChecksumFrom(s2, p[..|p| - 1]), p[|p| - 1]);
      ChecksumFromInjective(s1, s2, p[..|p| - 1]);
    }
  }

  /** Changing any single byte of a payload changes its checksum. */
  lemma ChecksumDetectsByteChange(p: bytes, i: nat, b: uint8)
    requires i < |p| && p[i] != b
    ensures Checksum(p[i := b]) != Checksum(p)
  {
    var q := p[i := b];
    var a, c := p[..i], p[i + 1..];
    assert p == (a + [p[i]]) + c;
    assert q == (a + [b]) + c;
    ChecksumFromAppend(0, a + [p[i]], c);
    ChecksumFromAppend(0, a + [b], c);
    assert (a + [p[i]])[..i] == a && (a + [b])[..i] == a;
    if Checksum(q) == Checksum(p) {
      ChecksumFromInjective(ChecksumFrom(0, a + [p[i]]), ChecksumFrom(0, a + [b]), c);
      ChecksumStepInjective(ChecksumFrom(0, a), p[i], ChecksumFrom(0, a), b);
    }
  }

  // ---------------------------------------------------------------------
  // Frame layout and text encoding.

  /** [MAGIC(4)][MSGID(16)][SEQ(2)][TOTAL(2)][CHECKSUM(4)], big-endian. */
  function Header(m: ChunkMetadata): (h: bytes)
    ensures |h| == MetadataOverhead
  {
    BE32(m.magic) + m.messageId + BE16(m.sequence) + BE16(m.totalChunks) + BE32(m.checksum)
  }

  function RawFrame(m: ChunkMetadata, payload: bytes): (raw: bytes)
    ensures |raw| == MetadataOverhead + |payload|
  {
    Header(m) + payload
  }

  /** The text for raw frame bytes: base32 when so configured, otherwise hex. */
  function EncodeText(encoding: string, raw: bytes): string
  {
    if encoding == EncodeBase32 then Base32Encode(raw) else HexEncode(raw)
  }

  /** Hex or base32 as configured; any other setting tries hex, then base32. */
  function DecodeText(encoding: string, s: string): Option<bytes>
  {
    if encoding == EncodeHex then HexDecode(s)
    else if encoding == EncodeBase32 then Base32Decode(s)
    else if HexDecode(s).Some? then HexDecode(s)
    else Base32Decode(s)
  }

  lemma DecodeTextOfEncodeText(encoding: string, raw: bytes)
    ensures DecodeText(encoding, EncodeText(encoding, raw)) == Some(raw)
  {
    HexDecodeOfHexEncode(raw);
    Base32DecodeOfBase32Encode(raw);
  }

  /** encodeChunk: the header is built by appending each field, then the
      payload, and the result is rendered as text. */
  method EncodeChunk(config: ChunkerConfig, m: ChunkMetadata, payload: bytes) returns (s: string)
    ensures s == EncodeText(config.encoding, RawFrame(m, payload))
  {
    var metaBytes: bytes := [];
    metaBytes := metaBytes + BE32(m.magic);
    metaBytes := metaBytes + m.messageId;
    metaBytes := metaBytes + BE16(m.sequence);
    metaBytes := metaBytes + BE16(m.totalChunks);
    metaBytes := metaBytes + BE32(m.checksum);
    assert metaBytes == Header(m);
    var fullChunk := metaBytes + payload;
    if config.encoding == EncodeHex {
      s := HexEncode(fullChunk);
    } else if config.encoding == EncodeBase32 {
      s := Base32Encode(fullChunk);
    } else {
      s := HexEncode(fullChunk);
    }
  }

  datatype DecodeError = DecodeFailed | ChunkTooSmall(size: nat) | InvalidMagic(magic: uint32)

  /** DecodeChunk: the header fields are read back from the raw bytes; the
      timestamp is not carried on the wire and stays zero, PayloadSize is the
      payload length cut to 16 bits, and no record name is set. */
  function DecodeChunk(config: ChunkerConfig, encoded: string): (r: Result<Chunk, DecodeError>)
    ensures r.Ok? ==> r.value.metadata.magic == ChunkMagic && r.value.encoded == encoded
    ensures r.Ok? ==> r.value.metadata.payloadSize == |r.value.payload| % 0x1_0000
  {
    match DecodeText(config.encoding, encoded)
    case None => Err(DecodeFailed)
    case Some(raw) =>
      if |raw| < MetadataOverhead then Err(ChunkTooSmall(|raw|))
      else if ReadBE32(raw) != ChunkMagic then Err(InvalidMagic(ReadBE32(raw)))
      else
        var payload := raw[MetadataOverhead..];
        var m := ChunkMetadata(
          ReadBE32(raw),
          raw[4..20],
          ReadBE16(raw[20..]),
          ReadBE16(raw[22..]),
          ReadBE32(raw[24..]),
          0,
          |payload| % 0x1_0000);
        Ok(Chunk(m, payload, encoded, ""))
  }

  /** Decoding rejects a text that does not decode, fewer than 28 raw bytes,
      and a wrong magic number, in that order. */
  lemma DecodeChunkErrors(config: ChunkerConfig, encoded: string)
    ensures DecodeText(config.encoding, encoded).None? ==> DecodeChunk(config, encoded) == Err(DecodeFailed)
    ensures DecodeText(config.encoding, encoded).Some? ==>
      var raw := DecodeText(config.encoding, encoded).value;
      (|raw| < MetadataOverhead ==> DecodeChunk(config, encoded) == Err(ChunkTooSmall(|raw|))) &&
      (|raw| >= MetadataOverhead && ReadBE32(raw) != ChunkMagic ==>
        DecodeChunk(config, encoded).Err? && DecodeChunk(config, encoded).error.InvalidMagic?)
  {
  }

  /** A decoded chunk lays out again as exactly the raw bytes it came from. */
  lemma DecodeChunkReframes(config: ChunkerConfig, encoded: string)
    requires DecodeChunk(config, encoded).Ok?
    ensures var c := DecodeChunk(config, encoded).value;
            RawFrame(c.metadata, c.payload) == DecodeText(config.encoding, encoded).value
  {
    var raw := DecodeText(config.encoding, encoded).value;
    var c := DecodeChunk(config, encoded).value;
    BE32OfReadBE32(raw[..4]);
    BE32OfReadBE32(raw[24..28]);
    assert ReadBE32(raw[..4]) == ReadBE32(raw);
    assert ReadBE32(raw[24..28]) == ReadBE32(raw[24..]);
    BE16OfReadBE16(raw[20..22]);
    BE16OfReadBE16(raw[22..24]);
    assert ReadBE16(raw[20..22]) == ReadBE16(raw[20..]);
    assert ReadBE16(raw[22..24]) == ReadBE16(raw[22..]);
    assert raw == raw[..4] + raw[4..20] + raw[20..22] + raw[22..24] + raw[24..28] + raw[28..];
  }

  /** Decoding the text of a frame gives back every header field but the
      timestamp, and the payload. */
  lemma DecodeChunkOfEncodeText(config: ChunkerConfig, m: ChunkMetadata, payload: bytes)
    requires m.magic == ChunkMagic
    ensures var encoded := EncodeText(config.encoding, RawFrame(m, payload));
            DecodeChunk(config, encoded) ==
              Ok(Chunk(m.(timestamp := 0, payloadSize := |payload| % 0x1_0000), payload, encoded, ""))
  {
    var raw := RawFrame(m, payload);
    DecodeTextOfEncodeText(config.encoding, raw);
    RawFrameFields(m, payload);
  }

  /** A chunk whose text is its own frame decodes to itself, but for the
      timestamp and the record name. */
  lemma DecodeChunkOfFrame(config: ChunkerConfig, c: Chunk)
    requires c.metadata.magic == ChunkMagic && c.metadata.payloadSize as int == |c.payload|
    requires c.encoded == EncodeText(config.encoding, RawFrame(c.metadata, c.payload))
    ensures DecodeChunk(config, c.encoded) == Ok(Chunk(c.metadata.(timestamp := 0), c.payload, c.encoded, ""))
  {
    var m := c.metadata;
    assert m.(timestamp := 0, payloadSize := |c.payload| % 0x1_0000) == m.(timestamp := 0) by {
      assert |c.payload| < 0x1_0000;
    }
    DecodeChunkOfEncodeText(config, m, c.payload);
  }

  /** Every header field reads back from its place in the frame. */
  lemma RawFrameFields(m: ChunkMetadata, payload: bytes)
    ensures var raw := RawFrame(m, payload);
            ReadBE32(raw) == m.magic && raw[4..20] == m.messageId &&
            ReadBE16(raw[20..]) == m.sequence && ReadBE16(raw[22..]) == m.totalChunks &&
            ReadBE32(raw[24..]) == m.checksum && raw[MetadataOverhead..] == payload
  {
    var raw := RawFrame(m, payload);
    assert raw == BE32(m.magic) + raw[4..];
    ReadBE32OfBE32(m.magic, raw[4..]);
    assert raw[4..20] == m.messageId;
    assert raw[20..] == BE16(m.sequence) + raw[22..];
    ReadBE16OfBE16(m.sequence, raw[22..]);
    assert raw[22..] == BE16(m.totalChunks) + raw[24..];
    ReadBE16OfBE16(m.totalChunks, raw[24..]);
    assert raw[24..] == BE32(m.checksum) + payload;
    ReadBE32OfBE32(m.checksum, payload);
  }

  // ---------------------------------------------------------------------
  // Validation and naming.

  datatype ValidationError =
    | InvalidMagicNumber(magic: uint32)
    | ChecksumMismatch(expected: uint32, got: uint32)
    | SequenceOutOfBounds(sequence: uint16, total: uint16)
    | EmptyPayload
    | PayloadTooLarge(size: nat, max: nat)

  /** ValidateChunk: the checks run in this order and the first failure is
      reported; None means the chunk is valid. */
  function ValidateChunk(config: ChunkerConfig, chunk: Chunk): (r: Option<ValidationError>)
    ensures r.None? <==>
      chunk.metadata.magic == ChunkMagic &&
      Checksum(chunk.payload) == chunk.metadata.checksum &&
      chunk.metadata.sequence < chunk.metadata.totalChunks &&
      0 < |chunk.payload| <= PayloadSize(config.encoding)
    ensures chunk.metadata.magic != ChunkMagic ==> r == Some(InvalidMagicNumber(chunk.metadata.magic))
    ensures chunk.metadata.magic == ChunkMagic && Checksum(chunk.payload) != chunk.metadata.checksum ==>
      r == Some(ChecksumMismatch(chunk.metadata.checksum, Checksum(chunk.payload)))
  {
    var m := chunk.metadata;
    if m.magic != ChunkMagic then Some(InvalidMagicNumber(m.magic))
    else if Checksum(chunk.payload) != m.checksum then Some(ChecksumMismatch(m.checksum, Checksum(chunk.payload)))
    else if m.sequence >= m.totalChunks then Some(SequenceOutOfBounds(m.sequence, m.totalChunks))
    else if |chunk.payload| == 0 then Some(EmptyPayload)
    else if |chunk.payload| > PayloadSize(config.encoding) then Some(PayloadTooLarge(|chunk.payload|, PayloadSize(config.encoding)))
    else None
  }

  /** generateRecordName: "chunk-%03d-%s" of the sequence and the hex of the
      first four id bytes, followed by "." and the prefix when one is set. */
  function GenerateRecordName(config: ChunkerConfig, m: ChunkMetadata): string
  {
    var name := "chunk-" + ZeroPad(NatToDecimal(m.sequence), 3) + "-" + HexEncode(m.messageId[..4]);
    if config.dnsNamePrefix != "" then name + "." + config.dnsNamePrefix else name
  }

  /** The sequence number is the second '-'-separated field of the name, so
      two chunks with different sequence numbers get different names. */
  lemma RecordNameSequence(config: ChunkerConfig, m: ChunkMetadata)
    ensures var f := Split(GenerateRecordName(config, m), '-');
            |f| >= 2 && AllDigits(f[1]) && DecimalValue(f[1]) == m.sequence
  {
    var digits := ZeroPad(NatToDecimal(m.sequence), 3);
    ZeroPadDecimal(m.sequence);
    var rest := HexEncode(m.messageId[..4]) + (if config.dnsNamePrefix != "" then "." + config.dnsNamePrefix else "");
    assert GenerateRecordName(config, m) == "chunk" + "-" + digits + "-" + rest;
    assert '-' !in "chunk";
    FieldAfterWord("chunk", digits, rest);
  }

  lemma RecordNamesDistinct(config: ChunkerConfig, m1: ChunkMetadata, m2: ChunkMetadata)
    requires m1.sequence != m2.sequence
    ensures GenerateRecordName(config, m1) != GenerateRecordName(config, m2)
  {
    RecordNameSequence(config, m1);
    RecordNameSequence(config, m2);
  }
}
