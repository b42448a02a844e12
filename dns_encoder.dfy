/** The DNS transport of a chunked message: a manifest TXT record and one TXT
    record per chunk under "<subdomain>.<domain>", and the parser that reads
    chunks and the manifest back from a list of records. */
module DnsEncoder {
  import opened Bytes
  import opened Hex
  import opened Base32
  import opened Text
  import opened Frame
  import opened TxtEscape
  import opened DnsNames
  import opened RecordScan
  import Chunking

  const RecordTTL: int := 300
  const RecordType: string := "TXT"

  datatype DNSEncoder = DNSEncoder(domain: string, subdomain: string, timePrefix: bool)

  /** NewDNSEncoder: records under "data.<domain>", with the time prefix. */
  function NewDNSEncoder(domain: string): DNSEncoder
  {
    DNSEncoder(domain, "data", true)
  }

  /** The manifest; the timestamp is in seconds since the epoch. */
  datatype DNSManifest = DNSManifest(
    messageId: string,
    totalChunks: int,
    timestamp: int,
    checksum: string,
    chunkIds: seq<string>,
    domain: string)

  datatype DNSRecord = DNSRecord(name: string, rtype: string, ttl: int, value: string)

  /** "%s.%s.%s" of a label, the subdomain and the domain. */
  function FullName(de: DNSEncoder, lab: string): string
  {
    lab + ("." + de.subdomain + "." + de.domain)
  }

  // ---------------------------------------------------------------------
  // Building records.

  /** createChunkRecord, given the clock reading `unix` (seconds) it takes
      the minutes from; its error result is always nil. */
  function ChunkRecord(de: DNSEncoder, chunk: Chunk, index: nat, msgId: string, unix: int): DNSRecord
    requires LabelFits(de.timePrefix, index, msgId, unix)
  {
    DNSRecord(FullName(de, ChunkLabel(de.timePrefix, index, msgId, unix)), RecordType, RecordTTL, Escape(chunk.encoded))
  }

  /** createManifestRecord: label "m-<id>", value "<total>:pending:<time>";
      the checksum is not known yet and is never written. */
  function ManifestRecord(de: DNSEncoder, manifest: DNSManifest): DNSRecord
  {
    DNSRecord(
      FullName(de, "m-" + manifest.messageId), RecordType, RecordTTL,
      IntToDecimal(manifest.totalChunks) + ":pending:" + IntToDecimal(manifest.timestamp))
  }

  /** calculateManifestChecksum's "%08x": exactly the eight lower-case hex
      digits of the four big-endian bytes. */
  function ManifestChecksum(data: bytes): (s: string)
    ensures |s| == 8 && forall c | c in s :: IsLowerHexDigit(c)
  {
    HexEncode(BE32(Checksum(data)))
  }

  /** The manifest checksum reads back to the frame checksum of the data. */
  lemma ManifestChecksumReadsBack(data: bytes)
    ensures HexDecode(ManifestChecksum(data)).Some?
    ensures ReadBE32(HexDecode(ManifestChecksum(data)).value) == Checksum(data)
  {
    HexDecodeOfHexEncode(BE32(Checksum(data)));
    ReadBE32OfBE32(Checksum(data), []);
    assert BE32(Checksum(data)) + [] == BE32(Checksum(data));
  }

  method CalculateManifestChecksum(data: bytes) returns (s: string)
    ensures s == ManifestChecksum(data)
  {
    var sum := CalculateChecksum(data);
    s := HexEncode(BE32(sum));
  }

  /** The manifest id: the sanitised hex of the first eight id bytes. */
  function MessageLabelId(msg: Chunking.Message): (id: string)
    ensures IsValidLabel(id)
  {
    SanitizeLabel(HexEncode(msg.id[..8]))
  }

  /** Sixteen hex digits are a valid label, so the sanitiser leaves them
      unchanged. */
  lemma MessageLabelIdIsHex(msg: Chunking.Message)
    ensures MessageLabelId(msg) == HexEncode(msg.id[..8])
  {
    var h := HexEncode(msg.id[..8]);
    assert |h| == 16;
    HexIsValidLabel(h);
    SanitizeLabelOfValidLabel(h);
  }

  /** The sanitiser as written gives the same id. */
  lemma SanitizeOfMessageHex(msg: Chunking.Message)
    ensures Sanitize(HexEncode(msg.id[..8])) == MessageLabelId(msg)
  {
    var h := HexEncode(msg.id[..8]);
    assert |h| == 16;
    HexIsValidLabel(h);
    SanitizeLabelOfValidLabel(h);
  }

  lemma HexIsValidLabel(h: string)
    requires |h| <= MaxLabelLength && forall c | c in h :: IsLowerHexDigit(c)
    ensures IsValidLabel(h)
  {
    assert forall i | 0 <= i < |h| :: IsAlphanumeric(h[i]) by {
      forall i | 0 <= i < |h| ensures IsAlphanumeric(h[i]) {
        assert h[i] in h;
      }
    }
  }

  /** The manifest before the chunk records are made. */
  function InitialManifest(de: DNSEncoder, msg: Chunking.Message): DNSManifest
  {
    DNSManifest(MessageLabelId(msg), |msg.chunks|, msg.createdAt, "", [], de.domain)
  }

  /** One clock reading per chunk, none making createChunkRecord slice out
      of range. */
  predicate ClockFits(de: DNSEncoder, msg: Chunking.Message, clock: seq<int>)
  {
    ClockFitsFor(de, MessageLabelId(msg), |msg.chunks|, clock)
  }

  /** `n` clock readings, each fitting the chunk label of its index and `id`. */
  predicate ClockFitsFor(de: DNSEncoder, id: string, n: nat, clock: seq<int>)
  {
    |clock| == n &&
    forall i | 0 <= i < |clock| :: LabelFits(de.timePrefix, i, id, clock[i])
  }

  /** The chunk records of a message, in chunk order. */
  function ChunkRecords(de: DNSEncoder, msg: Chunking.Message, clock: seq<int>): (rs: seq<DNSRecord>)
    requires ClockFits(de, msg, clock)
    ensures |rs| == |msg.chunks|
  {
    RecordsFor(de, msg.chunks, MessageLabelId(msg), clock)
  }

  function RecordsFor(de: DNSEncoder, chunks: seq<Chunk>, id: string, clock: seq<int>): (rs: seq<DNSRecord>)
    requires ClockFitsFor(de, id, |chunks|, clock)
    ensures |rs| == |chunks|
  {
    seq(|chunks|, i requires 0 <= i < |chunks| => ChunkRecord(de, chunks[i], i, id, clock[i]))
  }

  function Names(rs: seq<DNSRecord>): (names: seq<string>)
    ensures |names| == |rs| && forall i | 0 <= i < |rs| :: names[i] == rs[i].name
  {
    seq(|rs|, i requires 0 <= i < |rs| => rs[i].name)
  }

  /** EncodeToDNS: the manifest record first, then the chunk records in
      order; the manifest lists the chunk names and, at the end, the
      checksum of the whole message. */
  method EncodeToDNS(de: DNSEncoder, msg: Chunking.Message, clock: seq<int>)
    returns (manifest: DNSManifest, records: seq<DNSRecord>)
    requires ClockFits(de, msg, clock)
    ensures records == [ManifestRecord(de, InitialManifest(de, msg))] + ChunkRecords(de, msg, clock)
    ensures manifest == InitialManifest(de, msg).(
              checksum := ManifestChecksum(msg.data),
              chunkIds := Names(ChunkRecords(de, msg, clock)))
  {
    manifest := InitialManifest(de, msg);
    records := [ManifestRecord(de, manifest)];
    manifest, records := AddChunkRecords(de, msg.chunks, manifest.messageId, clock, manifest, records);
    assert [] + Names(ChunkRecords(de, msg, clock)) == Names(ChunkRecords(de, msg, clock));
    var sum := CalculateManifestChecksum(msg.data);
    manifest := manifest.(checksum := sum);
  }

  /** EncodeToDNS's loop over the chunks: each chunk record is appended to
      the records and its name to the manifest's chunk list. */
  method AddChunkRecords(de: DNSEncoder, chunks: seq<Chunk>, id: string, clock: seq<int>,
                         manifest0: DNSManifest, records0: seq<DNSRecord>)
    returns (manifest: DNSManifest, records: seq<DNSRecord>)
    requires ClockFitsFor(de, id, |chunks|, clock)
    ensures records == records0 + RecordsFor(de, chunks, id, clock)
    ensures manifest == manifest0.(chunkIds := manifest0.chunkIds + Names(RecordsFor(de, chunks, id, clock)))
  {
    ghost var expected := RecordsFor(de, chunks, id, clock);
    manifest, records := manifest0, records0;
    for i := 0 to |chunks|
      invariant records == records0 + expected[..i]
      invariant manifest == manifest0.(chunkIds := manifest0.chunkIds + Names(expected[..i]))
    {
      var record := ChunkRecord(de, chunks[i], i, id, clock[i]);
      assert record == expected[i];
      NamesSnoc(expected, i);
      records := records + [record];
      manifest := manifest.(chunkIds := manifest.chunkIds + [record.name]);
    }
    assert expected[..|chunks|] == expected;
  }

  lemma ChunkRecordsAt(de: DNSEncoder, msg: Chunking.Message, clock: seq<int>, i: nat)
    requires ClockFits(de, msg, clock) && i < |msg.chunks|
    ensures LabelFits(de.timePrefix, i, MessageLabelId(msg), clock[i])
    ensures ChunkRecords(de, msg, clock)[i] == ChunkRecord(de, msg.chunks[i], i, MessageLabelId(msg), clock[i])
  {
  }

  lemma NamesSnoc(rs: seq<DNSRecord>, i: nat)
    requires i < |rs|
    ensures rs[..i + 1] == rs[..i] + [rs[i]]
    ensures Names(rs[..i + 1]) == Names(rs[..i]) + [rs[i].name]
  {
    assert rs[..i + 1] == rs[..i] + [rs[i]];
  }

  // ---------------------------------------------------------------------
  // Reading records.

  /** fmt.Sscanf(s, "%d", &v) into a variable that holds `d` beforehand. */
  function ScanOr(s: string, d: int): int
  {
    match ScanInt(s)
    case Some(v) => v
    case None => d
  }

  /** parseManifestRecord: "<total>:<checksum>:<time>" with at least three
      fields; a number that does not scan reads as 0, and the id is the first
      label without its "m-". */
  function ParseManifestRecord(de: DNSEncoder, record: DNSRecord): Option<DNSManifest>
  {
    var parts := Split(record.value, ':');
    if |parts| < 3 then None
    else
      Some(DNSManifest(
        TrimPrefix(FirstLabel(record.name), "m-"),
        ScanOr(parts[0], 0),
        ScanOr(parts[2], 0),
        parts[1],
        [],
        de.domain))
  }

  lemma NoColonInDecimal(i: int)
    ensures ':' !in IntToDecimal(i)
  {
    var d := IntToDecimal(i);
    forall k | 0 <= k < |d| ensures d[k] != ':' {
      assert d[k] in d;
    }
  }

  /** The value "<total>:pending:<time>" splits into its three fields. */
  lemma ManifestValueFields(total: int, time: int)
    ensures Split(IntToDecimal(total) + ":pending:" + IntToDecimal(time), ':') ==
              [IntToDecimal(total), "pending", IntToDecimal(time)]
  {
    var t := IntToDecimal(total);
    var u := IntToDecimal(time);
    NoColonInDecimal(total);
    NoColonInDecimal(time);
    assert t + ":pending:" + u == t + [':'] + ("pending" + [':'] + u);
    SplitAt(t, ':', "pending" + [':'] + u);
    SplitAt("pending", ':', u);
    SplitNone(u, ':');
  }

  /** The first label of a manifest record is "m-" and the id. */
  lemma ManifestRecordLabel(de: DNSEncoder, manifest: DNSManifest)
    requires '.' !in manifest.messageId
    ensures FirstLabel(ManifestRecord(de, manifest).name) == "m-" + manifest.messageId
  {
    ConcatNoDot("m-", manifest.messageId);
    FirstLabelOf("m-" + manifest.messageId, "." + de.subdomain + "." + de.domain);
  }

  /** A manifest record reads back to its id, count and time; the checksum
      field always reads "pending" and the chunk list is empty. */
  lemma ParseManifestOfManifestRecord(de: DNSEncoder, manifest: DNSManifest)
    requires '.' !in manifest.messageId
    requires 0 <= manifest.totalChunks <= MaxInt64
    requires MinInt64 <= manifest.timestamp <= MaxInt64
    ensures ParseManifestRecord(de, ManifestRecord(de, manifest)) ==
              Some(DNSManifest(manifest.messageId, manifest.totalChunks, manifest.timestamp,
                               "pending", [], de.domain))
  {
    ManifestValueFields(manifest.totalChunks, manifest.timestamp);
    ScanIntOfIntToDecimal(manifest.totalChunks, []);
    ScanIntOfIntToDecimal(manifest.timestamp, []);
    assert IntToDecimal(manifest.totalChunks) + [] == IntToDecimal(manifest.totalChunks);
    assert IntToDecimal(manifest.timestamp) + [] == IntToDecimal(manifest.timestamp);
    ManifestRecordLabel(de, manifest);
    assert ("m-" + manifest.messageId)[2..] == manifest.messageId;
  }

  /** What NewChunker makes of an empty configuration: base32 and 250. */
  const ParserConfig: ChunkerConfig := ChunkerConfig(EncodeBase32, SafeChunkSize, false, false, "")

  /** parseChunkRecord: the value is unescaped and decoded as base32, whatever
      the name says; the sequence number it scans from the name (LabelSequence)
      is not used. */
  function ParseChunkRecord(record: DNSRecord): Result<Chunk, DecodeError>
  {
    DecodeChunk(ParserConfig, Unescape(record.value))
  }

  predicate AllPrintable(s: string)
  {
    forall i | 0 <= i < |s| :: Printable(s[i])
  }

  /** A chunk record reads back to what its text decodes to. */
  lemma ParseChunkRecordOfChunkRecord(de: DNSEncoder, chunk: Chunk, index: nat, msgId: string, unix: int)
    requires LabelFits(de.timePrefix, index, msgId, unix)
    requires AllPrintable(chunk.encoded)
    ensures ParseChunkRecord(ChunkRecord(de, chunk, index, msgId, unix)) == DecodeChunk(ParserConfig, chunk.encoded)
  {
    UnescapeOfEscape(chunk.encoded);
  }

  /** A base32 frame travels through a chunk record intact. */
  lemma ParseChunkRecordOfBase32(de: DNSEncoder, m: ChunkMetadata, payload: bytes, index: nat, msgId: string, unix: int)
    requires LabelFits(de.timePrefix, index, msgId, unix)
    requires m.magic == ChunkMagic
    ensures var encoded := Base32Encode(RawFrame(m, payload));
            ParseChunkRecord(ChunkRecord(de, Chunk(m, payload, encoded, ""), index, msgId, unix)) ==
              Ok(Chunk(m.(timestamp := 0, payloadSize := |payload| % 0x1_0000), payload, encoded, ""))
  {
    var encoded := Base32Encode(RawFrame(m, payload));
    ParseChunkRecordOfChunkRecord(de, Chunk(m, payload, encoded, ""), index, msgId, unix);
    DecodeChunkOfEncodeText(ParserConfig, m, payload);
  }

  /** A hex frame does not: its fourth character, the 'e' of the magic
      number's "444e", is outside the base32 alphabet. */
  lemma ParseChunkRecordRejectsHex(de: DNSEncoder, m: ChunkMetadata, payload: bytes, index: nat, msgId: string, unix: int)
    requires LabelFits(de.timePrefix, index, msgId, unix)
    requires m.magic == ChunkMagic
    ensures var encoded := HexEncode(RawFrame(m, payload));
            ParseChunkRecord(ChunkRecord(de, Chunk(m, payload, encoded, ""), index, msgId, unix)) == Err(DecodeFailed)
  {
    var raw := RawFrame(m, payload);
    var encoded := HexEncode(raw);
    HexIsPrintable(raw);
    ParseChunkRecordOfChunkRecord(de, Chunk(m, payload, encoded, ""), index, msgId, unix);
    MagicSecondByte(m, payload);
    HexFourthDigit(raw);
    UndigitsRejects(encoded, 3);
  }

  lemma HexIsPrintable(raw: bytes)
    ensures AllPrintable(HexEncode(raw))
  {
    var encoded := HexEncode(raw);
    forall i | 0 <= i < |encoded| ensures Printable(encoded[i]) {
      assert encoded[i] in encoded;
    }
  }

  lemma MagicSecondByte(m: ChunkMetadata, payload: bytes)
    requires m.magic == ChunkMagic
    ensures RawFrame(m, payload)[1] == 0x4E
  {
    assert RawFrame(m, payload)[..4] == BE32(ChunkMagic);
  }

  lemma HexFourthDigit(raw: bytes)
    requires |raw| >= 2 && raw[1] == 0x4E
    ensures HexEncode(raw)[3] == 'e'
  {
    assert raw[1..][0] == raw[1] && raw[1..][1..] == raw[2..];
    assert HexEncode(raw[1..]) == EncodeByte(raw[1]) + HexEncode(raw[2..]);
    assert HexEncode(raw) == EncodeByte(raw[0]) + HexEncode(raw[1..]);
  }

  /** How ParseFromDNS tells manifest and chunk records apart: as written, by
      ".m-" or ".c-" anywhere in the name; by the first label, which is where
      EncodeToDNS puts "m-" and "c-". */
  datatype Classifier = AsWritten | ByFirstLabel

  predicate IsManifestName(cl: Classifier, name: string)
  {
    match cl
    case AsWritten => Contains(name, ".m-")
    case ByFirstLabel => HasPrefix(FirstLabel(name), "m-")
  }

  predicate IsChunkName(cl: Classifier, name: string)
  {
    match cl
    case AsWritten => Contains(name, ".c-")
    case ByFirstLabel => HasPrefix(StripTimePrefix(FirstLabel(name)), "c-")
  }

  /** One record as ParseFromDNS reads a chunk from it: a record that is
      not a manifest, looks like a chunk and parses. */
  function ReadChunk(cl: Classifier, r: DNSRecord): Option<Chunk>
  {
    if IsManifestName(cl, r.name) || !IsChunkName(cl, r.name) then None
    else
      match ParseChunkRecord(r)
      case Ok(c) => Some(c)
      case Err(_) => None
  }

  function ChunkReader(cl: Classifier): DNSRecord -> Option<Chunk>
  {
    (r: DNSRecord) => ReadChunk(cl, r)
  }

  function ManifestTest(cl: Classifier): DNSRecord -> bool
  {
    (r: DNSRecord) => IsManifestName(cl, r.name)
  }

  function ManifestReader(de: DNSEncoder): DNSRecord -> Option<DNSManifest>
  {
    (r: DNSRecord) => ParseManifestRecord(de, r)
  }

  /** ParseFromDNS's chunks: those of the records, in record order. */
  function ParsedChunks(cl: Classifier, records: seq<DNSRecord>): seq<Chunk>
  {
    Collect(ChunkReader(cl), records)
  }

  /** Every chunk ParseFromDNS returns is a frame with the magic number. */
  lemma {:induction false} CollectedChunksAreFrames(cl: Classifier, records: seq<DNSRecord>)
    ensures var cs := ParsedChunks(cl, records);
            forall k | 0 <= k < |cs| :: cs[k].metadata.magic == ChunkMagic
  {
    if |records| > 0 {
      var prev := records[..|records| - 1];
      CollectedChunksAreFrames(cl, prev);
      var read := ChunkReader(cl)(records[|records| - 1]);
      assert read == ReadChunk(cl, records[|records| - 1]);
      match read
      case Some(c) =>
        assert c.metadata.magic == ChunkMagic;
        assert ParsedChunks(cl, records) == ParsedChunks(cl, prev) + [c];
      case None =>
        assert ParsedChunks(cl, records) == ParsedChunks(cl, prev);
    }
  }

  /** The manifest read from the records: that of the last manifest record,
      even when it does not parse. */
  function ParsedManifest(cl: Classifier, de: DNSEncoder, records: seq<DNSRecord>): Option<DNSManifest>
  {
    Last(ManifestTest(cl), ManifestReader(de), records)
  }

  /** ParseFromDNS; its count check only prints a warning, and its error
      result is always nil. */
  method ParseFromDNS(de: DNSEncoder, records: seq<DNSRecord>)
    returns (chunks: seq<Chunk>, manifest: Option<DNSManifest>)
    ensures chunks == ParsedChunks(AsWritten, records)
    ensures manifest == ParsedManifest(AsWritten, de, records)
  {
    chunks := [];
    manifest := None;
    for i := 0 to |records|
      invariant chunks == ParsedChunks(AsWritten, records[..i])
      invariant manifest == ParsedManifest(AsWritten, de, records[..i])
    {
      var record := records[i];
      assert records[..i + 1][..i] == records[..i];
      if Contains(record.name, ".m-") {
        manifest := ParseManifestRecord(de, record);
        continue;
      }
      if Contains(record.name, ".c-") {
        var r := ParseChunkRecord(record);
        if r.Err? {
          continue;
        }
        chunks := chunks + [r.value];
      }
    }
    assert records[..|records|] == records;
  }

  // ---------------------------------------------------------------------
  // Encoding and parsing together.

  /** A pattern starting with a dot that occurs in a label without dots
      followed by `rest` occurs in `rest`. */
  lemma DotPatternInRest(lab: string, rest: string, pat: string)
    requires '.' !in lab && |pat| > 0 && pat[0] == '.'
    requires Contains(lab + rest, pat)
    ensures Contains(rest, pat)
  {
    var s := lab + rest;
    var k := Index(s, pat);
    assert s[k..k + |pat|][0] == s[k];
    assert s[k] == '.';
    assert forall j | 0 <= j < |lab| :: lab[j] in lab;
    assert k >= |lab|;
    var j := k - |lab|;
    assert s[|lab|..] == rest;
    assert rest[j..j + |pat|] == s[|lab|..][j..j + |pat|] == s[k..k + |pat|];
    assert OccursAt(rest, pat, j);
  }

  /** Records none of whose names contains ".c-" or ".m-" give nothing. */
  lemma CollectedNothing(de: DNSEncoder, records: seq<DNSRecord>)
    requires forall k | 0 <= k < |records| :: !Contains(records[k].name, ".c-") && !Contains(records[k].name, ".m-")
    ensures ParsedChunks(AsWritten, records) == []
    ensures ParsedManifest(AsWritten, de, records) == None
  {
    CollectNone(ChunkReader(AsWritten), records);
    LastSkip(ManifestTest(AsWritten), ManifestReader(de), [], records);
    assert [] + records == records;
  }

  /** A name made of a label without dots and a rest without ".c-" or
      ".m-" has neither. */
  lemma NameNotClassified(lab: string, rest: string)
    requires '.' !in lab
    requires !Contains(rest, ".c-") && !Contains(rest, ".m-")
    ensures !Contains(lab + rest, ".c-") && !Contains(lab + rest, ".m-")
  {
    if Contains(lab + rest, ".c-") {
      DotPatternInRest(lab, rest, ".c-");
    }
    if Contains(lab + rest, ".m-") {
      DotPatternInRest(lab, rest, ".m-");
    }
  }

  lemma ChunkRecordNotClassified(de: DNSEncoder, chunk: Chunk, index: nat, msgId: string, unix: int)
    requires LabelFits(de.timePrefix, index, msgId, unix) && '.' !in msgId
    requires var rest := "." + de.subdomain + "." + de.domain;
             !Contains(rest, ".c-") && !Contains(rest, ".m-")
    ensures var name := ChunkRecord(de, chunk, index, msgId, unix).name;
            !Contains(name, ".c-") && !Contains(name, ".m-")
  {
    ChunkLabelParts(de.timePrefix, index, msgId, unix);
    NameNotClassified(ChunkLabel(de.timePrefix, index, msgId, unix), "." + de.subdomain + "." + de.domain);
  }

  lemma LabelIdHasNoDot(msg: Chunking.Message)
    ensures '.' !in MessageLabelId(msg)
  {
    ValidLabelHasNoDot(MessageLabelId(msg));
  }

  /** As written, ParseFromDNS finds none of the records EncodeToDNS makes:
      their names START with "m-" or "c-" (or "t"), so ".m-" and ".c-" can
      only be found in the subdomain and domain part. */
  lemma ParseMissesEncodedRecords(de: DNSEncoder, msg: Chunking.Message, clock: seq<int>)
    requires ClockFits(de, msg, clock)
    requires var rest := "." + de.subdomain + "." + de.domain;
             !Contains(rest, ".c-") && !Contains(rest, ".m-")
    ensures var records := [ManifestRecord(de, InitialManifest(de, msg))] + ChunkRecords(de, msg, clock);
            ParsedChunks(AsWritten, records) == [] && ParsedManifest(AsWritten, de, records) == None
  {
    var rs := ChunkRecords(de, msg, clock);
    var records := [ManifestRecord(de, InitialManifest(de, msg))] + rs;
    ManifestRecordNotClassified(de, msg);
    forall k | 1 <= k < |records|
      ensures !Contains(records[k].name, ".c-") && !Contains(records[k].name, ".m-")
    {
      EncodedChunkNotClassified(de, msg, clock, k - 1);
      assert records[k] == rs[k - 1];
    }
    CollectedNothing(de, records);
  }

  lemma ManifestRecordNotClassified(de: DNSEncoder, msg: Chunking.Message)
    requires var rest := "." + de.subdomain + "." + de.domain;
             !Contains(rest, ".c-") && !Contains(rest, ".m-")
    ensures var name := ManifestRecord(de, InitialManifest(de, msg)).name;
            !Contains(name, ".c-") && !Contains(name, ".m-")
  {
    LabelIdHasNoDot(msg);
    ManifestNameNotClassified(de, MessageLabelId(msg));
  }

  /** The name of a manifest whose id has no dot. */
  lemma ManifestNameNotClassified(de: DNSEncoder, id: string)
    requires '.' !in id
    requires var rest := "." + de.subdomain + "." + de.domain;
             !Contains(rest, ".c-") && !Contains(rest, ".m-")
    ensures var name := FullName(de, "m-" + id);
            !Contains(name, ".c-") && !Contains(name, ".m-")
  {
    assert "m-"[0] != '.' && "m-"[1] != '.';
    ConcatNoDot("m-", id);
    NameNotClassified("m-" + id, "." + de.subdomain + "." + de.domain);
  }

  lemma EncodedChunkNotClassified(de: DNSEncoder, msg: Chunking.Message, clock: seq<int>, i: nat)
    requires ClockFits(de, msg, clock) && i < |msg.chunks|
    requires var rest := "." + de.subdomain + "." + de.domain;
             !Contains(rest, ".c-") && !Contains(rest, ".m-")
    ensures var name := ChunkRecords(de, msg, clock)[i].name;
            !Contains(name, ".c-") && !Contains(name, ".m-")
  {
    var id := MessageLabelId(msg);
    LabelIdHasNoDot(msg);
    ChunkRecordsAt(de, msg, clock, i);
    ChunkRecordNotClassified(de, msg.chunks[i], i, id, clock[i]);
  }

  /** A chunk record is classified as a chunk, and not as a manifest, by
      its first label. */
  lemma ChunkRecordByFirstLabel(de: DNSEncoder, chunk: Chunk, index: nat, msgId: string, unix: int)
    requires LabelFits(de.timePrefix, index, msgId, unix) && '.' !in msgId
    ensures var name := ChunkRecord(de, chunk, index, msgId, unix).name;
            !IsManifestName(ByFirstLabel, name) && IsChunkName(ByFirstLabel, name)
  {
    ChunkLabelParts(de.timePrefix, index, msgId, unix);
    ChunkLabelKind(de.timePrefix, index, msgId, unix);
    FirstLabelOf(ChunkLabel(de.timePrefix, index, msgId, unix), "." + de.subdomain + "." + de.domain);
  }

  /** Every chunk text of a message decodes. */
  predicate ChunksDecode(msg: Chunking.Message)
  {
    forall i | 0 <= i < |msg.chunks| ::
      AllPrintable(msg.chunks[i].encoded) && DecodeChunk(ParserConfig, msg.chunks[i].encoded).Ok?
  }

  function DecodedChunks(msg: Chunking.Message): (cs: seq<Chunk>)
    requires ChunksDecode(msg)
    ensures |cs| == |msg.chunks|
  {
    seq(|msg.chunks|, i requires 0 <= i < |msg.chunks| => DecodeChunk(ParserConfig, msg.chunks[i].encoded).value)
  }

  lemma ManifestRecordByFirstLabel(de: DNSEncoder, msg: Chunking.Message)
    ensures IsManifestName(ByFirstLabel, ManifestRecord(de, InitialManifest(de, msg)).name)
  {
    LabelIdHasNoDot(msg);
    ManifestRecordLabel(de, InitialManifest(de, msg));
    assert ("m-" + MessageLabelId(msg))[..2] == "m-";
  }

  /** The i-th chunk record of a message is read as the i-th decoded chunk,
      and not as a manifest. */
  lemma EncodedChunkRecord(de: DNSEncoder, msg: Chunking.Message, clock: seq<int>, i: nat)
    requires ClockFits(de, msg, clock) && ChunksDecode(msg) && i < |msg.chunks|
    ensures var r := ChunkRecords(de, msg, clock)[i];
            ReadChunk(ByFirstLabel, r) == Some(DecodedChunks(msg)[i]) && !IsManifestName(ByFirstLabel, r.name)
  {
    var id := MessageLabelId(msg);
    LabelIdHasNoDot(msg);
    assert LabelFits(de.timePrefix, i, id, clock[i]);
    assert ChunkRecords(de, msg, clock)[i] == ChunkRecord(de, msg.chunks[i], i, id, clock[i]);
    ChunkRecordByFirstLabel(de, msg.chunks[i], i, id, clock[i]);
    ParseChunkRecordOfChunkRecord(de, msg.chunks[i], i, id, clock[i]);
  }

  /** A manifest record followed by records each read as the next chunk of
      `cs` reads back as that manifest and those chunks. */
  lemma ParseManifestThenChunks(de: DNSEncoder, m: DNSRecord, rs: seq<DNSRecord>, cs: seq<Chunk>)
    requires IsManifestName(ByFirstLabel, m.name) && |rs| == |cs|
    requires forall j | 0 <= j < |rs| :: ReadChunk(ByFirstLabel, rs[j]) == Some(cs[j]) && !IsManifestName(ByFirstLabel, rs[j].name)
    ensures ParsedChunks(ByFirstLabel, [m] + rs) == cs
    ensures ParsedManifest(ByFirstLabel, de, [m] + rs) == ParseManifestRecord(de, m)
  {
    CollectAppend(ChunkReader(ByFirstLabel), [m], rs);
    CollectAll(ChunkReader(ByFirstLabel), rs, cs);
    assert [m][..0] == [];
    LastSkip(ManifestTest(ByFirstLabel), ManifestReader(de), [m], rs);
  }

  /** With the first label as the classifier, parsing the records
      EncodeToDNS makes gives back the manifest and every chunk as its text
      decodes. */
  lemma ParseByFirstLabelOfEncoded(de: DNSEncoder, msg: Chunking.Message, clock: seq<int>)
    requires ClockFits(de, msg, clock) && ChunksDecode(msg)
    requires |msg.chunks| <= MaxInt64 && MinInt64 <= msg.createdAt <= MaxInt64
    ensures var records := [ManifestRecord(de, InitialManifest(de, msg))] + ChunkRecords(de, msg, clock);
            ParsedChunks(ByFirstLabel, records) == DecodedChunks(msg) &&
            ParsedManifest(ByFirstLabel, de, records) ==
              Some(DNSManifest(MessageLabelId(msg), |msg.chunks|, msg.createdAt, "pending", [], de.domain))
  {
    var rs := ChunkRecords(de, msg, clock);
    forall j | 0 <= j < |rs|
      ensures ReadChunk(ByFirstLabel, rs[j]) == Some(DecodedChunks(msg)[j]) && !IsManifestName(ByFirstLabel, rs[j].name)
    {
      EncodedChunkRecord(de, msg, clock, j);
    }
    ManifestRecordByFirstLabel(de, msg);
    ParseManifestThenChunks(de, ManifestRecord(de, InitialManifest(de, msg)), rs, DecodedChunks(msg));
    ManifestOfEncoded(de, msg);
  }

  lemma ManifestOfEncoded(de: DNSEncoder, msg: Chunking.Message)
    requires |msg.chunks| <= MaxInt64 && MinInt64 <= msg.createdAt <= MaxInt64
    ensures ParseManifestRecord(de, ManifestRecord(de, InitialManifest(de, msg))) ==
              Some(DNSManifest(MessageLabelId(msg), |msg.chunks|, msg.createdAt, "pending", [], de.domain))
  {
    LabelIdHasNoDot(msg);
    ParseManifestOfManifestRecord(de, InitialManifest(de, msg));
  }

  /** The records of a message chunked with base32 give back every chunk,
      with the timestamp zero and no record name, as DecodeChunk builds it. */
  lemma ParseByFirstLabelOfFragments(de: DNSEncoder, config: ChunkerConfig, data: bytes, id: MessageId, now: int, msg: Chunking.Message, clock: seq<int>)
    requires config.encoding == EncodeBase32 && Chunking.Fits(config, |data|)
    requires msg.chunks == Chunking.Fragments(config, data, id, now)
    requires ClockFits(de, msg, clock)
    requires MinInt64 <= msg.createdAt <= MaxInt64
    ensures var records := [ManifestRecord(de, InitialManifest(de, msg))] + ChunkRecords(de, msg, clock);
            var cs := ParsedChunks(ByFirstLabel, records);
            |cs| == |msg.chunks| &&
            forall i | 0 <= i < |cs| ::
              cs[i] == Chunk(msg.chunks[i].metadata.(timestamp := 0), msg.chunks[i].payload, msg.chunks[i].encoded, "")
  {
    FragmentsDecode(config, data, id, now, msg);
    ParseByFirstLabelOfEncoded(de, msg, clock);
  }

  /** Every base32 fragment text decodes to its frame, read back with the
      timestamp zero and no record name. */
  lemma FragmentsDecode(config: ChunkerConfig, data: bytes, id: MessageId, now: int, msg: Chunking.Message)
    requires config.encoding == EncodeBase32 && Chunking.Fits(config, |data|)
    requires msg.chunks == Chunking.Fragments(config, data, id, now)
    ensures ChunksDecode(msg)
    ensures forall i | 0 <= i < |msg.chunks| ::
              DecodedChunks(msg)[i] ==
                Chunk(msg.chunks[i].metadata.(timestamp := 0), msg.chunks[i].payload, msg.chunks[i].encoded, "")
  {
    forall i | 0 <= i < |msg.chunks|
      ensures AllPrintable(msg.chunks[i].encoded)
      ensures DecodeChunk(ParserConfig, msg.chunks[i].encoded) ==
                Ok(Chunk(msg.chunks[i].metadata.(timestamp := 0), msg.chunks[i].payload, msg.chunks[i].encoded, ""))
    {
      Chunking.FragmentShape(config, data, id, now, i);
      Chunking.FragmentsDecode(config, data, id, now, i);
      assert DecodeChunk(ParserConfig, msg.chunks[i].encoded) == DecodeChunk(config, msg.chunks[i].encoded);
    }
  }
}
