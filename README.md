# simulacra_txt core, modelled and proved in Dafny

simulacra_txt moves a message through DNS TXT records, and it hides an encrypted payload in the low bits of an image. This project models the core of both paths and proves what each part promises.

- **Chunker** (`Frame`, `Reassembly`, `Chunking`).
  - A message is cut into fixed-size payloads.
  - Each payload gets a 28-byte big-endian header: magic "DNSC", a 128-bit message id, sequence, total and a rotating checksum.
  - The frame is written as hex or unpadded base32 text (`Hex`, `Base32`).
  - Chunks are decoded, validated, sorted by sequence and reassembled.
- **DNS encoder** (`DnsEncoder`, with `DnsNames`, `TxtEscape`, `RecordScan`).
  - It makes a manifest record "m-<id>" and one record "c-<index>-<id>" per chunk.
  - An optional minute prefix "t<minutes>-" can be added.
  - It sanitises labels, escapes TXT values, reads records back and writes a zone file.
- **Message store** (`StoreState`, `Storage`, with `MapSums`, `MapCards`).
  - The DNS server keeps messages in memory and tracks which client has seen which message.
  - A message's life cycle is New, Delivered, Consumed.
  - A queue manager publishes, consumes and acknowledges messages.
  - After a load from file, the chunk index is rebuilt.
- **Simulation server** (`SimulaServer`).
  - Uploaded chunks are filed under their first label.
  - The messages new to a client are handed out and marked delivered.
  - TXT queries for "c-…" and "m-…" names are answered.
- **DNS server** (`DnsServer`, with `DnsQuery`).
  - TXT questions are routed to consume queries or chunk queries.
  - A consume query answers with the consumed ids, joined by commas.
  - A chunk query serves a manifest or a chunk.
  - A zone file can be loaded as a message.
- **Stego codec** (`Stego`, with `Bits`, `Bytes`).
  - The encoder expands the payload to bits, most significant first.
  - It writes the bits into the lowest bit of the red, green and blue channels of random base colours, in row-major order.
  - The decoder reads the lowest bits back.
  - It checks the 4-byte big-endian length header and unpacks the payload.

The main results:

- **Chunker round trip.** The chunks of non-empty data reassemble to the data (`Chunking.FragmentsReassemble`).
- **Reassembly rules.** Reassembly succeeds exactly on a complete, consistent set with good checksums (`Reassembly.ReassembleSucceedsIff`). The in-place sort is a stable, sorted permutation (`Chunking.SortInPlace`, `Reassembly.SortBySequenceSorted`, `Reassembly.SortBySequencePerm`).
- **Frame round trip.** A frame reads back to its header fields (`Frame.DecodeChunkOfEncodeText`).
- **Text encodings.** Hex, base32, TXT escaping and the manifest value all round-trip.
- **Store invariant.** Every store operation keeps it.
- **Queue consumption.** It hands out exactly the messages new to a client, each once.
- **Zone files.** A zone line written for a record reads back.
- **Stego round trip.** A payload laid out as the encoder lays it out (length, body, random padding) and embedded in an image comes back out of it (`Stego.PayloadRoundTrip`).

The model follows the Go code:

- Where the code works step by step, so does the model. The loops are methods with invariants. Stateful objects are classes: `Chunking.Chunker`, `Storage.MemoryStorage`, `Storage.QueueManager`, `SimulaServer.SimulationServer`, `DnsServer.DNSServer`, `Stego.SecureStegoDecoder` and `Stego.SecureStegoEncoder`. Each of these methods is proved against a specification function.
- Integers of fixed width are subset types of `int`. The checksum's wrap-around is written out modulo 2^32.
- Clocks, random colours and generated message ids are parameters.

## Model

| member | source | states |
|---|---|---|
| Bytes.ReadBE32OfBE32 | internal/chunker/chunker.go:409 | reading four big-endian bytes gives back the uint32 that PutUint32 wrote, whatever follows |
| Bytes.ReadBE16OfBE16 | internal/chunker/chunker.go:421-425 | reading two big-endian bytes gives back the uint16 that PutUint16 wrote |
| Bytes.BE32OfReadBE32 | internal/chunker/chunker.go:429 | four bytes read as a uint32 and written again are the same four bytes |
| Bytes.BE16OfReadBE16 | internal/chunker/chunker.go:421 | two bytes read as a uint16 and written again are the same two bytes |
| Bits.BitsToNatOfNatToBits | internal/decoder/decoder.go:69-79 | the w low bits of x, read most significant first, are x again when x < 2^w |
| Bits.NatToBitsOfBitsToNat | internal/decoder/decoder.go:69-79 | the value of a bit string, written back at the same width, gives the same bits |
| Bits.PackBitsOfBytesToBits | internal/encoder/encoder.go:55-60 | packing the bit expansion of bytes gives the bytes back |
| Bits.BytesToBitsOfPackBits | internal/decoder/decoder.go:97-112 | expanding packed bits gives the bits back |
| Bits.BytesToBitsAt | internal/encoder/encoder.go:58 | bit 8i+j of the expansion is bit 7-j of byte i |
| Bits.PackBitsAt | internal/decoder/decoder.go:100-111 | byte i of the packing is the value of bits 8i .. 8i+7, most significant first |
| Bits.BytesToBitsPrefix | internal/encoder/encoder.go:55-60 | expanding a prefix of k bytes gives the first 8k bits of the expansion |
| Hex.HexEncode | internal/chunker/chunker.go:295 | two lower-case hex digits per byte |
| Hex.HexDecode | internal/chunker/chunker.go:384 | a successful decode has half as many bytes as the text has characters |
| Hex.HexDecodeOfHexEncode | internal/chunker/chunker.go:295 | decoding the hex text of bytes gives the bytes |
| Hex.HexEncodeOfHexDecode | internal/chunker/chunker.go:384 | a lower-case text that decodes is the encoding of what it decodes to |
| Base32.Base32Encode | internal/chunker/chunker.go:299 | 5 bits per character of the standard alphabet, the last group padded with zero bits, no '=' |
| Base32.Base32Decode | internal/chunker/chunker.go:386 | a successful decode of n characters has five bytes per full group of eight, and 1, 2, 3 or 4 bytes for a final group of 2, 4, 5 or 7 characters; a final group of 1, 3 or 6 characters adds none |
| Base32.Base32DecodeSucceedsIff | internal/chunker/chunker.go:386 | a text decodes exactly when every character is in the alphabet, whatever its length |
| Base32.Base32DecodeDropsPartialGroup | internal/chunker/chunker.go:386 | a final group of 1, 3 or 6 alphabet characters is ignored: the text decodes as the text without it |
| Base32.Base32DecodeIgnoresTrailingGroup | internal/chunker/chunker.go:386 | whole-group base32 text of bytes followed by 1, 3 or 6 more alphabet characters still decodes to the bytes |
| Base32.Base32DecodeOfBase32Encode | internal/chunker/chunker.go:299 | decoding the unpadded base32 text of bytes gives the bytes |
| Base32.UndigitsRejects | internal/chunker/chunker.go:386 | one character outside the alphabet makes the whole text fail to decode |
| Base32.EncodedLength | internal/chunker/chunker.go:299 | k bytes give ceil(8k/5) characters, whose final group is never one the decoder drops, and from which exactly k bytes are read back |
| Text.DecimalValueOfNatToDecimal | internal/chunker/chunker.go:499 | the decimal digits of n read back as n |
| Text.ZeroPadDecimal | internal/chunker/chunker.go:499 | "%03d" adds only digits and keeps the value |
| Text.ScanIntOfIntToDecimal | internal/chunker/dns_encoder.go:305-306 | Sscanf "%d" reads back what "%d" printed, whatever follows |
| Text.IndexFrom | internal/chunker/dns_encoder.go:273 | strings.Index gives the first occurrence at or after the start, or -1 exactly when there is none |
| Text.LastIndexOf | cmd/dns-server/main.go:143 | strings.LastIndex gives the last position of the character, or -1 exactly when it does not occur |
| Text.Split | cmd/dns-server/main.go:132 | strings.Split returns at least one piece, and no piece holds the separator |
| Text.SplitAt | cmd/simula-server/main.go:123-124 | splitting at the first separator gives the text before it, then the split of the rest |
| Text.SplitJoin | cmd/dns-server/main.go:206 | splitting a join at a separator that no part holds gives the parts back |
| Text.LeadingWord | cmd/dns-server/main.go:229 | a field is the longest prefix without white space |
| Text.FieldsCons | cmd/dns-server/main.go:229 | strings.Fields of a word, a space and a rest is the word and the fields of the rest |
| Text.ToLower | cmd/dns-server/main.go:114 | strings.ToLower maps every character through the ASCII lower-casing and keeps the length |
| Frame.PayloadSize | internal/chunker/chunker.go:457-466 | 138 raw bytes per chunk exactly for base32, 111 for anything else |
| Frame.TotalChunksBounds | internal/chunker/chunker.go:469-472 | the chunk count is the fewest chunks of p bytes that hold n bytes, and is 0 exactly for no data |
| Frame.RotateRight1OfRotateLeft1 | internal/chunker/chunker.go:481 | the one-bit rotation of the checksum loses no information |
| Frame.CalculateChecksum | internal/chunker/chunker.go:475-484 | the loop computes the sum modulo 2^32, rotated left by one bit after each byte |
| Frame.ChecksumStepInjective | internal/chunker/chunker.go:478-482 | one step of the checksum is injective in the running sum and in the byte |
| Frame.ChecksumFromAppend | internal/chunker/chunker.go:475-484 | the checksum of a concatenation continues from the checksum of its first part |
| Frame.ChecksumFromInjective | internal/chunker/chunker.go:475-484 | the bytes that follow cannot make two different running sums meet |
| Frame.ChecksumDetectsByteChange | internal/chunker/chunker.go:475-484 | changing any single byte of a payload changes its checksum |
| Frame.Header | internal/chunker/chunker.go:264-289 | the header is 28 bytes |
| Frame.RawFrame | internal/chunker/chunker.go:289-290 | the frame is the header followed by the payload |
| Frame.RawFrameFields | internal/chunker/chunker.go:264-290 | magic, id, sequence, total and checksum read back from offsets 0, 4, 20, 22 and 24, and the payload from 28 |
| Frame.DecodeTextOfEncodeText | internal/chunker/chunker.go:292-303 | the decoder's text choice undoes the encoder's, for every encoding setting |
| Frame.EncodeChunk | internal/chunker/chunker.go:258-304 | the field-by-field append loop builds the encoded text of the frame |
| Frame.DecodeChunk | internal/chunker/chunker.go:377-441 | a decoded chunk carries the magic, its own text and a payload size equal to its payload length modulo 2^16 |
| Frame.DecodeChunkErrors | internal/chunker/chunker.go:378-412 | text that does not decode, fewer than 28 bytes, or a wrong magic each give their own error, in that order |
| Frame.DecodeChunkReframes | internal/chunker/chunker.go:404-437 | a decoded chunk lays out again as exactly the bytes it came from |
| Frame.DecodeChunkOfEncodeText | internal/chunker/chunker.go:377-441 | decoding the text of a frame gives back every header field and the payload |
| Frame.DecodeChunkOfFrame | internal/chunker/chunker.go:377-441 | a chunk whose text is its own frame decodes to itself, except for the timestamp and record name, which are not carried |
| Frame.ValidateChunk | internal/chunker/chunker.go:531-561 | valid exactly when the magic and checksum match, the sequence is below the total, and the payload is non-empty and at most the per-chunk size; a wrong magic, then a wrong checksum, is the error reported |
| Frame.RecordNameSequence | internal/chunker/chunker.go:493-506 | the sequence number reads back from the second field of the record name |
| Frame.RecordNamesDistinct | internal/chunker/chunker.go:493-506 | chunks with different sequence numbers get different record names |
| Reassembly.InsertBySequenceAt | internal/chunker/chunker.go:348-350 | insertion puts the element after every element that is not larger |
| Reassembly.InsertBySequencePerm | internal/chunker/chunker.go:348-350 | insertion adds exactly the element, and its sequence number, to the multisets |
| Reassembly.InsertBySequenceSorted | internal/chunker/chunker.go:348-350 | inserting into a sorted sequence keeps it sorted |
| Reassembly.SortBySequenceSorted | internal/chunker/chunker.go:348-350 | the sort yields chunks in non-decreasing sequence order |
| Reassembly.SortBySequencePerm | internal/chunker/chunker.go:348-350 | the sort is a permutation of the chunks and of their sequence numbers |
| Reassembly.SortBySequenceOfSorted | internal/chunker/chunker.go:348-350 | chunks already in order are left as they are |
| Reassembly.FirstInconsistency | internal/chunker/chunker.go:329-338 | no error exactly when every chunk has the first chunk's id and total; otherwise the first offender's error |
| Reassembly.FirstBadPosition | internal/chunker/chunker.go:353-363 | no error exactly when every sorted chunk has its position as sequence and a matching checksum |
| Reassembly.MissingBelow | internal/chunker/chunker.go:509-523 | exactly the sequence numbers below the total that no chunk carries, in increasing order |
| Reassembly.ReassembleOkIsComplete | internal/chunker/chunker.go:311-374 | a successful reassembly had a complete, consistent set of chunks |
| Reassembly.ReassembleSucceedsIff | internal/chunker/chunker.go:311-374 | reassembly succeeds exactly on a complete set, and then returns the payloads in sequence order |
| Reassembly.ReassembleRejectsDuplicates | internal/chunker/chunker.go:341-356 | two chunks with the same sequence number make reassembly fail |
| Reassembly.ReassembleRejectsBadChecksum | internal/chunker/chunker.go:358-362 | a chunk whose payload does not match its checksum makes reassembly fail |
| Reassembly.ReassembleReportsMissing | internal/chunker/chunker.go:341-345 | a consistent set of the wrong size reports exactly the missing sequence numbers |
| Reassembly.ReassembleOfOrdered | internal/chunker/chunker.go:311-374 | chunks already in order reassemble to their payloads in order |
| Reassembly.InOrderPasses | internal/chunker/chunker.go:326-363 | chunks in order pass every check, and the sort leaves them as they are |
| Chunking.ChunkPayload | internal/chunker/chunker.go:222-229 | a chunk's payload is at most p bytes |
| Chunking.ChunkPayloadShape | internal/chunker/chunker.go:222-229 | each payload is non-empty, and full unless it is the last one |
| Chunking.Fragments | internal/chunker/chunker.go:203-206 | one chunk per payload-sized piece of the data |
| Chunking.FragmentShape | internal/chunker/chunker.go:220-255 | chunk i carries sequence i, the total, the magic, the message id, the checksum and the size of its payload |
| Chunking.FragmentsConcat | internal/chunker/chunker.go:203-206 | the payloads, concatenated in order, are the data |
| Chunking.FragmentsValidate | internal/chunker/chunker.go:531-561 | every chunk the chunker makes passes ValidateChunk |
| Chunking.FragmentsDecode | internal/chunker/chunker.go:377-441 | the text of every chunk decodes to the chunk itself, except for the timestamp and record name |
| Chunking.FragmentsReassemble | internal/chunker/chunker.go:164-217 | reassembling the chunks of non-empty data gives the data back |
| Chunking.FragmentsOfEmpty | internal/chunker/chunker.go:312-314 | empty data makes no chunks, and reassembling no chunks is the no-chunks error |
| Chunking.Chunker.constructor | internal/chunker/chunker.go:149-161 | an empty encoding defaults to base32 and a zero chunk size to 250; statistics start at zero |
| Chunking.Chunker.CreateChunk | internal/chunker/chunker.go:220-255 | builds chunk i of the given total, as specified by ChunkAt |
| Chunking.Chunker.ChunkMessage | internal/chunker/chunker.go:164-217 | more than 65535 chunks is an error that leaves the statistics alone; otherwise the message holds the fragments in order and the statistics count the message, its chunks and bytes |
| Chunking.Chunker.CreateChunks | internal/chunker/chunker.go:203-206 | the loop appends chunk 0 up to the last, giving the fragments |
| Chunking.Chunker.FindMissingChunks | internal/chunker/chunker.go:509-523 | the presence map and scan give exactly the missing sequence numbers, in increasing order |
| Chunking.Chunker.ReassembleMessage | internal/chunker/chunker.go:311-374 | the result is the reassembly of the chunks given; the caller's array is sorted exactly when the checks reach the sort |
| Chunking.CheckConsistency | internal/chunker/chunker.go:329-338 | the first loop reports the first chunk of another message or of another total |
| Chunking.CheckPositions | internal/chunker/chunker.go:353-363 | the loop reports the first position with the wrong sequence number or a bad checksum |
| Chunking.JoinPayloads | internal/chunker/chunker.go:366-369 | the payloads are appended in array order |
| Chunking.SortInPlace | internal/chunker/chunker.go:348-350 | the array ends up as the stable sort of its old contents by sequence number |
| Chunking.InsertLast | internal/chunker/chunker.go:348-350 | moving a[i] left puts it into the sorted prefix and leaves the rest alone |
| Chunking.ShiftLarger | internal/chunker/chunker.go:348-350 | the elements before a[i] that are larger move up one place, and a[i] lands after the last one that is not larger |
| TxtEscape.EscapeChar | internal/chunker/dns_encoder.go:201-216 | a quote or backslash gets a backslash in front; other printable characters stay; no escape starts with a quote |
| TxtEscape.EscapeTXTValue | internal/chunker/dns_encoder.go:191-220 | the builder loop gives the character-by-character escape of the value |
| TxtEscape.EscapeAppend | internal/chunker/dns_encoder.go:191-220 | escaping distributes over concatenation |
| TxtEscape.FirstPass | internal/chunker/dns_encoder.go:325 | the first replacement pass over an escaped text undoes the escaped quotes and leaves every backslash doubled |
| TxtEscape.SecondPass | internal/chunker/dns_encoder.go:326 | the second replacement pass halves the doubled backslashes, giving the original text |
| TxtEscape.UnescapeOfEscape | internal/chunker/dns_encoder.go:323-329 | on printable ASCII text, unescaping undoes escaping |
| TxtEscape.UnescapeKeepsDecimalEscape | internal/chunker/dns_encoder.go:323-329 | a \DDD escape of a non-printable character is not undone by the two replacement passes |
| DnsNames.ReplaceInvalid | internal/chunker/dns_encoder.go:167-168 | each character outside [a-z0-9-] becomes one hyphen; the others stay |
| DnsNames.CollapseHyphens | internal/chunker/dns_encoder.go:174-175 | no run of hyphens is left, and the first and last characters are kept |
| DnsNames.Truncate | internal/chunker/dns_encoder.go:178-180 | the label is cut to at most 63 characters, and a shorter one is unchanged |
| DnsNames.AlphanumericStart | internal/chunker/dns_encoder.go:182-185 | the label starts with a letter or digit, and only the first character can change |
| DnsNames.CleanedIsClean | internal/chunker/dns_encoder.go:164-175 | before the cut, the text holds only [a-z0-9-], has no hyphen run and no hyphen at either end |
| DnsNames.Sanitize | internal/chunker/dns_encoder.go:156-188 | as written: clean text of at most 63 characters |
| DnsNames.SanitizeLeavesTrailingHyphen | internal/chunker/dns_encoder.go:171-180 | as written, 62 letters, a hyphen and a letter sanitise to a label ending in a hyphen, which is not a valid label |
| DnsNames.SanitizeLabel | internal/chunker/dns_encoder.go:156-188 | corrected: always a valid DNS label (clean, at most 63 characters, no hyphen at either end, alphanumeric start) |
| DnsNames.SanitizeLabelOfValidLabel | internal/chunker/dns_encoder.go:156-188 | a valid label is left alone by both sanitisers |
| DnsNames.SanitizeLabelIdempotent | internal/chunker/dns_encoder.go:156-188 | sanitising twice is sanitising once |
| DnsNames.SanitizeAgrees | internal/chunker/dns_encoder.go:171-180 | the two sanitisers agree unless the cut ends on a hyphen |
| DnsNames.GoDiv | internal/chunker/dns_encoder.go:98 | Go's integer division truncates toward zero |
| DnsNames.ChunkLabel | internal/chunker/dns_encoder.go:93-111 | the chunk label is at most 63 characters, and is the full "[t<min>-]c-<i>-<id>" label when that fits |
| DnsNames.LabelId | internal/chunker/dns_encoder.go:103-110 | the id in the label is a prefix of the message id |
| DnsNames.StripTimePrefixOfPrefixed | internal/chunker/dns_encoder.go:272-278 | parseChunkRecord strips the "t<minutes>-" prefix back off |
| DnsNames.LabelSequenceOfChunkLabel | internal/chunker/dns_encoder.go:264-284 | the sequence number reads back from a chunk label, with or without the time prefix |
| DnsNames.ChunkLabelKind | internal/chunker/dns_encoder.go:93-111 | a chunk label has no dot, and without its time prefix it starts with "c-" and not "m-" |
| DnsEncoder.ManifestChecksum | internal/chunker/dns_encoder.go:332-340 | "%08x" gives exactly eight lower-case hex digits |
| DnsEncoder.ManifestChecksumReadsBack | internal/chunker/dns_encoder.go:332-340 | the manifest checksum reads back as the frame checksum of the data |
| DnsEncoder.CalculateManifestChecksum | internal/chunker/dns_encoder.go:332-340 | the loop computes the manifest checksum text |
| DnsEncoder.MessageLabelId | internal/chunker/dns_encoder.go:46 | the manifest id is a valid DNS label |
| DnsEncoder.MessageLabelIdIsHex | internal/chunker/dns_encoder.go:46 | sixteen hex digits pass the sanitiser unchanged, so the id is the hex of the first eight id bytes |
| DnsEncoder.SanitizeOfMessageHex | internal/chunker/dns_encoder.go:46 | the sanitiser as written gives the same id |
| DnsEncoder.ChunkRecords | internal/chunker/dns_encoder.go:61-69 | one chunk record per chunk |
| DnsEncoder.EncodeToDNS | internal/chunker/dns_encoder.go:38-75 | the manifest record first, then one record per chunk in chunk order; the manifest lists the chunk names and the checksum of the data |
| DnsEncoder.AddChunkRecords | internal/chunker/dns_encoder.go:61-69 | each chunk record is appended, and its name is added to the manifest's chunk list |
| DnsEncoder.ManifestValueFields | internal/chunker/dns_encoder.go:142-145 | the value "<total>:pending:<time>" splits at ':' into its three fields |
| DnsEncoder.ManifestRecordLabel | internal/chunker/dns_encoder.go:137-138 | the first label of a manifest record is "m-" followed by the id |
| DnsEncoder.ParseManifestOfManifestRecord | internal/chunker/dns_encoder.go:294-320 | a manifest record reads back to its id, count and time |
| DnsEncoder.ParseChunkRecordOfChunkRecord | internal/chunker/dns_encoder.go:260-291 | a chunk record reads back to what its text decodes to |
| DnsEncoder.ParseChunkRecordOfBase32 | internal/chunker/dns_encoder.go:260-291 | a base32 frame travels through a chunk record intact |
| DnsEncoder.ParseChunkRecordRejectsHex | internal/chunker/dns_encoder.go:260-291 | a hex frame does not: the parser decodes as base32, and the hex text has an 'e' in fourth place |
| DnsEncoder.CollectedChunksAreFrames | internal/chunker/dns_encoder.go:223-257 | every chunk ParseFromDNS returns carries the magic |
| DnsEncoder.ParseFromDNS | internal/chunker/dns_encoder.go:223-257 | the chunks of the chunk-classified records in record order, and the manifest of the last manifest record |
| DnsEncoder.ParseMissesEncodedRecords | internal/chunker/dns_encoder.go:233-239 | as written, ParseFromDNS finds no chunk and no manifest among the records EncodeToDNS makes |
| DnsEncoder.ChunkRecordByFirstLabel | internal/chunker/dns_encoder.go:223-257 | classified by the first label, a chunk record is a chunk and not a manifest |
| DnsEncoder.ParseByFirstLabelOfEncoded | internal/chunker/dns_encoder.go:223-257 | corrected classification by the first label: parsing the encoded records gives back the manifest and every decoded chunk |
| DnsEncoder.ParseByFirstLabelOfFragments | internal/chunker/dns_encoder.go:223-257 | the records of base32 fragments give back every chunk |
| DnsEncoder.FragmentsDecode | internal/chunker/dns_encoder.go:260-291 | every base32 fragment text decodes, with the parser's configuration, to its own frame, with timestamp zero and no record name |
| DnsQuery.Reply.constructor | cmd/dns-server/main.go:100-101 | SetReply: success code and no answers |
| DnsQuery.QueryId | cmd/dns-server/main.go:141-147 | only "c-" and "m-" labels carry an id: the text after the last '-' |
| DnsQuery.QueryIdOfChunkLabel | cmd/dns-server/main.go:141-147 | the id of a chunk label "c-<index>-<id>" reads back |
| DnsQuery.QueryIdOfManifestLabel | cmd/dns-server/main.go:141-147 | the id of a manifest label "m-<id>" reads back |
| DnsQuery.SplitDotted | cmd/dns-server/main.go:114-138 | a normalised "<label>.<zone>" has at least two labels, and the first is the label |
| StoreState.Insert | internal/dns-server/storage.go:100-129 | storing a fresh id adds exactly that id to the messages |
| StoreState.Deliver | internal/dns-server/storage.go:190-216 | delivery keeps the set of stored ids |
| StoreState.Consume | internal/dns-server/storage.go:219-235 | consumption keeps the set of stored ids |
| StoreState.EmptyStoreValid | internal/dns-server/storage.go:91-97 | a new store satisfies the store invariant |
| StoreState.InsertValid | internal/dns-server/storage.go:100-129 | storing a fresh message keeps the invariant: keyed by id, counters exact, chunk index owned by stored messages |
| StoreState.DeliverValid | internal/dns-server/storage.go:190-216 | delivery keeps the invariant |
| StoreState.ConsumeValid | internal/dns-server/storage.go:219-235 | consumption keeps the invariant |
| StoreState.ExpireValid | internal/dns-server/storage.go:251-279 | expiry keeps the invariant |
| StoreState.ConsumeIdempotent | internal/dns-server/storage.go:219-235 | acknowledging twice is acknowledging once, and the message stays Consumed |
| StoreState.DeliverNewFor | internal/dns-server/storage.go:190-216 | handing a message to a client takes it out of what is new for that client, and nothing else |
| StoreState.DeliverAllNewFor | internal/dns-server/storage.go:431-449 | handing out a list of ids takes exactly those ids out of what is new for the client |
| StoreState.DeliverAllValid | internal/dns-server/storage.go:431-449 | handing out a list of stored ids keeps the invariant |
| StoreState.ExpiringDone | internal/dns-server/storage.go:261-275 | once every message has been visited, the removed messages are exactly those created before the cutoff |
| Storage.CopyChunks | internal/dns-server/storage.go:119-121 | copying entry by entry gives the union, with the copied entries winning |
| Storage.DeleteChunks | internal/dns-server/storage.go:264-266 | deleting name by name removes exactly those names |
| Storage.StoreInto | internal/dns-server/storage.go:100-129 | the store after StoreMessage of a fresh id |
| Storage.ExpireFields | internal/dns-server/storage.go:261-275 | the loop removes exactly the expired messages and their chunk names, and counts them and their chunks |
| Storage.ExpireFrom | internal/dns-server/storage.go:251-279 | CleanExpired on a store value, returning the number removed |
| Storage.RebuildChunks | internal/dns-server/storage.go:388-394 | after a load, the chunk index names exactly the chunk names of the stored messages, each holding data a stored message holds |
| Storage.MemoryStorage.constructor | internal/dns-server/storage.go:91-97 | empty maps, zero counters, invariant holds |
| Storage.MemoryStorage.StoreMessage | internal/dns-server/storage.go:100-129 | a known id is refused with nothing changed; otherwise the message is stored as New and the invariant kept |
| Storage.MemoryStorage.GetMessage | internal/dns-server/storage.go:132-142 | found exactly when stored, and then it is the stored message, carrying its id |
| Storage.MemoryStorage.GetChunk | internal/dns-server/storage.go:145-158 | a lookup by chunk name alone; found data is held by some stored message |
| Storage.MemoryStorage.SeenSet | internal/dns-server/storage.go:172-177 | the set of ids already handed to the client |
| Storage.MemoryStorage.GetNewMessages | internal/dns-server/storage.go:161-187 | exactly the stored New messages the client has not seen, each once |
| Storage.MemoryStorage.MarkAsDelivered | internal/dns-server/storage.go:190-216 | an unknown id is an error with nothing changed; otherwise the delivery is recorded and the invariant kept |
| Storage.MemoryStorage.MarkAsConsumed | internal/dns-server/storage.go:219-235 | an unknown id is an error with nothing changed; otherwise the message is Consumed and the invariant kept |
| Storage.MemoryStorage.ListMessages | internal/dns-server/storage.go:238-248 | every stored message exactly once |
| Storage.MemoryStorage.CleanExpired | internal/dns-server/storage.go:251-279 | the messages created before now - ttl and their chunks leave; the count removed is returned |
| Storage.MemoryStorage.GetStats | internal/dns-server/storage.go:282-287 | under the invariant, the totals count the stored messages and their chunks |
| Storage.StatusTextDistinct | internal/dns-server/storage.go:457-476 | two messages get the same status text exactly when they are in the same state, with the same delivery count when delivered |
| Storage.QueueManager.constructor | internal/dns-server/storage.go:410-414 | the queue manager works on the given store |
| Storage.QueueManager.PublishMessage | internal/dns-server/storage.go:417-428 | a known id is refused with nothing changed; otherwise a New message with one expected chunk per chunk given |
| Storage.QueueManager.ConsumeMessages | internal/dns-server/storage.go:431-449 | returns exactly the messages new to the client, each once, all delivered; nothing is new for the client afterwards |
| Storage.QueueManager.AcknowledgeMessage | internal/dns-server/storage.go:452-454 | an unknown id is an error with nothing changed; otherwise the message is Consumed |
| Storage.QueueManager.GetMessageStatus | internal/dns-server/storage.go:457-476 | found exactly when stored, and then the message's status text |
| SimulaServer.ProcessChunks | cmd/simula-server/main.go:121-127 | every uploaded chunk is filed under the first label of its name |
| SimulaServer.FiledUnshared | cmd/simula-server/main.go:121-127 | a name whose first label no other name shares is filed with its own data, and the keys are exactly the first labels |
| SimulaServer.Selected | cmd/simula-server/main.go:293-302 | a non-empty value is the message's manifest or one of its chunks |
| SimulaServer.TxtLookup | cmd/simula-server/main.go:260-319 | a found answer is the manifest or a chunk of the message named by the label's id |
| SimulaServer.RespondAnswers | cmd/simula-server/main.go:245-257 | the answer section is what it held plus every answer the TXT questions find, in order |
| SimulaServer.RespondNoTxt | cmd/simula-server/main.go:245-257 | a request without TXT questions leaves the reply as SetReply made it |
| SimulaServer.LookupSingleLabel | cmd/simula-server/main.go:261-267 | a name with a single label is NXDOMAIN |
| SimulaServer.LookupChunk | cmd/simula-server/main.go:260-319 | "c-<index>-<id>.<zone>" is served from the chunk filed under that label |
| SimulaServer.LookupManifest | cmd/simula-server/main.go:260-319 | "m-<id>.<zone>" is served the stored manifest |
| SimulaServer.LookupTimePrefixed | cmd/simula-server/main.go:269-283 | a label with the encoder's minute prefix carries no id, so it is NXDOMAIN |
| SimulaServer.UploadThenLookup | cmd/simula-server/main.go:102-144 | a chunk uploaded as "c-<index>-<id>.<zone>" is served to a query for that name |
| SimulaServer.SimulationServer.constructor | cmd/simula-server/main.go:29-52 | the server works on the given store |
| SimulaServer.SimulationServer.HandleUpload | cmd/simula-server/main.go:102-144 | a known id is refused; otherwise the chunks, filed by first label, are published under the id |
| SimulaServer.SimulationServer.HandleGetMessages | cmd/simula-server/main.go:147-181 | the ids of exactly the messages new to the client, or to "default-client", each once, all then delivered |
| SimulaServer.SimulationServer.HandleTXTQuery | cmd/simula-server/main.go:260-319 | the reply gains the lookup's answer and its response code |
| SimulaServer.SimulationServer.HandleDNSRequest | cmd/simula-server/main.go:245-257 | a fresh reply with every TXT question answered in order |
| DnsServer.ChunkTarget | cmd/dns-server/main.go:132-163 | a served target is a stored message named by the first label's id, and a chunk target's label is not "m-" |
| DnsServer.Served | cmd/dns-server/main.go:174-186 | one answer exactly when the value is non-empty |
| DnsServer.FindChunk | cmd/dns-server/main.go:165-171 | empty when no chunk name contains the label; otherwise the data of some chunk whose name contains it |
| DnsServer.ChunkReplyAppends | cmd/dns-server/main.go:130-187 | a chunk query adds at most one answer after those already there, and it is served from a stored message |
| DnsServer.ChunkReplyUnique | cmd/dns-server/main.go:130-187 | a chunk asked for by its label is served when exactly one chunk name of the message contains the label |
| DnsServer.CollectIds | cmd/dns-server/main.go:200-203 | the ids of the consumed messages, in order |
| DnsServer.ConsumeAnswerReadsBack | cmd/dns-server/main.go:206 | the comma-joined ids split back into the ids |
| DnsServer.ParseZoneLine | cmd/dns-server/main.go:228-238 | a parsed line holds " IN TXT ", and the value fits in the line |
| DnsServer.ReadZoneChunkNames | cmd/dns-server/main.go:239-243 | every chunk name read contains "c-" and not "m-" |
| DnsServer.ReadZoneChunkSource | cmd/dns-server/main.go:226-247 | each chunk read holds the value of a zone line naming it |
| DnsServer.ReadZoneManifestSource | cmd/dns-server/main.go:226-247 | a manifest read is the value of some manifest line of the zone |
| DnsServer.ParseZoneLineOfZoneLine | internal/chunker/dns_encoder.go:357 | a line GenerateZoneFile writes for a TXT record with a plain name parses back to that name and value |
| DnsServer.ReadZoneTakesChunkLine | cmd/dns-server/main.go:226-247 | a record line of a chunk name files the chunk under its name |
| DnsServer.DNSServer.constructor | cmd/dns-server/main.go:76-97 | the server works on the given store |
| DnsServer.DNSServer.HandleChunkQuery | cmd/dns-server/main.go:130-187 | at most one answer is added, the response code is untouched, and the answer comes from the store |
| DnsServer.DNSServer.HandleConsume | cmd/dns-server/main.go:189-219 | the client's new messages are consumed, and their comma-joined ids are answered with TTL 60 when there are any |
| DnsServer.DNSServer.HandleTXT | cmd/dns-server/main.go:113-128 | a name containing "consume." consumes for "client-default"; any other name is a chunk query |
| DnsServer.DNSServer.HandleDNSRequest | cmd/dns-server/main.go:99-111 | a fresh successful reply with at most one answer per question; without consume queries, the store is unchanged |
| DnsServer.DNSServer.LoadChunkedMessage | cmd/dns-server/main.go:221-254 | the zone's chunk lines are published as one message with the last manifest; a zone without chunks is an error that changes nothing |
| Stego.PixelBits | internal/decoder/decoder.go:45-49 | a pixel gives its red, green and blue lowest bits, in that order |
| Stego.GridBitsLength | internal/decoder/decoder.go:33-56 | an image of h rows of w pixels gives 3wh bits |
| Stego.GridBitsAt | internal/decoder/decoder.go:40-56 | bit 3(yw + x) + c of the stream is the lowest bit of channel c of pixel (y, x) |
| Stego.SecurePayload | internal/decoder/decoder.go:62-121 | an accepted payload is at least 64 bytes, fits the stream, and is the packing of the bits after the header |
| Stego.SecurePayloadAccepts | internal/decoder/decoder.go:84-112 | a length within bounds and the bytes read after it give that payload |
| Stego.BitOrFreshBit | internal/decoder/decoder.go:73 | or-ing a clear bit k adds 2^k |
| Stego.GatherByte | internal/decoder/decoder.go:69-77 | the inner loop reads one byte most significant bit first |
| Stego.SecureStegoDecoder.constructor | internal/decoder/decoder.go:21-29 | width and height are those of the image |
| Stego.SecureStegoDecoder.ExtractBitStream | internal/decoder/decoder.go:32-59 | the bits are the lowest bits of every pixel, row by row |
| Stego.SecureStegoDecoder.ExtractSecurePayload | internal/decoder/decoder.go:62-121 | the checks in order: header, length within the stream, minimum size; on success the payload is stored, and an error changes nothing |
| Stego.EmbedBit | internal/encoder/encoder.go:33-41 | the lowest bit becomes the given bit, and the other seven bits stay |
| Stego.EmbedOwnBit | internal/encoder/encoder.go:33-41 | embedding the bit a channel already holds leaves it unchanged |
| Stego.HeightFits | internal/encoder/utils.go:13-16 | the computed image holds every bit of the payload |
| Stego.ExpandBits | internal/encoder/encoder.go:55-60 | the bit array is the most-significant-first expansion of the payload |
| Stego.EmbedPixelBits | internal/encoder/encoder.go:77-102 | the three channel steps of one pixel give the pixel EmbedPixel describes, and the bit index moves past its three bits or stops at the end of the stream |
| Stego.EmbedBits | internal/encoder/encoder.go:69-111 | the image is the base colours with the stream written into the lowest bits in row-major order; the bit index stops at the end of the stream |
| Stego.SecureStegoEncoder.constructor | internal/encoder/encoder.go:44-53 | the encoder holds the prepared payload and the width |
| Stego.SecureStegoEncoder.CreateStegoImage | internal/encoder/encoder.go:44-117 | the image has the computed height, and every pixel is the embedding of the payload's bits into its base colour |
| Stego.EmbedThenExtract | internal/encoder/encoder.go:69-111 | the decoder's stream of an embedded image starts with the embedded bits |
| Stego.StreamDecodes | internal/decoder/decoder.go:62-121 | a stream that starts with a big-endian length and that many bytes decodes to those bytes |
| Stego.PayloadFits | internal/encoder/crypto.go:93-118 | the image computed for a payload with its 4-byte header, body and padding holds all its bits |
| Stego.PayloadRoundTrip | internal/encoder/crypto.go:93-118 | a body of at least 64 bytes, laid out as its big-endian length, the body and any padding, embedded into an image sized for all of it and extracted, comes back unchanged |

## Left out

- HTTP handling, JSON, logging and printing, mutex locking, and FileStorage's file reading and writing are not modelled. Of FileStorage.Load, only the chunk-index rebuild is modelled (`Storage.RebuildChunks`).
- The simulation server's handleConsume and handleStatus are not modelled. They are HTTP wrappers around `Storage.QueueManager.ConsumeMessages` and `Storage.QueueManager.GetMessageStatus`.
- Message ids (SHA-256 of the data and the time), clocks and random base colours are parameters (`id`, `now`, `unix`, `clock`, `noise`).
- The chunking time statistic and calculateOverhead are left out, because they are floating point and wall-clock time.
- `PayloadPerChunkBase32` is the constant 138. The program computes it in floating point.
- Base32.Base32Decode: every character outside the alphabet is an error. The Go library instead skips carriage returns and newlines before decoding.
- Maps are finite maps, so the order of Go's map iteration is not modelled. Where the order matters, the methods choose an element with `:|` and their contracts hold for every choice:
  - GetNewMessages, ListMessages and CleanExpired;
  - the chunk search of handleChunkQuery;
  - the first-label collisions of handleUpload.
- Messages are values, so a `*Message` shared by the store and a caller is not modelled as aliased: a change made through one is not seen through the other.
- strings.ToLower is modelled on the ASCII letters only.
- createChunkRecord panics when the shortened id is sliced out of range. The clock readings that would cause this are excluded by `DnsNames.LabelFits` in the preconditions.
- Encryption is not modelled: the AES-GCM encryption of PrepareSecurePayload and the key derivation. The secure payload is taken as its 4-byte big-endian length, the body (salt, nonce, ciphertext and tag as one byte string), then the random padding. The padding bytes and their length (128 to 383) are a parameter (`pad`).
- Images are rows of 8-bit RGB pixels. Image files, the 16-bit `RGBA()` values (shifted right by 8) and the alpha channel (always 255) are not modelled.
- CalculateImageDimensions uses floating-point ceilings. They are modelled as integer ceilings, which agree for all sizes the program can represent.
- `Stego.SecureStegoEncoder.CreateStegoImage` requires a positive width. The Go code divides by the width.
- `Stego.SecureStegoEncoder.CreateStegoImage` also requires the base colours to match the computed size.
- Reassembly.SortBySequence: Go's sort.Slice is not stable, while the model's insertion sort is. With duplicate sequence numbers, reassembly fails either way, but which error is reported can differ, not only its position. For example, with sequences 0, 1, 1 and a bad checksum on the first chunk 1, the model reports that checksum, while Go may place the good duplicate first and report a sequence error at position 2.
- Storage.MemoryStorage.CleanExpired: its contract does not restate the store invariant. That the invariant is kept is proved on the store value by `StoreState.ExpireValid`.
- DnsServer.DNSServer.HandleDNSRequest: states bounds and the no-consume case rather than the exact answer section, because the chunk search may pick any matching chunk.
- DnsServer.DNSServer.HandleChunkQuery: the served chunk is pinned down only when exactly one chunk name contains the label (`DnsServer.ChunkReplyUnique`). Otherwise it is some matching chunk.
- Stego.SecureStegoDecoder.ExtractSecurePayload: the "unexpected end of bit stream" branch is not modelled. The length check before it makes it unreachable.
- DnsEncoder.ParseFromDNS: the count check only prints a warning, so it is left out.

## Findings

| source | as written | input that shows it | evidently intended | confidence | as-written member | corrected member |
|---|---|---|---|---|---|---|
| internal/chunker/dns_encoder.go:171-180 | sanitizeForDNS trims hyphens before it cuts to 63 characters, so the cut can leave a trailing hyphen | 62 × "a", then "-b": the result is 62 × "a" followed by "-" | a valid label: no trailing hyphen, as the comment at dns_encoder.go:42 states | not executed | DnsNames.SanitizeLeavesTrailingHyphen | DnsNames.SanitizeLabel |
| internal/chunker/dns_encoder.go:233-239 | ParseFromDNS looks for ".m-" and ".c-" in the record name, but EncodeToDNS puts "m-" and "c-" at the start of the name, with no dot before them | any message encoded under a domain without ".c-" or ".m-": no chunk and no manifest are found | classify by the first label, as the record names are built | not executed | DnsEncoder.ParseMissesEncodedRecords | DnsEncoder.ParseByFirstLabelOfEncoded |
