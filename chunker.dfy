/** The chunker: fragments a message into framed chunks and reassembles them,
    keeping running statistics. */
module Chunking {
  import opened Bytes
  import opened Frame
  import opened Reassembly

  const MaxUint16: nat := 0xFFFF

  datatype Message = Message(id: MessageId, data: bytes, chunks: seq<Chunk>, encoding: string, createdAt: int)

  datatype ChunkingStats = ChunkingStats(messagesChunked: nat, totalChunks: nat, totalBytes: nat)

  datatype ChunkError = MessageTooLarge(required: nat, max: nat)

  /** Chunk `i` starts at byte i*p, which lies inside the data. */
  lemma ChunkStartInside(n: nat, p: nat, i: nat)
    requires p > 0 && i < TotalChunks(n, p)
    ensures i * p < n
  {
    TotalChunksBounds(n, p);
    MulLe(i, TotalChunks(n, p) - 1, p);
  }

  lemma {:induction false} MulLe(a: nat, b: nat, p: nat)
    requires a <= b
    ensures a * p <= b * p
  {
    if a < b {
      MulLe(a, b - 1, p);
      assert (b - 1) * p + p == b * p;
    }
  }

  /** data[i*p : min(i*p + p, len(data))] */
  function ChunkPayload(data: bytes, i: nat, p: nat): (payload: bytes)
    requires i * p <= |data|
    ensures |payload| <= p
  {
    var start := i * p;
    var end := if start + p > |data| then |data| else start + p;
    data[start..end]
  }

  /** createChunk: chunk `i` of `total`, with every header field filled in. */
  function ChunkAt(config: ChunkerConfig, data: bytes, id: MessageId, i: nat, total: uint16, now: int): (c: Chunk)
    requires i < total as int && i * PayloadSize(config.encoding) <= |data|
  {
    var payload := ChunkPayload(data, i, PayloadSize(config.encoding));
    MakeChunk(config, ChunkMetadata(ChunkMagic, id, i, total, Checksum(payload), now, |payload|), payload)
  }

  function MakeChunk(config: ChunkerConfig, m: ChunkMetadata, payload: bytes): Chunk
  {
    Chunk(m, payload, EncodeText(config.encoding, RawFrame(m, payload)), GenerateRecordName(config, m))
  }

  predicate Fits(config: ChunkerConfig, n: nat)
  {
    TotalChunks(n, PayloadSize(config.encoding)) <= MaxUint16
  }

  /** The chunks of a message, in sequence order. */
  function Fragments(config: ChunkerConfig, data: bytes, id: MessageId, now: int): (cs: seq<Chunk>)
    requires Fits(config, |data|)
    ensures |cs| == TotalChunks(|data|, PayloadSize(config.encoding))
  {
    var total := TotalChunks(|data|, PayloadSize(config.encoding));
    seq(total, i requires 0 <= i < total =>
      ChunkStartInside(|data|, PayloadSize(config.encoding), i);
      ChunkAt(config, data, id, i, total, now))
  }

  function Min(a: nat, b: nat): nat
  {
    if a < b then a else b
  }

  /** A chunk's payload is non-empty, and full unless it is the last one. */
  lemma ChunkPayloadShape(data: bytes, i: nat, p: nat)
    requires p > 0 && i < TotalChunks(|data|, p)
    ensures i * p < |data|
    ensures var c := ChunkPayload(data, i, p);
            0 < |c| && c == data[i * p .. i * p + |c|] &&
            (i < TotalChunks(|data|, p) - 1 ==> |c| == p)
  {
    ChunkStartInside(|data|, p, i);
    if i < TotalChunks(|data|, p) - 1 {
      ChunkStartInside(|data|, p, i + 1);
      assert (i + 1) * p == i * p + p;
    }
  }

  /** The payloads before chunk k, joined with chunk k's, reach k*p + p. */
  lemma PayloadsJoin(data: bytes, k: nat, p: nat)
    requires p > 0 && k < TotalChunks(|data|, p)
    ensures k * p <= |data|
    ensures data[..k * p] + ChunkPayload(data, k, p) == data[..Min((k + 1) * p, |data|)]
  {
    ChunkStartInside(|data|, p, k);
    var start := k * p;
    assert (k + 1) * p == start + p;
  }

  lemma FragmentAt(config: ChunkerConfig, data: bytes, id: MessageId, now: int, i: nat)
    requires Fits(config, |data|)
    requires i < |Fragments(config, data, id, now)|
    ensures i * PayloadSize(config.encoding) <= |data|
    ensures Fragments(config, data, id, now)[i] == ChunkAt(config, data, id, i, |Fragments(config, data, id, now)|, now)
  {
    ChunkStartInside(|data|, PayloadSize(config.encoding), i);
  }

  /** The first i + 1 chunks are the first i and chunk i. */
  lemma FragmentsSnoc(config: ChunkerConfig, data: bytes, id: MessageId, now: int, i: nat)
    requires Fits(config, |data|)
    requires i < TotalChunks(|data|, PayloadSize(config.encoding))
    ensures i * PayloadSize(config.encoding) <= |data|
    ensures var total := TotalChunks(|data|, PayloadSize(config.encoding)) as uint16;
            Fragments(config, data, id, now)[..i + 1] ==
            Fragments(config, data, id, now)[..i] + [ChunkAt(config, data, id, i, total, now)]
  {
    var cs := Fragments(config, data, id, now);
    FragmentAt(config, data, id, now, i);
    assert cs[..i + 1] == cs[..i] + [cs[i]];
  }

  /** The header of chunk `i` of `total`. */
  lemma ChunkAtShape(config: ChunkerConfig, data: bytes, id: MessageId, i: nat, total: uint16, now: int)
    requires i < total as int && i * PayloadSize(config.encoding) <= |data|
    ensures var c := ChunkAt(config, data, id, i, total, now);
            c.metadata == ChunkMetadata(ChunkMagic, id, i, total, Checksum(c.payload), now, |c.payload|) &&
            c.payload == ChunkPayload(data, i, PayloadSize(config.encoding)) &&
            c.encoded == EncodeText(config.encoding, RawFrame(c.metadata, c.payload))
  {
  }

  /** Chunk `i` carries sequence `i` and the total, holds a non-empty payload
      of at most p bytes, exactly p for all but the last chunk, and its header
      records the payload's checksum and size. */
  lemma FragmentShape(config: ChunkerConfig, data: bytes, id: MessageId, now: int, i: nat)
    requires Fits(config, |data|)
    requires i < |Fragments(config, data, id, now)|
    ensures i * PayloadSize(config.encoding) < |data|
    ensures var cs := Fragments(config, data, id, now);
            var p := PayloadSize(config.encoding);
            var c := cs[i];
            var m := c.metadata;
            m.magic == ChunkMagic && m.messageId == id && m.sequence as int == i &&
            m.totalChunks as int == |cs| && m.checksum == Checksum(c.payload) &&
            m.timestamp == now && m.payloadSize as int == |c.payload| &&
            c.payload == ChunkPayload(data, i, p) &&
            c.encoded == EncodeText(config.encoding, RawFrame(m, c.payload)) &&
            0 < |c.payload| <= p &&
            (i < |cs| - 1 ==> |c.payload| == p)
  {
    var cs := Fragments(config, data, id, now);
    FragmentAt(config, data, id, now, i);
    ChunkAtShape(config, data, id, i, |cs|, now);
    ChunkPayloadShape(data, i, PayloadSize(config.encoding));
  }

  lemma {:induction false} FragmentsConcatPrefix(config: ChunkerConfig, data: bytes, id: MessageId, now: int, k: nat)
    requires Fits(config, |data|)
    requires k <= |Fragments(config, data, id, now)|
    ensures ConcatPayloads(Fragments(config, data, id, now)[..k]) == data[..Min(k * PayloadSize(config.encoding), |data|)]
  {
    var cs := Fragments(config, data, id, now);
    var p := PayloadSize(config.encoding);
    if k > 0 {
      FragmentsConcatPrefix(config, data, id, now, k - 1);
      FragmentShape(config, data, id, now, k - 1);
      assert cs[..k][..k - 1] == cs[..k - 1];
      PayloadsJoin(data, k - 1, p);
      assert Min((k - 1) * p, |data|) == (k - 1) * p;
    }
  }

  /** The payloads, concatenated in order, are the data. */
  lemma FragmentsConcat(config: ChunkerConfig, data: bytes, id: MessageId, now: int)
    requires Fits(config, |data|)
    ensures ConcatPayloads(Fragments(config, data, id, now)) == data
  {
    var cs := Fragments(config, data, id, now);
    FragmentsConcatPrefix(config, data, id, now, |cs|);
    TotalChunksBounds(|data|, PayloadSize(config.encoding));
    assert cs[..|cs|] == cs;
    assert Min(|cs| * PayloadSize(config.encoding), |data|) == |data|;
    assert data[..|data|] == data;
  }

  /** Every chunk the chunker makes passes ValidateChunk. */
  lemma FragmentsValidate(config: ChunkerConfig, data: bytes, id: MessageId, now: int)
    requires Fits(config, |data|)
    ensures forall c | c in Fragments(config, data, id, now) :: ValidateChunk(config, c).None?
  {
    var cs := Fragments(config, data, id, now);
    forall c | c in cs ensures ValidateChunk(config, c).None? {
      var i :| 0 <= i < |cs| && cs[i] == c;
      FragmentShape(config, data, id, now, i);
    }
  }

  /** The text of every chunk decodes to the chunk itself, except that the
      timestamp is not carried and no record name is set. */
  lemma FragmentsDecode(config: ChunkerConfig, data: bytes, id: MessageId, now: int, i: nat)
    requires Fits(config, |data|)
    requires i < |Fragments(config, data, id, now)|
    ensures var c := Fragments(config, data, id, now)[i];
            DecodeChunk(config, c.encoded) == Ok(Chunk(c.metadata.(timestamp := 0), c.payload, c.encoded, ""))
  {
    FragmentShape(config, data, id, now, i);
    DecodeChunkOfFrame(config, Fragments(config, data, id, now)[i]);
  }

  /** Reassembling the chunks of non-empty data gives the data back. */
  lemma FragmentsReassemble(config: ChunkerConfig, data: bytes, id: MessageId, now: int)
    requires Fits(config, |data|) && |data| > 0
    ensures Reassemble(Fragments(config, data, id, now)) == Ok(data)
  {
    var cs := Fragments(config, data, id, now);
    TotalChunksBounds(|data|, PayloadSize(config.encoding));
    forall i | 0 <= i < |cs| ensures Key(cs[i]) == i && cs[i].metadata.messageId == id &&
      cs[i].metadata.totalChunks as int == |cs| && Checksum(cs[i].payload) == cs[i].metadata.checksum {
      FragmentShape(config, data, id, now, i);
    }
    ReassembleOfOrdered(cs, id);
    FragmentsConcat(config, data, id, now);
  }

  /** Empty data makes no chunks, and no chunks is the first reassembly error. */
  lemma FragmentsOfEmpty(config: ChunkerConfig, id: MessageId, now: int)
    ensures Fits(config, 0)
    ensures Fragments(config, [], id, now) == []
    ensures Reassemble(Fragments(config, [], id, now)) == Err(NoChunks)
  {
    TotalChunksBounds(0, PayloadSize(config.encoding));
  }

  class Chunker {
    const config: ChunkerConfig
    var stats: ChunkingStats

    /** NewChunker: base32 and 250 are the defaults for an empty encoding and a
        zero size. */
    constructor (cfg: ChunkerConfig)
      ensures config.encoding == (if cfg.encoding == "" then EncodeBase32 else cfg.encoding)
      ensures config.maxChunkSize == (if cfg.maxChunkSize == 0 then SafeChunkSize as int else cfg.maxChunkSize)
      ensures config.dnsNamePrefix == cfg.dnsNamePrefix
      ensures config.addRedundancy == cfg.addRedundancy && config.compression == cfg.compression
      ensures stats == ChunkingStats(0, 0, 0)
    {
      var c := cfg;
      if c.encoding == "" {
        c := c.(encoding := EncodeBase32);
      }
      if c.maxChunkSize == 0 {
        c := c.(maxChunkSize := SafeChunkSize);
      }
      config := c;
      stats := ChunkingStats(0, 0, 0);
    }

    method CreateChunk(data: bytes, id: MessageId, i: nat, total: uint16, now: int) returns (c: Chunk)
      requires i < total as int && i * PayloadSize(config.encoding) <= |data|
      ensures c == ChunkAt(config, data, id, i, total, now)
    {
      var p := PayloadSize(config.encoding);
      var start := i * p;
      var end := start + p;
      if end > |data| {
        end := |data|;
      }
      var payload := data[start..end];
      var sum := CalculateChecksum(payload);
      var m := ChunkMetadata(ChunkMagic, id, i, total, sum, now, |payload|);
      var encoded := EncodeChunk(config, m, payload);
      c := Chunk(m, payload, encoded, GenerateRecordName(config, m));
    }

    /** ChunkMessage: more than 65535 chunks is an error that leaves the
        statistics alone; otherwise every chunk is created in order and the
        statistics count the message, its chunks and its bytes. */
    method ChunkMessage(data: bytes, id: MessageId, now: int) returns (r: Result<Message, ChunkError>)
      modifies this`stats
      ensures var total := TotalChunks(|data|, PayloadSize(config.encoding));
        if total > MaxUint16 then
          r == Err(MessageTooLarge(total, MaxUint16)) && stats == old(stats)
        else
          r == Ok(Message(id, data, Fragments(config, data, id, now), config.encoding, now)) &&
          stats == ChunkingStats(old(stats.messagesChunked) + 1, old(stats.totalChunks) + total,
                                 old(stats.totalBytes) + |data|)
    {
      var payloadSize := PayloadSize(config.encoding);
      var totalChunks := TotalChunks(|data|, payloadSize);
      if totalChunks > MaxUint16 {
        return Err(MessageTooLarge(totalChunks, MaxUint16));
      }
      var chunks := CreateChunks(data, id, now);
      stats := stats.(messagesChunked := stats.messagesChunked + 1);
      stats := stats.(totalChunks := stats.totalChunks + totalChunks);
      stats := stats.(totalBytes := stats.totalBytes + |data|);
      r := Ok(Message(id, data, chunks, config.encoding, now));
    }

    /** The loop of ChunkMessage: chunk 0 up to the last, appended in order. */
    method CreateChunks(data: bytes, id: MessageId, now: int) returns (chunks: seq<Chunk>)
      requires Fits(config, |data|)
      ensures chunks == Fragments(config, data, id, now)
    {
      var cfg := config;
      var totalChunks := TotalChunks(|data|, PayloadSize(cfg.encoding));
      chunks := [];
      for i := 0 to totalChunks
        invariant chunks == Fragments(cfg, data, id, now)[..i]
      {
        FragmentsSnoc(cfg, data, id, now, i);
        var chunk := CreateChunk(data, id, i, totalChunks as uint16, now);
        chunks := chunks + [chunk];
      }
      assert Fragments(cfg, data, id, now)[..totalChunks] == Fragments(cfg, data, id, now);
    }

    /** findMissingChunks: a presence map, then a scan of 0 .. total-1. */
    method FindMissingChunks(chunks: seq<Chunk>, total: uint16) returns (missing: seq<uint16>)
      ensures missing == MissingBelow(chunks, total as int)
    {
      var present: map<uint16, bool> := map[];
      for i := 0 to |chunks|
        invariant forall k | k in present :: present[k]
        invariant forall k: uint16 :: k in present <==> exists j | 0 <= j < i :: Key(chunks[j]) == k
      {
        present := present[chunks[i].metadata.sequence := true];
      }
      missing := [];
      var i: uint16 := 0;
      while i < total
        invariant i <= total
        invariant missing == MissingBelow(chunks, i as int)
      {
        assert HasSequence(chunks, i as int) <==> i in present;
        if !(i in present && present[i]) {
          missing := missing + [i];
        }
        i := i + 1;
      }
    }

    /** ReassembleMessage: checks the chunks, sorts the caller's array by
        sequence number, checks positions and checksums, then concatenates
        the payloads. The array is reordered only once the count check has
        passed. */
    method ReassembleMessage(chunks: array<Chunk>) returns (r: Result<bytes, ReassembleError>)
      modifies chunks
      ensures r == Reassemble(old(chunks[..]))
      ensures chunks[..] == if ReachesSort(old(chunks[..])) then SortBySequence(old(chunks[..])) else old(chunks[..])
    {
      if chunks.Length == 0 {
        return Err(NoChunks);
      }
      var messageId := chunks[0].metadata.messageId;
      var totalExpected := chunks[0].metadata.totalChunks;
      var inconsistent := CheckConsistency(chunks, messageId, totalExpected);
      if inconsistent.Some? {
        return Err(inconsistent.value);
      }
      if chunks.Length != totalExpected as int {
        var missing := FindMissingChunks(chunks[..], totalExpected);
        return Err(IncompleteMessage(missing));
      }
      SortInPlace(chunks);
      var bad := CheckPositions(chunks);
      if bad.Some? {
        return Err(bad.value);
      }
      var reassembled := JoinPayloads(chunks);
      r := Ok(reassembled);
    }
  }

  /** The first loop of ReassembleMessage: the first chunk of another message
      or with another total, reported as the error it raises. */
  method CheckConsistency(chunks: array<Chunk>, id: MessageId, total: uint16) returns (e: Option<ReassembleError>)
    ensures e == FirstInconsistency(chunks[..], id, total, 0)
  {
    for i := 0 to chunks.Length
      invariant FirstInconsistency(chunks[..], id, total, 0) == FirstInconsistency(chunks[..], id, total, i)
    {
      var chunk := chunks[i];
      if chunk.metadata.messageId != id {
        return Some(MixedMessages(id, chunk.metadata.messageId));
      }
      if chunk.metadata.totalChunks != total {
        return Some(InconsistentTotal(total, chunk.metadata.totalChunks));
      }
    }
    return None;
  }

  /** The loop over the sorted chunks: the first position holding another
      sequence number or a payload failing its checksum. */
  method CheckPositions(chunks: array<Chunk>) returns (e: Option<ReassembleError>)
    ensures e == FirstBadPosition(chunks[..], 0)
  {
    for i := 0 to chunks.Length
      invariant FirstBadPosition(chunks[..], 0) == FirstBadPosition(chunks[..], i)
    {
      var chunk := chunks[i];
      if chunk.metadata.sequence as int != i {
        return Some(SequenceError(i));
      }
      var calculated := CalculateChecksum(chunk.payload);
      if calculated != chunk.metadata.checksum {
        return Some(ChecksumFailed(i));
      }
    }
    return None;
  }

  /** The payloads appended in array order. */
  method JoinPayloads(chunks: array<Chunk>) returns (data: bytes)
    ensures data == ConcatPayloads(chunks[..])
  {
    data := [];
    for i := 0 to chunks.Length
      invariant data == ConcatPayloads(chunks[..i])
    {
      data := data + chunks[i].payload;
      assert chunks[..i + 1][..i] == chunks[..i];
    }
    assert chunks[..chunks.Length] == chunks[..];
  }

  /** Sorts the array by sequence number, inserting each element into the
      sorted prefix before it; the result is the stable functional sort. */
  method SortInPlace(a: array<Chunk>)
    modifies a
    ensures a[..] == SortBySequence(old(a[..]))
  {
    ghost var input := a[..];
    for i := 0 to a.Length
      invariant a[..i] == SortBySequence(input[..i])
      invariant a[i..] == input[i..]
    {
      InsertLast(a, i);
      assert input[..i + 1][..i] == input[..i];
      assert a[i + 1..] == input[i + 1..];
    }
    assert input[..a.Length] == input;
  }

  /** Moves a[i] left past the larger elements before it. */
  method InsertLast(a: array<Chunk>, i: nat)
    requires i < a.Length
    modifies a
    ensures a[..i + 1] == InsertBySequence(old(a[..i]), old(a[i]))
    ensures a[i + 1..] == old(a[i + 1..])
  {
    ghost var prefix := a[..i];
    var x := a[i];
    var j := ShiftLarger(a, i);
    InsertBySequenceAt(prefix, x, j);
    assert a[..i + 1] == prefix[..j] + [x] + prefix[j..];
  }

  /** The loop of the insertion: the elements before a[i] that are larger
      than it move one place right, and a[i] lands at the returned index. */
  method ShiftLarger(a: array<Chunk>, i: nat) returns (j: nat)
    requires i < a.Length
    modifies a
    ensures j <= i
    ensures forall k | 0 <= k < j :: a[k] == old(a[k])
    ensures a[j] == old(a[i])
    ensures forall k | j < k <= i :: a[k] == old(a[k - 1])
    ensures forall k | i < k < a.Length :: a[k] == old(a[k])
    ensures forall k | j <= k < i :: Key(old(a[k])) > Key(old(a[i]))
    ensures j == 0 || Key(old(a[j - 1])) <= Key(old(a[i]))
  {
    var x := a[i];
    j := i;
    while j > 0 && Key(a[j - 1]) > Key(x)
      invariant 0 <= j <= i
      invariant forall k | 0 <= k < j :: a[k] == old(a[k])
      invariant a[j] == x
      invariant forall k | j < k <= i :: a[k] == old(a[k - 1])
      invariant forall k | i < k < a.Length :: a[k] == old(a[k])
      invariant forall k | j <= k < i :: Key(old(a[k])) > Key(x)
    {
      a[j] := a[j - 1];
      a[j - 1] := x;
      j := j - 1;
    }
  }
}
