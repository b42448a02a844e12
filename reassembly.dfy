/** What reassembly promises: the order of its checks, the stable ordering by
    sequence number it relies on, and the all-or-nothing outcome. */
module Reassembly {
  import opened Bytes
  import opened Frame

  function Key(c: Chunk): uint16
  {
    c.metadata.sequence
  }

  function Keys(s: seq<Chunk>): (k: seq<uint16>)
    ensures |k| == |s| && forall i | 0 <= i < |s| :: k[i] == Key(s[i])
  {
    seq(|s|, i requires 0 <= i < |s| => Key(s[i]))
  }

  predicate SortedBySequence(s: seq<Chunk>)
  {
    forall i, j | 0 <= i < j < |s| :: Key(s[i]) <= Key(s[j])
  }

  /** `x` placed after every element whose sequence is not larger. */
  function InsertBySequence(s: seq<Chunk>, x: Chunk): (r: seq<Chunk>)
    ensures |r| == |s| + 1
  {
    if |s| == 0 || Key(s[|s| - 1]) <= Key(x) then s + [x]
    else InsertBySequence(s[..|s| - 1], x) + [s[|s| - 1]]
  }

  /** A stable sort by sequence number. */
  function SortBySequence(s: seq<Chunk>): (r: seq<Chunk>)
    ensures |r| == |s|
  {
    if |s| == 0 then [] else InsertBySequence(SortBySequence(s[..|s| - 1]), s[|s| - 1])
  }

  /** Where insertion puts `x` when all of s[j..] are larger and s[j-1] is not. */
  lemma {:induction false} InsertBySequenceAt(s: seq<Chunk>, x: Chunk, j: nat)
    requires j <= |s|
    requires forall k | j <= k < |s| :: Key(s[k]) > Key(x)
    requires j == 0 || Key(s[j - 1]) <= Key(x)
    ensures InsertBySequence(s, x) == s[..j] + [x] + s[j..]
  {
    if j < |s| {
      var init := s[..|s| - 1];
      assert init[..j] == s[..j];
      InsertBySequenceAt(init, x, j);
      assert s[j..] == init[j..] + [s[|s| - 1]];
    } else {
      assert s[..j] == s;
    }
  }

  lemma {:induction false} InsertBySequencePerm(s: seq<Chunk>, x: Chunk)
    ensures multiset(InsertBySequence(s, x)) == multiset(s) + multiset{x}
    ensures multiset(Keys(InsertBySequence(s, x))) == multiset(Keys(s)) + multiset{Key(x)}
  {
    if |s| > 0 && Key(s[|s| - 1]) > Key(x) {
      var init := s[..|s| - 1];
      InsertBySequencePerm(init, x);
      assert s == init + [s[|s| - 1]];
      KeysSnoc(init, s[|s| - 1]);
      KeysSnoc(InsertBySequence(init, x), s[|s| - 1]);
    } else {
      KeysSnoc(s, x);
    }
  }

  lemma {:induction false} InsertBySequenceSorted(s: seq<Chunk>, x: Chunk)
    requires SortedBySequence(s)
    ensures SortedBySequence(InsertBySequence(s, x))
    ensures forall k | 0 <= k < |s| + 1 :: InsertBySequence(s, x)[k] == x || InsertBySequence(s, x)[k] in s
  {
    if |s| > 0 && Key(s[|s| - 1]) > Key(x) {
      var init := s[..|s| - 1];
      InsertBySequenceSorted(init, x);
      var r := InsertBySequence(init, x);
      forall k | 0 <= k < |r| ensures Key(r[k]) <= Key(s[|s| - 1]) {
        if r[k] != x {
          var m :| 0 <= m < |init| && init[m] == r[k];
        }
      }
    }
  }

  /** The sort yields a sorted sequence. */
  lemma {:induction false} SortBySequenceSorted(s: seq<Chunk>)
    ensures SortedBySequence(SortBySequence(s))
  {
    if |s| > 0 {
      SortBySequenceSorted(s[..|s| - 1]);
      InsertBySequenceSorted(SortBySequence(s[..|s| - 1]), s[|s| - 1]);
    }
  }

  /** The sort keeps the chunks and their sequence numbers, as multisets. */
  predicate SortPerm(s: seq<Chunk>)
  {
    multiset(SortBySequence(s)) == multiset(s) &&
    multiset(Keys(SortBySequence(s))) == multiset(Keys(s))
  }

  /** The sort is a permutation, of the chunks and of their sequence numbers. */
  lemma {:induction false} SortBySequencePerm(s: seq<Chunk>)
    ensures multiset(SortBySequence(s)) == multiset(s)
    ensures multiset(Keys(SortBySequence(s))) == multiset(Keys(s))
  {
    SortPermAll(s);
  }

  lemma {:induction false} SortPermAll(s: seq<Chunk>)
    ensures SortPerm(s)
  {
    if |s| > 0 {
      var init, last := s[..|s| - 1], s[|s| - 1];
      SortPermAll(init);
      SortPermStep(init, last);
      assert s == init + [last];
    }
  }

  /** One more chunk at the end: the permutation carries over. */
  lemma SortPermStep(init: seq<Chunk>, last: Chunk)
    requires SortPerm(init)
    ensures SortPerm(init + [last])
  {
    var s := init + [last];
    assert s[..|s| - 1] == init;
    InsertBySequencePerm(SortBySequence(init), last);
    KeysSnoc(init, last);
  }

  lemma KeysSnoc(s: seq<Chunk>, x: Chunk)
    ensures Keys(s + [x]) == Keys(s) + [Key(x)]
  {
  }

  lemma SortBySequenceSameElements(s: seq<Chunk>)
    ensures forall c :: c in s <==> c in SortBySequence(s)
  {
    SortBySequencePerm(s);
    forall c ensures c in s <==> c in SortBySequence(s) {
      assert c in s <==> c in multiset(s);
      assert c in SortBySequence(s) <==> c in multiset(SortBySequence(s));
    }
  }

  /** Chunks already in order stay as they are. */
  lemma {:induction false} SortBySequenceOfSorted(s: seq<Chunk>)
    requires SortedBySequence(s)
    ensures SortBySequence(s) == s
  {
    if |s| > 0 {
      var init, last := s[..|s| - 1], s[|s| - 1];
      SortedPrefix(s, |s| - 1);
      SortBySequenceOfSorted(init);
      if |init| > 0 {
        assert init[|init| - 1] == s[|s| - 2];
      }
      assert InsertBySequence(init, last) == init + [last];
      assert s == init + [last];
    }
  }

  lemma SortedPrefix(s: seq<Chunk>, n: nat)
    requires SortedBySequence(s) && n <= |s|
    ensures SortedBySequence(s[..n])
  {
    forall i, j | 0 <= i < j < n ensures Key(s[..n][i]) <= Key(s[..n][j]) {
      assert s[..n][i] == s[i] && s[..n][j] == s[j];
    }
  }

  // ---------------------------------------------------------------------
  // The checks, in the order they run.

  datatype ReassembleError =
    | NoChunks
    | MixedMessages(expectedId: MessageId, gotId: MessageId)
    | InconsistentTotal(expectedTotal: uint16, gotTotal: uint16)
    | IncompleteMessage(missing: seq<uint16>)
    | SequenceError(position: nat)
    | ChecksumFailed(position: nat)

  /** The first chunk, from position `from` on, whose id or total differs from
      the first chunk's; the id is checked before the total. */
  function FirstInconsistency(chunks: seq<Chunk>, id: MessageId, total: uint16, from: nat): (r: Option<ReassembleError>)
    requires from <= |chunks|
    ensures r.None? <==> forall k | from <= k < |chunks| ::
      chunks[k].metadata.messageId == id && chunks[k].metadata.totalChunks == total
    decreases |chunks| - from
  {
    if from == |chunks| then None
    else if chunks[from].metadata.messageId != id then Some(MixedMessages(id, chunks[from].metadata.messageId))
    else if chunks[from].metadata.totalChunks != total then Some(InconsistentTotal(total, chunks[from].metadata.totalChunks))
    else FirstInconsistency(chunks, id, total, from + 1)
  }

  /** The first position, from `from` on, of the sorted chunks that holds the
      wrong sequence number or a payload failing its checksum. */
  function FirstBadPosition(sorted: seq<Chunk>, from: nat): (r: Option<ReassembleError>)
    requires from <= |sorted|
    ensures r.None? <==> forall k | from <= k < |sorted| ::
      Key(sorted[k]) == k && Checksum(sorted[k].payload) == sorted[k].metadata.checksum
    decreases |sorted| - from
  {
    if from == |sorted| then None
    else if Key(sorted[from]) != from then Some(SequenceError(from))
    else if Checksum(sorted[from].payload) != sorted[from].metadata.checksum then Some(ChecksumFailed(from))
    else FirstBadPosition(sorted, from + 1)
  }

  predicate HasSequence(chunks: seq<Chunk>, k: nat)
  {
    exists j | 0 <= j < |chunks| :: Key(chunks[j]) == k
  }

  /** findMissingChunks: the sequence numbers below `bound` that no chunk
      carries, in ascending order. */
  function MissingBelow(chunks: seq<Chunk>, bound: nat): (missing: seq<uint16>)
    requires bound <= 0x1_0000
    ensures forall k | 0 <= k < |missing| :: missing[k] < bound && !HasSequence(chunks, missing[k])
    ensures forall k: nat | k < bound && !HasSequence(chunks, k) :: k in missing
    ensures forall i, j | 0 <= i < j < |missing| :: missing[i] < missing[j]
  {
    if bound == 0 then []
    else
      var prev := MissingBelow(chunks, bound - 1);
      if HasSequence(chunks, bound - 1) then prev else prev + [bound - 1]
  }

  function ConcatPayloads(chunks: seq<Chunk>): bytes
  {
    if |chunks| == 0 then [] else ConcatPayloads(chunks[..|chunks| - 1]) + chunks[|chunks| - 1].payload
  }

  /** ReassembleMessage: each failure is reported in turn, and only a complete,
      consistent, intact set of chunks gives the data. */
  function Reassemble(chunks: seq<Chunk>): Result<bytes, ReassembleError>
  {
    if |chunks| == 0 then Err(NoChunks)
    else
      var id, total := chunks[0].metadata.messageId, chunks[0].metadata.totalChunks;
      match FirstInconsistency(chunks, id, total, 0)
      case Some(e) => Err(e)
      case None =>
        if |chunks| != total as int then Err(IncompleteMessage(MissingBelow(chunks, total as int)))
        else
          var sorted := SortBySequence(chunks);
          match FirstBadPosition(sorted, 0)
          case Some(e) => Err(e)
          case None => Ok(ConcatPayloads(sorted))
  }

  /** Whether reassembly gets as far as sorting the caller's chunks. */
  predicate ReachesSort(chunks: seq<Chunk>)
  {
    |chunks| > 0 &&
    FirstInconsistency(chunks, chunks[0].metadata.messageId, chunks[0].metadata.totalChunks, 0).None? &&
    |chunks| == chunks[0].metadata.totalChunks as int
  }

  // ---------------------------------------------------------------------
  // What success means.

  /** Every chunk belongs to the first one's message and shares its total, the
      count equals that total, the sequence numbers are distinct and below it,
      and every payload matches its checksum. */
  predicate CompleteSet(chunks: seq<Chunk>)
  {
    |chunks| > 0 &&
    (forall c | c in chunks ::
      c.metadata.messageId == chunks[0].metadata.messageId &&
      c.metadata.totalChunks == chunks[0].metadata.totalChunks &&
      Key(c) < |chunks| &&
      Checksum(c.payload) == c.metadata.checksum) &&
    |chunks| == chunks[0].metadata.totalChunks as int &&
    (forall i, j | 0 <= i < j < |chunks| :: Key(chunks[i]) != Key(chunks[j]))
  }

  lemma {:induction false} CountOfDuplicate(s: seq<uint16>, i: nat, j: nat)
    requires i < j < |s| && s[i] == s[j]
    ensures multiset(s)[s[i]] >= 2
  {
    assert s == s[..i] + [s[i]] + s[i + 1..j] + [s[j]] + s[j + 1..];
  }

  lemma {:induction false} CountOfDistinct(s: seq<uint16>)
    requires forall i, j | 0 <= i < j < |s| :: s[i] != s[j]
    ensures forall x :: multiset(s)[x] <= 1
  {
    if |s| > 0 {
      var init := s[..|s| - 1];
      CountOfDistinct(init);
      assert s == init + [s[|s| - 1]];
      assert s[|s| - 1] !in init;
    }
  }

  /** Sorted, distinct and all below n, n sequence numbers are exactly 0..n-1. */
  lemma {:induction false} StrictlyIncreasingLowerBound(s: seq<Chunk>, i: nat)
    requires i < |s|
    requires forall a, b | 0 <= a < b < |s| :: Key(s[a]) < Key(s[b])
    ensures Key(s[i]) >= i
  {
    if i > 0 {
      StrictlyIncreasingLowerBound(s, i - 1);
    }
  }

  lemma {:induction false} StrictlyIncreasingUpperBound(s: seq<Chunk>, i: nat)
    requires i < |s|
    requires forall a, b | 0 <= a < b < |s| :: Key(s[a]) < Key(s[b])
    requires forall a | 0 <= a < |s| :: Key(s[a]) < |s|
    ensures Key(s[i]) <= i
    decreases |s| - i
  {
    if i < |s| - 1 {
      StrictlyIncreasingUpperBound(s, i + 1);
    }
  }

  lemma ReassembleOkIsComplete(chunks: seq<Chunk>)
    requires Reassemble(chunks).Ok?
    ensures CompleteSet(chunks)
  {
    var sorted := SortBySequence(chunks);
    assert ReachesSort(chunks) && FirstBadPosition(sorted, 0).None?;
    SortedRunKeysDistinct(chunks);
    SortedRunMembers(chunks);
  }

  /** When the sorted chunks carry 0, 1, 2, ... the caller's chunks carry
      distinct sequence numbers. */
  lemma SortedRunKeysDistinct(chunks: seq<Chunk>)
    requires forall k | 0 <= k < |SortBySequence(chunks)| :: Key(SortBySequence(chunks)[k]) == k
    ensures forall i, j | 0 <= i < j < |chunks| :: Key(chunks[i]) != Key(chunks[j])
  {
    var sorted := SortBySequence(chunks);
    SortBySequencePerm(chunks);
    CountOfDistinct(Keys(sorted));
    forall i, j | 0 <= i < j < |chunks| ensures Key(chunks[i]) != Key(chunks[j]) {
      if Key(chunks[i]) == Key(chunks[j]) {
        CountOfDuplicate(Keys(chunks), i, j);
        assert false;
      }
    }
  }

  /** What holds of every sorted chunk holds of every chunk. */
  lemma SortedRunMembers(chunks: seq<Chunk>)
    requires forall k | 0 <= k < |SortBySequence(chunks)| ::
      Key(SortBySequence(chunks)[k]) == k &&
      Checksum(SortBySequence(chunks)[k].payload) == SortBySequence(chunks)[k].metadata.checksum
    ensures forall c | c in chunks :: Key(c) < |chunks| && Checksum(c.payload) == c.metadata.checksum
  {
    var sorted := SortBySequence(chunks);
    SortBySequenceSameElements(chunks);
    forall c | c in chunks ensures Key(c) < |chunks| && Checksum(c.payload) == c.metadata.checksum {
      var k :| 0 <= k < |sorted| && sorted[k] == c;
    }
  }

  lemma CompleteIsSortedRun(chunks: seq<Chunk>)
    requires CompleteSet(chunks)
    ensures forall a | 0 <= a < |SortBySequence(chunks)| ::
      Key(SortBySequence(chunks)[a]) == a &&
      Checksum(SortBySequence(chunks)[a].payload) == SortBySequence(chunks)[a].metadata.checksum
  {
    var sorted := SortBySequence(chunks);
    SortBySequenceSameElements(chunks);
    SortBySequencePerm(chunks);
    SortBySequenceSorted(chunks);
    CountOfDistinct(Keys(chunks));
    forall a, b | 0 <= a < b < |sorted| ensures Key(sorted[a]) < Key(sorted[b]) {
      if Key(sorted[a]) == Key(sorted[b]) {
        CountOfDuplicate(Keys(sorted), a, b);
        assert false;
      }
    }
    assert forall b | 0 <= b < |sorted| :: sorted[b] in chunks;
    forall a | 0 <= a < |sorted| ensures Key(sorted[a]) == a {
      StrictlyIncreasingLowerBound(sorted, a);
      StrictlyIncreasingUpperBound(sorted, a);
    }
  }

  /** Chunks of one message, each at the position of its sequence number,
      counting the whole message and intact. */
  predicate InOrder(chunks: seq<Chunk>, id: MessageId)
  {
    forall i | 0 <= i < |chunks| ::
      Key(chunks[i]) == i && chunks[i].metadata.messageId == id &&
      chunks[i].metadata.totalChunks as int == |chunks| &&
      Checksum(chunks[i].payload) == chunks[i].metadata.checksum
  }

  /** Chunks in order reassemble to their payloads in order. */
  lemma ReassembleOfOrdered(chunks: seq<Chunk>, id: MessageId)
    requires |chunks| > 0 && InOrder(chunks, id)
    ensures Reassemble(chunks) == Ok(ConcatPayloads(chunks))
  {
    InOrderPasses(chunks, id);
  }

  /** Chunks in order pass every check and are left as they are by the sort. */
  lemma InOrderPasses(chunks: seq<Chunk>, id: MessageId)
    requires |chunks| > 0 && InOrder(chunks, id)
    ensures chunks[0].metadata.messageId == id
    ensures FirstInconsistency(chunks, id, chunks[0].metadata.totalChunks, 0) == None
    ensures |chunks| == chunks[0].metadata.totalChunks as int
    ensures SortBySequence(chunks) == chunks
    ensures FirstBadPosition(chunks, 0) == None
  {
    assert SortedBySequence(chunks);
    SortBySequenceOfSorted(chunks);
  }

  /** Reassembly succeeds exactly on a complete set, and then returns the
      payloads in sequence order. */
  lemma ReassembleSucceedsIff(chunks: seq<Chunk>)
    ensures Reassemble(chunks).Ok? <==> CompleteSet(chunks)
    ensures Reassemble(chunks).Ok? ==>
      var sorted := SortBySequence(chunks);
      Reassemble(chunks).value == ConcatPayloads(sorted) &&
      forall k | 0 <= k < |sorted| :: Key(sorted[k]) == k
  {
    if Reassemble(chunks).Ok? {
      ReassembleOkIsComplete(chunks);
    }
    if CompleteSet(chunks) {
      assert forall k | 0 <= k < |chunks| :: chunks[k] in chunks;
      assert FirstInconsistency(chunks, chunks[0].metadata.messageId, chunks[0].metadata.totalChunks, 0).None?;
      CompleteIsSortedRun(chunks);
    }
  }

  /** Two chunks with the same sequence number make reassembly fail. */
  lemma ReassembleRejectsDuplicates(chunks: seq<Chunk>, i: nat, j: nat)
    requires i < j < |chunks| && Key(chunks[i]) == Key(chunks[j])
    ensures Reassemble(chunks).Err?
  {
    ReassembleSucceedsIff(chunks);
  }

  /** A chunk whose payload does not match its checksum makes reassembly fail. */
  lemma ReassembleRejectsBadChecksum(chunks: seq<Chunk>, i: nat)
    requires i < |chunks| && Checksum(chunks[i].payload) != chunks[i].metadata.checksum
    ensures Reassemble(chunks).Err?
  {
    ReassembleSucceedsIff(chunks);
    assert chunks[i] in chunks;
  }

  /** A consistent set with fewer or more chunks than its total reports exactly
      the absent sequence numbers. */
  lemma ReassembleReportsMissing(chunks: seq<Chunk>)
    requires |chunks| > 0
    requires forall c | c in chunks ::
      c.metadata.messageId == chunks[0].metadata.messageId &&
      c.metadata.totalChunks == chunks[0].metadata.totalChunks
    requires |chunks| != chunks[0].metadata.totalChunks as int
    ensures Reassemble(chunks) == Err(IncompleteMessage(MissingBelow(chunks, chunks[0].metadata.totalChunks as int)))
  {
    assert forall k | 0 <= k < |chunks| :: chunks[k] in chunks;
  }
}
