/** The simulation server's handlers: an upload filed under the first labels
    of its chunk names, discovery that hands a client every message new to
    it, and the TXT lookup that serves chunks and manifests by query name. */
module SimulaServer {
  import opened Bytes
  import opened Text
  import opened DnsNames
  import opened StoreState
  import opened Storage
  import opened DnsQuery

  /** The client discovery assumes when the request names none. */
  const DefaultClient: string := "default-client"

  /** The TTL of every TXT answer. */
  const AnswerTtl: int := 300

  // ---------------------------------------------------------------------
  // Uploads.

  /** `processed` files every uploaded chunk under the first label of its
      name, and each key holds the data of one of the names with that first
      label: which one, when several share it, is map order's choice. */
  ghost predicate FiledByFirstLabel(chunks: map<string, string>, processed: map<string, string>)
  {
    (forall n | n in chunks :: FirstLabel(n) in processed) &&
    (forall k | k in processed :: exists n | n in chunks :: FirstLabel(n) == k && processed[k] == chunks[n])
  }

  /** No other uploaded name shares the first label of `n`. */
  ghost predicate Unshared(chunks: map<string, string>, n: string)
  {
    forall m | m in chunks && FirstLabel(m) == FirstLabel(n) :: m == n
  }

  /** handleUpload's loop: each chunk keyed by the part of its name before
      the first dot, in map order, a later name overwriting an earlier one
      with the same key. */
  method ProcessChunks(chunks: map<string, string>) returns (processed: map<string, string>)
    ensures FiledByFirstLabel(chunks, processed)
  {
    processed := map[];
    var todo := chunks.Keys;
    while todo != {}
      invariant todo <= chunks.Keys
      invariant forall n | n in chunks && n !in todo :: FirstLabel(n) in processed
      invariant forall k | k in processed ::
                  exists n | n in chunks && n !in todo :: FirstLabel(n) == k && processed[k] == chunks[n]
      decreases |todo|
    {
      var n :| n in todo;
      var parts := Split(n, '.');
      processed := processed[parts[0] := chunks[n]];
      todo := todo - {n};
    }
  }

  /** A name whose first label no other name shares is filed with its own
      data, and the keys are exactly the first labels. */
  lemma FiledUnshared(chunks: map<string, string>, processed: map<string, string>, n: string)
    requires FiledByFirstLabel(chunks, processed)
    requires n in chunks && Unshared(chunks, n)
    ensures FirstLabel(n) in processed && processed[FirstLabel(n)] == chunks[n]
    ensures processed.Keys == set m | m in chunks :: FirstLabel(m)
  {
    var m :| m in chunks && FirstLabel(m) == FirstLabel(n) && processed[FirstLabel(n)] == chunks[m];
    assert m == n;
  }

  // ---------------------------------------------------------------------
  // The TXT lookup.

  datatype Lookup = Found(value: string) | NameError

  /** The value a label selects in a message: its manifest for an "m-"
      label, otherwise the chunk filed under exactly that label, or "". */
  function Selected(message: Message, lab: string): (value: string)
    ensures value != "" ==> value == message.manifest || value in message.chunks.Values
  {
    if HasPrefix(lab, "m-") then message.manifest
    else if lab in message.chunks then message.chunks[lab]
    else ""
  }

  /** handleTXTQuery's decision: the name must have two labels, the first
      must carry a stored message's id, and the value it selects must not
      be empty; every other case is NXDOMAIN. */
  function TxtLookup(messages: map<string, Message>, name: string): (r: Lookup)
    ensures r.Found? ==>
              r.value != "" &&
              exists id | id in messages :: r.value == messages[id].manifest || r.value in messages[id].chunks.Values
  {
    var parts := Split(Normalize(name), '.');
    if |parts| < 2 then NameError
    else
      var id := QueryId(parts[0]);
      if id == "" || id !in messages then NameError
      else
        var value := Selected(messages[id], parts[0]);
        if value != "" then Found(value) else NameError
  }

  /** One TXT question answered into a reply: a found value adds one answer
      under the question's own name and sets NOERROR; otherwise NXDOMAIN. */
  function AnswerTxt(messages: map<string, Message>, r: ReplyState, name: string): ReplyState
  {
    match TxtLookup(messages, name)
    case Found(v) => ReplyState(RcodeSuccess, r.answers + [TxtAnswer(name, AnswerTtl, v)])
    case NameError => r.(rcode := RcodeNameError)
  }

  /** handleDNSRequest's loop: the questions in order, only TXT ones
      answered. */
  function Respond(messages: map<string, Message>, r: ReplyState, qs: seq<Question>): ReplyState
  {
    if |qs| == 0 then r
    else
      var before := Respond(messages, r, qs[..|qs| - 1]);
      var q := qs[|qs| - 1];
      if q.qtype == TypeTXT then AnswerTxt(messages, before, q.name) else before
  }

  /** The answers TXT questions find, each question on its own, in order. */
  function Answers(messages: map<string, Message>, qs: seq<Question>): seq<TxtAnswer>
  {
    if |qs| == 0 then []
    else
      var first := if qs[0].qtype == TypeTXT && TxtLookup(messages, qs[0].name).Found?
                   then [TxtAnswer(qs[0].name, AnswerTtl, TxtLookup(messages, qs[0].name).value)]
                   else [];
      first + Answers(messages, qs[1..])
  }

  lemma {:induction false} AnswersSnoc(messages: map<string, Message>, qs: seq<Question>, q: Question)
    ensures Answers(messages, qs + [q]) ==
            Answers(messages, qs) +
            (if q.qtype == TypeTXT && TxtLookup(messages, q.name).Found?
             then [TxtAnswer(q.name, AnswerTtl, TxtLookup(messages, q.name).value)] else [])
  {
    if |qs| > 0 {
      assert (qs + [q])[1..] == qs[1..] + [q];
      AnswersSnoc(messages, qs[1..], q);
    }
  }

  /** The reply's answer section is what it held plus every answer the TXT
      questions find on their own: a question that finds nothing adds
      nothing and removes nothing. */
  lemma {:induction false} RespondAnswers(messages: map<string, Message>, r: ReplyState, qs: seq<Question>)
    ensures Respond(messages, r, qs).answers == r.answers + Answers(messages, qs)
  {
    if |qs| > 0 {
      var init := qs[..|qs| - 1];
      RespondAnswers(messages, r, init);
      AnswersSnoc(messages, init, qs[|qs| - 1]);
      assert init + [qs[|qs| - 1]] == qs;
    }
  }

  /** A request without TXT questions leaves the reply as SetReply made it. */
  lemma {:induction false} RespondNoTxt(messages: map<string, Message>, r: ReplyState, qs: seq<Question>)
    requires forall k | 0 <= k < |qs| :: qs[k].qtype != TypeTXT
    ensures Respond(messages, r, qs) == r
  {
    if |qs| > 0 {
      RespondNoTxt(messages, r, qs[..|qs| - 1]);
    }
  }

  /** A name with a single label, trailing dot or not, is NXDOMAIN. */
  lemma LookupSingleLabel(messages: map<string, Message>, name: string)
    requires '.' !in TrimSuffix(name, ".")
    ensures TxtLookup(messages, name) == NameError
  {
    var t := TrimSuffix(name, ".");
    forall i | 0 <= i < |t| ensures ToLower(t)[i] != '.' {
      assert t[i] in t;
    }
    SplitNone(Normalize(name), '.');
  }

  /** The chunk a client asks for as "c-<index>-<id>.<zone>" is served from
      the chunk uploaded under "c-<index>-<id>", whatever the zone, when the
      id is lower case, has no '-' or '.', and the chunk is not empty. */
  lemma LookupChunk(messages: map<string, Message>, index: nat, id: string, zone: string)
    requires id != "" && '-' !in id && '.' !in id && NoUpper(id) && zone != ""
    requires id in messages && ChunkLabelText(index, id) in messages[id].chunks
    requires messages[id].chunks[ChunkLabelText(index, id)] != ""
    ensures TxtLookup(messages, ChunkLabelText(index, id) + "." + zone) ==
            Found(messages[id].chunks[ChunkLabelText(index, id)])
  {
    var lab := ChunkLabelText(index, id);
    ChunkLabelTextShape(index, id);
    ChunkLabelNoUpper(index, id);
    SplitDotted(lab, zone);
    QueryIdOfChunkLabel(index, id);
    NotManifestLabel(lab);
  }

  /** The manifest a client asks for as "m-<id>.<zone>" is the stored
      message's manifest, when that is not empty. */
  lemma LookupManifest(messages: map<string, Message>, id: string, zone: string)
    requires id != "" && '-' !in id && '.' !in id && NoUpper(id) && zone != ""
    requires id in messages && messages[id].manifest != ""
    ensures TxtLookup(messages, "m-" + id + "." + zone) == Found(messages[id].manifest)
  {
    var lab := "m-" + id;
    assert '.' !in lab by {
      assert forall c | c in lab :: c in "m-" || c in id;
    }
    ManifestLabelNoUpper(id);
    SplitDotted(lab, zone);
    QueryIdOfManifestLabel(id);
    assert lab[..2] == "m-";
  }

  /** A label with the DNS encoder's minute prefix carries no id here, so
      the records EncodeToDNS names that way are never served. */
  lemma LookupTimePrefixed(messages: map<string, Message>, index: nat, msgId: string, unix: int, zone: string)
    requires |FullChunkLabel(true, index, msgId, unix)| <= MaxLabelLength
    requires '.' !in msgId && NoUpper(msgId) && zone != ""
    ensures TxtLookup(messages, ChunkLabel(true, index, msgId, unix) + "." + zone) == NameError
  {
    var lab := ChunkLabel(true, index, msgId, unix);
    ChunkLabelParts(true, index, msgId, unix);
    FirstLabelLowered(lab, zone);
    var first := Split(Normalize(lab + "." + zone), '.')[0];
    assert lab[0] == 't';
    assert first[0] == 't' by {
      assert first[0] == ToLowerAscii(lab[0]);
    }
    assert !HasPrefix(first, "c-") && !HasPrefix(first, "m-");
  }

  /** Upload then query: a chunk uploaded as "c-<index>-<id>.<zone>" in a
      message published under `id`, with no other name sharing its first
      label, is served back under that same name. */
  lemma UploadThenLookup(s: Store, id: string, chunks: map<string, string>, processed: map<string, string>,
                         manifest: string, now: int, index: nat, zone: string)
    requires id !in s.messages
    requires FiledByFirstLabel(chunks, processed)
    requires id != "" && '-' !in id && '.' !in id && NoUpper(id) && zone != ""
    requires ChunkLabelText(index, id) + "." + zone in chunks
    requires Unshared(chunks, ChunkLabelText(index, id) + "." + zone)
    requires chunks[ChunkLabelText(index, id) + "." + zone] != ""
    ensures var t := Insert(s, Message(id, processed, |processed|, manifest, now, StateNew, []), now);
            TxtLookup(t.messages, ChunkLabelText(index, id) + "." + zone) ==
            Found(chunks[ChunkLabelText(index, id) + "." + zone])
  {
    var lab := ChunkLabelText(index, id);
    var n := lab + "." + zone;
    ChunkLabelTextShape(index, id);
    FirstLabelOf(lab, "." + zone);
    assert n == lab + ("." + zone);
    FiledUnshared(chunks, processed, n);
    var t := Insert(s, Message(id, processed, |processed|, manifest, now, StateNew, []), now);
    assert t.messages[id].chunks == processed;
    LookupChunk(t.messages, index, id, zone);
  }

  // ---------------------------------------------------------------------
  // The server.

  /** The client discovery serves: the one named, or DefaultClient. */
  function ClientOf(client: string): string
  {
    if client == "" then DefaultClient else client
  }

  /** The simulation server: a store and the queue manager over it. */
  class SimulationServer {
    const storage: MemoryStorage
    const queue: QueueManager

    ghost predicate Valid()
      reads this, storage
    {
      queue.storage == storage && storage.Valid()
    }

    constructor (storage: MemoryStorage)
      requires storage.Valid()
      ensures this.storage == storage && Valid()
    {
      this.storage := storage;
      queue := new QueueManager(storage);
    }

    /** handleUpload: the chunks filed by first label are published under
        the message id; a known id is refused and nothing changes. */
    method HandleUpload(messageId: string, chunks: map<string, string>, manifest: string, now: int)
      returns (err: Option<StoreError>)
      requires Valid()
      modifies storage
      ensures Valid()
      ensures messageId in old(storage.messages) ==>
                err == Some(AlreadyExists(messageId)) && storage.State() == old(storage.State())
      ensures messageId !in old(storage.messages) ==>
                err == None && messageId in storage.messages &&
                FiledByFirstLabel(chunks, storage.messages[messageId].chunks) &&
                storage.State() == Insert(old(storage.State()),
                                          Message(messageId, storage.messages[messageId].chunks,
                                                  |storage.messages[messageId].chunks|, manifest, now, StateNew, []), now)
    {
      var processed := ProcessChunks(chunks);
      err := queue.PublishMessage(messageId, processed, manifest, now);
    }

    /** handleGetMessages: the ids of every message new to the client
        ("default-client" when none is named), each once, each then marked
        delivered to it, so that nothing is new to it afterwards. */
    method HandleGetMessages(client: string, now: int) returns (ids: seq<string>)
      requires Valid()
      modifies storage
      ensures Valid()
      ensures forall id :: id in ids <==> id in NewFor(old(storage.State()), ClientOf(client))
      ensures forall i, j | 0 <= i < j < |ids| :: ids[i] != ids[j]
      ensures forall k | 0 <= k < |ids| :: ids[k] in old(storage.messages)
      ensures storage.State() == DeliverAll(old(storage.State()), ids, ClientOf(client), now)
      ensures NewFor(storage.State(), ClientOf(client)) == {}
    {
      var c := ClientOf(client);
      var msgs := storage.GetNewMessages(c);
      ghost var s0 := storage.State();
      ghost var all := Ids(msgs);
      ids := [];
      for i := 0 to |msgs|
        invariant ids == all[..i]
        invariant storage.State() == DeliverAll(s0, ids, c, now)
      {
        DeliverAllValid(s0, ids, c, now);
        DeliverAllStep(s0, all, i, c, now);
        IdsStep(msgs, i);
        ids := ids + [msgs[i].id];
        var _ := storage.MarkAsDelivered(msgs[i].id, c, now);
      }
      assert all[..|msgs|] == all;
      DeliverAllValid(s0, ids, c, now);
      DeliverAllNewFor(s0, ids, c, now);
    }

    /** handleTXTQuery: the reply gains the lookup's answer and its code. */
    method HandleTXTQuery(q: Question, reply: Reply)
      modifies reply
      ensures reply.State() == AnswerTxt(storage.messages, old(reply.State()), q.name)
    {
      var parts := Split(Normalize(q.name), '.');
      if |parts| < 2 {
        reply.rcode := RcodeNameError;
        return;
      }
      var lab := parts[0];
      var msgId := QueryId(lab);
      if msgId == "" {
        reply.rcode := RcodeNameError;
        return;
      }
      var got := storage.GetMessage(msgId);
      if got.Err? {
        reply.rcode := RcodeNameError;
        return;
      }
      var value := Selected(got.value, lab);
      if value != "" {
        reply.answers := reply.answers + [TxtAnswer(q.name, AnswerTtl, value)];
        reply.rcode := RcodeSuccess;
      } else {
        reply.rcode := RcodeNameError;
      }
    }

    /** handleDNSRequest: a fresh reply, every TXT question answered into
        it in order, the others skipped. */
    method HandleDNSRequest(questions: seq<Question>) returns (reply: Reply)
      ensures fresh(reply)
      ensures reply.State() == Respond(storage.messages, ReplyState(RcodeSuccess, []), questions)
    {
      reply := new Reply();
      for i := 0 to |questions|
        invariant reply.State() == Respond(storage.messages, ReplyState(RcodeSuccess, []), questions[..i])
      {
        assert questions[..i + 1][..i] == questions[..i];
        if questions[i].qtype == TypeTXT {
          HandleTXTQuery(questions[i], reply);
        }
      }
      assert questions[..|questions|] == questions;
    }
  }
}
