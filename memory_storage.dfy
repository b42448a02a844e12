/** The in-memory message store and the queue manager built on it. Every
    operation updates the store's maps and counters in place and is proved
    against the matching function of StoreState, so the invariant and the
    life-cycle lemmas proved there carry over to the objects. */
module Storage {
  import opened Bytes
  import opened Text
  import opened MapSums
  import opened MapCards
  import opened StoreState

  datatype StoreError = AlreadyExists(id: string) | MessageNotFound(id: string) | ChunkNotFound(name: string)

  /** Copies every entry of `from` into `into`, one name at a time; an entry
      of `from` replaces one of `into` under the same name. */
  method CopyChunks(into: map<string, string>, from: map<string, string>) returns (r: map<string, string>)
    ensures r == into + from
  {
    r := into;
    var todo := from.Keys;
    while todo != {}
      invariant todo <= from.Keys
      invariant r.Keys == into.Keys + (from.Keys - todo)
      invariant forall n | n in r :: r[n] == if n in from && n !in todo then from[n] else into[n]
      decreases |todo|
    {
      var n :| n in todo;
      r := r[n := from[n]];
      todo := todo - {n};
    }
  }

  /** Deletes every name of `names` from `from`, one at a time. */
  method DeleteChunks(from: map<string, string>, names: set<string>) returns (r: map<string, string>)
    ensures r == from - names
  {
    r := from;
    var todo := names;
    while todo != {}
      invariant todo <= names
      invariant r == from - (names - todo)
      decreases |todo|
    {
      var n :| n in todo;
      r := r - {n};
      todo := todo - {n};
    }
  }

  /** The store after StoreMessage of a fresh id, built as the source builds
      it: the message stamped New at `now`, its chunks copied into the index
      and the counters raised. */
  method StoreInto(s: Store, msg: Message, now: int) returns (t: Store)
    requires msg.id !in s.messages
    ensures t == Insert(s, msg, now)
  {
    var stored := msg.(state := StateNew, createdAt := now);
    var copied := CopyChunks(s.chunks, msg.chunks);
    var counted := s.stats.(totalMessages := s.stats.totalMessages + 1,
                            newMessages := s.stats.newMessages + 1,
                            totalChunks := s.stats.totalChunks + |msg.chunks|);
    t := Store(s.messages[msg.id := stored], copied, s.index, counted);
  }

  /** The expiry loop of CleanExpired, one message at a time: each message
      created before `cutoff` is deleted with its chunk names, and the number
      of messages and of chunks that left are counted. */
  method ExpireFields(messages: map<string, Message>, chunks: map<string, string>, cutoff: int)
    returns (kept: map<string, Message>, left: map<string, string>, removed: int, dropped: int)
    ensures kept == messages - Expired(messages, cutoff).Keys
    ensures left == chunks - ChunkNames(Expired(messages, cutoff))
    ensures removed == |Expired(messages, cutoff)|
    ensures dropped == ChunkTotal(Expired(messages, cutoff))
  {
    kept, left := messages, chunks;
    ghost var gone: map<string, Message> := map[];
    removed, dropped := 0, 0;
    var todo := messages.Keys;
    ExpiringStart(messages, chunks, cutoff);
    while todo != {}
      invariant Expiring(messages, chunks, cutoff, todo, gone, kept, left, removed, dropped)
      decreases |todo|
    {
      var id :| id in todo;
      var msg := messages[id];
      if msg.createdAt < cutoff {
        ExpiringDrop(messages, chunks, cutoff, todo, gone, kept, left, removed, dropped, id);
        left := DeleteChunks(left, msg.chunks.Keys);
        kept := kept - {id};
        removed := removed + 1;
        dropped := dropped + |msg.chunks|;
        gone := gone[id := msg];
      } else {
        ExpiringKeep(messages, chunks, cutoff, todo, gone, kept, left, removed, dropped, id);
      }
      todo := todo - {id};
    }
    ExpiringDone(messages, chunks, cutoff, gone, kept, left, removed, dropped);
  }

  method ExpireFrom(s: Store, cutoff: int) returns (t: Store, removed: int)
    ensures t == Expire(s, cutoff)
    ensures removed == |Expired(s.messages, cutoff)|
  {
    var kept, left, dropped;
    kept, left, removed, dropped := ExpireFields(s.messages, s.chunks, cutoff);
    t := Store(kept, left, s.index, s.stats.(totalMessages := s.stats.totalMessages - removed,
                                             totalChunks := s.stats.totalChunks - dropped));
  }

  /** The chunk index rebuilt from the stored messages after a load: every
      chunk name of every message is indexed, and each indexed name holds the
      data of a message that has it (which one, when several share a name,
      depends on the map order). */
  method RebuildChunks(messages: map<string, Message>) returns (chunks: map<string, string>)
    ensures chunks.Keys == ChunkNames(messages)
    ensures IndexOwned(messages, chunks)
  {
    chunks := map[];
    ghost var done: map<string, Message> := map[];
    var todo := messages.Keys;
    while todo != {}
      invariant todo <= messages.Keys
      invariant done.Keys == messages.Keys - todo
      invariant forall id | id in done :: done[id] == messages[id]
      invariant chunks.Keys == ChunkNames(done)
      invariant IndexOwned(messages, chunks)
      decreases |todo|
    {
      var id :| id in todo;
      var msg := messages[id];
      ChunkNamesInsert(done, id, msg);
      IndexOwnedAdd(messages, chunks, id);
      chunks := CopyChunks(chunks, msg.chunks);
      done := done[id := msg];
      todo := todo - {id};
    }
    assert done == messages;
  }

  class MemoryStorage {
    var messages: map<string, Message>
    var chunks: map<string, string>
    var index: map<string, seq<string>>
    var stats: StorageStats

    function State(): Store
      reads this
    {
      Store(messages, chunks, index, stats)
    }

    ghost predicate Valid()
      reads this
    {
      ValidStore(State())
    }

    /** NewMemoryStorage: empty maps and zero counters. */
    constructor ()
      ensures State() == EmptyStore && Valid()
    {
      messages := map[];
      chunks := map[];
      index := map[];
      stats := StorageStats(0, 0, 0, 0, 0, 0);
      EmptyStoreValid();
    }

    /** StoreMessage: a message under an id already held is refused and
        nothing changes; otherwise the message is stored as New at `now`. */
    method StoreMessage(msg: Message, now: int) returns (err: Option<StoreError>)
      requires Valid()
      modifies this
      ensures Valid()
      ensures msg.id in old(messages) ==> err == Some(AlreadyExists(msg.id)) && State() == old(State())
      ensures msg.id !in old(messages) ==> err == None && State() == Insert(old(State()), msg, now)
    {
      if msg.id in messages {
        return Some(AlreadyExists(msg.id));
      }
      var s0 := State();
      InsertValid(s0, msg, now);
      var t := StoreInto(s0, msg, now);
      messages, chunks, index, stats := t.messages, t.chunks, t.index, t.stats;
      assert State() == t;
      return None;
    }

    /** GetMessage: the message stored under `id`, which carries that id. */
    function GetMessage(id: string): (r: Result<Message, StoreError>)
      reads this
      ensures r.Ok? <==> id in messages
      ensures r.Ok? ==> r.value == messages[id]
      ensures r.Err? ==> r.error == MessageNotFound(id)
      ensures Valid() && r.Ok? ==> r.value.id == id
    {
      if id in messages then Ok(messages[id]) else Err(MessageNotFound(id))
    }

    /** GetChunk: a lookup by chunk name alone, whatever message id is given;
        a chunk found belongs to a stored message. */
    function GetChunk(msgId: string, chunkName: string): (r: Result<string, StoreError>)
      reads this
      ensures r.Ok? <==> chunkName in chunks
      ensures r.Ok? ==> r.value == chunks[chunkName]
      ensures r.Err? ==> r.error == ChunkNotFound(chunkName)
      ensures Valid() && r.Ok? ==> Holds(messages, chunkName, r.value)
    {
      if chunkName in chunks then Ok(chunks[chunkName]) else Err(ChunkNotFound(chunkName))
    }

    /** The ids handed to `client` so far, as a set, built as the source
        builds its seen-map. */
    method SeenSet(client: string) returns (seen: set<string>)
      ensures forall id :: id in seen <==> id in Seen(State(), client)
    {
      seen := {};
      if client in index {
        var ids := index[client];
        for i := 0 to |ids|
          invariant forall id :: id in seen <==> id in ids[..i]
        {
          seen := seen + {ids[i]};
          assert ids[..i + 1] == ids[..i] + [ids[i]];
        }
        assert ids[..|ids|] == ids;
      }
    }

    /** GetNewMessages: every message still New that `client` has not been
        handed, each once, in map order; nothing changes. */
    method GetNewMessages(client: string) returns (news: seq<Message>)
      requires Valid()
      ensures forall id :: id in Ids(news) <==> id in NewFor(State(), client)
      ensures forall i, j | 0 <= i < j < |news| :: news[i].id != news[j].id
      ensures forall i | 0 <= i < |news| :: news[i].id in messages && messages[news[i].id] == news[i]
    {
      var seen := SeenSet(client);
      news := [];
      var todo := messages.Keys;
      while todo != {}
        invariant todo <= messages.Keys
        invariant forall id :: id in Ids(news) <==> id in NewFor(State(), client) && id !in todo
        invariant forall i, j | 0 <= i < j < |news| :: news[i].id != news[j].id
        invariant forall i | 0 <= i < |news| :: news[i].id in messages && news[i].id !in todo && messages[news[i].id] == news[i]
        decreases |todo|
      {
        var id :| id in todo;
        var msg := messages[id];
        if id !in seen && msg.state == StateNew {
          assert msg.id == id;
          assert Ids(news + [msg]) == Ids(news) + [id];
          news := news + [msg];
        }
        todo := todo - {id};
      }
    }

    /** MarkAsDelivered: an unknown id is an error that changes nothing;
        otherwise the delivery is recorded as Deliver states it. */
    method MarkAsDelivered(msgId: string, client: string, now: int) returns (err: Option<StoreError>)
      requires Valid()
      modifies this
      ensures Valid()
      ensures msgId !in old(messages) ==> err == Some(MessageNotFound(msgId)) && State() == old(State())
      ensures msgId in old(messages) ==> err == None && State() == Deliver(old(State()), msgId, client, now)
    {
      if msgId !in messages {
        return Some(MessageNotFound(msgId));
      }
      DeliverValid(State(), msgId, client, now);
      var msg := messages[msgId];
      if msg.state == StateNew {
        msg := msg.(state := StateDelivered);
        stats := stats.(newMessages := stats.newMessages - 1, delivered := stats.delivered + 1);
      }
      msg := msg.(consumers := msg.consumers + [ConsumerRecord(client, now, [])]);
      messages := messages[msgId := msg];
      var seen := if client in index then index[client] else [];
      index := index[client := seen + [msgId]];
      return None;
    }

    /** MarkAsConsumed: an unknown id is an error that changes nothing;
        otherwise the message is Consumed, counted once. */
    method MarkAsConsumed(msgId: string, client: string) returns (err: Option<StoreError>)
      requires Valid()
      modifies this
      ensures Valid()
      ensures msgId !in old(messages) ==> err == Some(MessageNotFound(msgId)) && State() == old(State())
      ensures msgId in old(messages) ==> err == None && State() == Consume(old(State()), msgId)
    {
      if msgId !in messages {
        return Some(MessageNotFound(msgId));
      }
      ConsumeValid(State(), msgId);
      var msg := messages[msgId];
      if msg.state != StateConsumed {
        messages := messages[msgId := msg.(state := StateConsumed)];
        stats := stats.(consumed := stats.consumed + 1);
      }
      return None;
    }

    /** ListMessages: every stored message once, in map order. */
    method ListMessages() returns (all: seq<Message>)
      requires Valid()
      ensures |all| == |messages|
      ensures forall id | id in messages :: messages[id] in all
      ensures forall i | 0 <= i < |all| :: all[i].id in messages && messages[all[i].id] == all[i]
    {
      all := [];
      var todo := messages.Keys;
      while todo != {}
        invariant todo <= messages.Keys
        invariant |all| + |todo| == |messages.Keys|
        invariant forall id | id in messages && id !in todo :: messages[id] in all
        invariant forall i | 0 <= i < |all| :: all[i].id in messages && messages[all[i].id] == all[i]
        decreases |todo|
      {
        var id :| id in todo;
        all := all + [messages[id]];
        todo := todo - {id};
      }
    }

    /** CleanExpired: every message created more than `ttl` before `now`
        leaves the store with its chunk names; the count that left is
        returned. */
    method CleanExpired(ttl: int, now: int) returns (removed: int)
      modifies this
      ensures State() == Expire(old(State()), now - ttl)
      ensures removed == |Expired(old(messages), now - ttl)|
    {
      ghost var s0 := old(State());
      var t;
      t, removed := ExpireFrom(State(), now - ttl);
      assert t == Expire(s0, now - ttl) && removed == |Expired(s0.messages, now - ttl)|;
      SetState(t);
    }

    /** Replaces every field at once. */
    method SetState(t: Store)
      modifies this
      ensures State() == t
    {
      messages, chunks, index, stats := t.messages, t.chunks, t.index, t.stats;
    }

    /** GetStats: the counters; the message and chunk totals count what is
        stored. */
    function GetStats(): (r: StorageStats)
      reads this
      ensures r == stats
      ensures Valid() ==> r.totalMessages == |messages| && r.totalChunks == ChunkTotal(messages)
    {
      stats
    }
  }

  /** The status text of a message. */
  function StatusText(m: Message): string
  {
    match m.state
    case StateNew => "new"
    case StateDelivered => "delivered to " + NatToDecimal(|m.consumers|) + " clients"
    case StateConsumed => "consumed"
    case StateExpired => "expired"
  }

  /** Two messages get the same status text exactly when they are in the same
      state and, when Delivered, were handed out the same number of times. */
  lemma StatusTextDistinct(a: Message, b: Message)
    ensures StatusText(a) == StatusText(b) <==>
      a.state == b.state && (a.state == StateDelivered ==> |a.consumers| == |b.consumers|)
  {
    if StatusText(a) == StatusText(b) {
      assert StatusText(a)[0] == StatusText(b)[0];
      if a.state == StateDelivered && b.state == StateDelivered {
        DeliveredTextCount(|a.consumers|, |b.consumers|);
      } else if a.state == StateConsumed || b.state == StateConsumed {
        assert |StatusText(a)| == |StatusText(b)|;
      }
    }
  }

  lemma DeliveredTextCount(n: nat, k: nat)
    requires "delivered to " + NatToDecimal(n) + " clients" == "delivered to " + NatToDecimal(k) + " clients"
    ensures n == k
  {
    var x := "delivered to " + NatToDecimal(n) + " clients";
    var y := "delivered to " + NatToDecimal(k) + " clients";
    assert |NatToDecimal(n)| == |NatToDecimal(k)|;
    assert NatToDecimal(n) == x[13..|x| - 8];
    assert NatToDecimal(k) == y[13..|y| - 8];
    DecimalValueOfNatToDecimal(n);
    DecimalValueOfNatToDecimal(k);
  }

  /** What ConsumeMessages did between two stores: `ids` are the messages
      new to the client, each once, and each was then marked delivered. */
  ghost predicate ConsumedAs(s0: Store, s1: Store, client: string, now: int, ids: seq<string>)
  {
    (forall id :: id in ids <==> id in NewFor(s0, client)) &&
    (forall i, j | 0 <= i < j < |ids| :: ids[i] != ids[j]) &&
    (forall k | 0 <= k < |ids| :: ids[k] in s0.messages) &&
    s1 == DeliverAll(s0, ids, client, now)
  }

  /** The queue manager: publish, consume and acknowledge over one store. */
  class QueueManager {
    const storage: MemoryStorage

    constructor (storage: MemoryStorage)
      ensures this.storage == storage
    {
      this.storage := storage;
    }

    /** PublishMessage: a New message whose expected chunk count is the
        number of chunks given. */
    method PublishMessage(id: string, chunks: map<string, string>, manifest: string, now: int) returns (err: Option<StoreError>)
      requires storage.Valid()
      modifies storage
      ensures storage.Valid()
      ensures id in old(storage.messages) ==> err == Some(AlreadyExists(id)) && storage.State() == old(storage.State())
      ensures id !in old(storage.messages) ==>
                err == None &&
                storage.State() == Insert(old(storage.State()), Message(id, chunks, |chunks|, manifest, now, StateNew, []), now)
    {
      err := storage.StoreMessage(Message(id, chunks, |chunks|, manifest, now, StateNew, []), now);
    }

    /** ConsumeMessages: the new messages for `client`, each then marked
        delivered to it; what is new for that client afterwards is empty. */
    method ConsumeMessages(client: string, now: int) returns (msgs: seq<Message>)
      requires storage.Valid()
      modifies storage
      ensures storage.Valid()
      ensures ConsumedAs(old(storage.State()), storage.State(), client, now, Ids(msgs))
      ensures NewFor(storage.State(), client) == {}
    {
      msgs := storage.GetNewMessages(client);
      ghost var s0 := storage.State();
      ghost var ids := Ids(msgs);
      assert forall k | 0 <= k < |ids| :: ids[k] in s0.messages;
      for i := 0 to |msgs|
        invariant storage.Valid()
        invariant storage.State() == DeliverAll(s0, ids[..i], client, now)
      {
        DeliverAllStep(s0, ids, i, client, now);
        var _ := storage.MarkAsDelivered(msgs[i].id, client, now);
      }
      assert ids[..|msgs|] == ids;
      DeliverAllNewFor(s0, ids, client, now);
    }

    /** AcknowledgeMessage: MarkAsConsumed. */
    method AcknowledgeMessage(msgId: string, client: string) returns (err: Option<StoreError>)
      requires storage.Valid()
      modifies storage
      ensures storage.Valid()
      ensures msgId !in old(storage.messages) ==> err == Some(MessageNotFound(msgId)) && storage.State() == old(storage.State())
      ensures msgId in old(storage.messages) ==> err == None && storage.State() == Consume(old(storage.State()), msgId)
    {
      err := storage.MarkAsConsumed(msgId, client);
    }

    /** GetMessageStatus: the status text of a stored message. */
    function GetMessageStatus(msgId: string): (r: Result<string, StoreError>)
      reads this, storage
      ensures r.Ok? <==> msgId in storage.messages
      ensures r.Ok? ==> r.value == StatusText(storage.messages[msgId])
      ensures r.Err? ==> r.error == MessageNotFound(msgId)
    {
      match storage.GetMessage(msgId)
      case Ok(m) => Ok(StatusText(m))
      case Err(e) => Err(e)
    }
  }
}
