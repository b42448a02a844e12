/** The state of the DNS server's message store as a value: messages with
    their chunks, a chunk-name index for direct lookups, a per-client
    delivery index and counters; each store operation as a function of the
    state before it, and the invariant every operation keeps. */
module StoreState {
  import opened MapSums
  import opened MapCards

  /** New → Delivered → Consumed; Expired is never assigned by the store. */
  datatype MessageState = StateNew | StateDelivered | StateConsumed | StateExpired

  datatype ConsumerRecord = ConsumerRecord(clientIp: string, fetchedAt: int, chunksFetched: seq<string>)

  /** A message: its chunks by record name, the manifest text and its life cycle. */
  datatype Message = Message(id: string, chunks: map<string, string>, totalChunks: int, manifest: string,
                             createdAt: int, state: MessageState, consumers: seq<ConsumerRecord>)

  datatype StorageStats = StorageStats(totalMessages: int, newMessages: int, delivered: int, consumed: int,
                                       totalChunks: int, memoryUsage: int)

  /** The whole state of a memory store. */
  datatype Store = Store(messages: map<string, Message>, chunks: map<string, string>,
                         index: map<string, seq<string>>, stats: StorageStats)

  const EmptyStore := Store(map[], map[], map[], StorageStats(0, 0, 0, 0, 0, 0))

  function ChunkCount(m: Message): nat
  {
    |m.chunks|
  }

  /** The number of chunks held by the messages of `ms`, each message counted
      with all of its chunks. */
  ghost function ChunkTotal(ms: map<string, Message>): nat
  {
    Total(ms, ChunkCount)
  }

  /** Every message is stored under its own id. */
  ghost predicate KeyedById(ms: map<string, Message>)
  {
    forall id | id in ms :: ms[id].id == id
  }

  /** Some message of `ms` holds `data` under the chunk name `name`. */
  ghost predicate Holds(ms: map<string, Message>, name: string, data: string)
  {
    exists id | id in ms :: name in ms[id].chunks && ms[id].chunks[name] == data
  }

  /** Every indexed chunk name maps to data that a stored message holds
      under that name. */
  ghost predicate IndexOwned(ms: map<string, Message>, index: map<string, string>)
  {
    forall name | name in index :: Holds(ms, name, index[name])
  }

  /** The store's invariant: messages are keyed by their ids, the counters
      count the stored messages and their chunks, and the chunk index holds
      only chunks of stored messages. */
  ghost predicate ValidStore(s: Store)
  {
    KeyedById(s.messages) &&
    s.stats.totalMessages == |s.messages| &&
    s.stats.totalChunks == ChunkTotal(s.messages) &&
    IndexOwned(s.messages, s.chunks)
  }

  /** The ids client `client` has been handed, in order; none yet is empty. */
  function Seen(s: Store, client: string): seq<string>
  {
    if client in s.index then s.index[client] else []
  }

  /** The messages still New that `client` has not been handed. */
  function NewFor(s: Store, client: string): set<string>
  {
    set id | id in s.messages && s.messages[id].state == StateNew && id !in Seen(s, client)
  }

  /** StoreMessage on a fresh id: the message is stored as New at `now`, its
      chunks overwrite the index entries of the same names, and the counters
      gain one message, one New message and its chunks. */
  function Insert(s: Store, msg: Message, now: int): (t: Store)
    requires msg.id !in s.messages
    ensures t.messages.Keys == s.messages.Keys + {msg.id}
  {
    Store(s.messages[msg.id := msg.(state := StateNew, createdAt := now)],
          s.chunks + msg.chunks,
          s.index,
          s.stats.(totalMessages := s.stats.totalMessages + 1,
                   newMessages := s.stats.newMessages + 1,
                   totalChunks := s.stats.totalChunks + |msg.chunks|))
  }

  /** A store whose fields are those of an insertion is that insertion. */
  lemma InsertFields(s: Store, msg: Message, now: int, t: Store)
    requires msg.id !in s.messages
    requires t.messages == s.messages[msg.id := msg.(state := StateNew, createdAt := now)]
    requires t.chunks == s.chunks + msg.chunks && t.index == s.index
    requires t.stats == s.stats.(totalMessages := s.stats.totalMessages + 1,
                                 newMessages := s.stats.newMessages + 1,
                                 totalChunks := s.stats.totalChunks + |msg.chunks|)
    ensures t == Insert(s, msg, now)
  {
  }

  /** MarkAsDelivered of a stored id: only a New message becomes Delivered
      (moving one count from New to Delivered), but a consumer record and
      the client's index entry are appended every time. */
  function Deliver(s: Store, id: string, client: string, now: int): (t: Store)
    requires id in s.messages
    ensures t.messages.Keys == s.messages.Keys
  {
    var m := s.messages[id];
    var wasNew := m.state == StateNew;
    var delivered := m.(state := if wasNew then StateDelivered else m.state,
                        consumers := m.consumers + [ConsumerRecord(client, now, [])]);
    Store(s.messages[id := delivered],
          s.chunks,
          s.index[client := Seen(s, client) + [id]],
          if wasNew then s.stats.(newMessages := s.stats.newMessages - 1, delivered := s.stats.delivered + 1)
          else s.stats)
  }

  /** MarkAsConsumed of a stored id: the message becomes Consumed and the
      Consumed counter grows, unless it was Consumed already. */
  function Consume(s: Store, id: string): (t: Store)
    requires id in s.messages
    ensures t.messages.Keys == s.messages.Keys
  {
    var m := s.messages[id];
    if m.state == StateConsumed then s
    else Store(s.messages[id := m.(state := StateConsumed)], s.chunks, s.index,
               s.stats.(consumed := s.stats.consumed + 1))
  }

  /** The messages of `ms` created strictly before `cutoff`. */
  function Expired(ms: map<string, Message>, cutoff: int): map<string, Message>
  {
    map id | id in ms && ms[id].createdAt < cutoff :: ms[id]
  }

  /** Every chunk name of the messages of `ms`. */
  function ChunkNames(ms: map<string, Message>): set<string>
  {
    set id, name | id in ms && name in ms[id].chunks :: name
  }

  /** CleanExpired with cutoff now − ttl: the expired messages and every chunk
      name they hold leave the store, and the message and chunk totals drop by
      what left. The per-state counters and the client index are kept. */
  ghost function Expire(s: Store, cutoff: int): Store
  {
    var gone := Expired(s.messages, cutoff);
    Store(s.messages - gone.Keys,
          s.chunks - ChunkNames(gone),
          s.index,
          s.stats.(totalMessages := s.stats.totalMessages - |gone|,
                   totalChunks := s.stats.totalChunks - ChunkTotal(gone)))
  }

  lemma EmptyStoreValid()
    ensures ValidStore(EmptyStore)
  {
  }

  /** Indexing the chunks of a newly added message gives every indexed name
      an owner. */
  lemma IndexOwnedInsert(ms: map<string, Message>, index: map<string, string>, m: Message)
    requires m.id !in ms
    requires IndexOwned(ms, index)
    ensures IndexOwned(ms[m.id := m], index + m.chunks)
  {
    var ms' := ms[m.id := m];
    forall name | name in index + m.chunks
      ensures Holds(ms', name, (index + m.chunks)[name])
    {
      if name in m.chunks {
        assert ms'[m.id].chunks[name] == (index + m.chunks)[name];
      } else {
        var o :| o in ms && name in ms[o].chunks && ms[o].chunks[name] == index[name];
        assert ms'[o] == ms[o];
      }
    }
  }

  /** Storing a fresh message keeps the invariant. */
  lemma InsertValid(s: Store, msg: Message, now: int)
    requires ValidStore(s) && msg.id !in s.messages
    ensures ValidStore(Insert(s, msg, now))
  {
    AddValid(s, msg.(state := StateNew, createdAt := now), Insert(s, msg, now));
  }

  /** A fresh message may be added under its id, with its chunks indexed and
      counted. */
  lemma AddValid(s: Store, m: Message, t: Store)
    requires ValidStore(s) && m.id !in s.messages
    requires t.messages == s.messages[m.id := m] && t.chunks == s.chunks + m.chunks
    requires t.stats.totalMessages == s.stats.totalMessages + 1
    requires t.stats.totalChunks == s.stats.totalChunks + |m.chunks|
    ensures ValidStore(t)
  {
    TotalInsert(s.messages, ChunkCount, m.id, m);
    IndexOwnedInsert(s.messages, s.chunks, m);
    CardInsert(s.messages, m.id, m);
    KeyedByIdUpdate(s.messages, m);
  }

  lemma KeyedByIdUpdate(ms: map<string, Message>, m: Message)
    requires KeyedById(ms)
    ensures KeyedById(ms[m.id := m])
  {
  }

  /** Replacing a message by one with the same chunks keeps every owner. */
  lemma IndexOwnedReplace(ms: map<string, Message>, k: string, m: Message, index: map<string, string>)
    requires k in ms && m.chunks == ms[k].chunks
    requires IndexOwned(ms, index)
    ensures IndexOwned(ms[k := m], index)
  {
    forall name | name in index
      ensures Holds(ms[k := m], name, index[name])
    {
      var o :| o in ms && name in ms[o].chunks && ms[o].chunks[name] == index[name];
      assert ms[k := m][o].chunks == ms[o].chunks;
    }
  }

  /** A message may be replaced by one with the same id and chunks. */
  lemma ReplaceValid(s: Store, id: string, m: Message, t: Store)
    requires ValidStore(s) && id in s.messages && m.id == id && m.chunks == s.messages[id].chunks
    requires t.messages == s.messages[id := m] && t.chunks == s.chunks
    requires t.stats.totalMessages == s.stats.totalMessages && t.stats.totalChunks == s.stats.totalChunks
    ensures ValidStore(t)
  {
    TotalReplace(s.messages, ChunkCount, id, m);
    IndexOwnedReplace(s.messages, id, m, s.chunks);
    KeyedByIdUpdate(s.messages, m);
    assert t.messages.Keys == s.messages.Keys;
  }

  /** Delivery keeps the invariant. */
  lemma DeliverValid(s: Store, id: string, client: string, now: int)
    requires ValidStore(s) && id in s.messages
    ensures ValidStore(Deliver(s, id, client, now))
  {
    var t := Deliver(s, id, client, now);
    ReplaceValid(s, id, t.messages[id], t);
  }

  /** Consumption keeps the invariant. */
  lemma ConsumeValid(s: Store, id: string)
    requires ValidStore(s) && id in s.messages
    ensures ValidStore(Consume(s, id))
  {
    if s.messages[id].state != StateConsumed {
      var t := Consume(s, id);
      ReplaceValid(s, id, t.messages[id], t);
    }
  }

  /** Every chunk name of a message of `ms` is among ChunkNames(ms). */
  lemma ChunkNamesCover(ms: map<string, Message>)
    ensures forall o, name | o in ms && name in ms[o].chunks :: name in ChunkNames(ms)
  {
  }

  /** Dropping messages together with all of their chunk names leaves every
      remaining indexed name with an owner. */
  lemma IndexOwnedSplit(ms: map<string, Message>, index: map<string, string>, gone: map<string, Message>)
    requires SubMap(gone, ms) && IndexOwned(ms, index)
    ensures IndexOwned(ms - gone.Keys, index - ChunkNames(gone))
  {
    var rest := ms - gone.Keys;
    var left := index - ChunkNames(gone);
    ChunkNamesCover(gone);
    forall name | name in left
      ensures Holds(rest, name, left[name])
    {
      var o :| o in ms && name in ms[o].chunks && ms[o].chunks[name] == index[name];
      assert o !in gone;
      assert rest[o] == ms[o];
    }
  }

  /** Dropping some of the stored messages together with all of their chunk
      names, and taking them off the two totals, keeps the invariant. */
  lemma DropValid(s: Store, gone: map<string, Message>, t: Store)
    requires ValidStore(s) && SubMap(gone, s.messages)
    requires t.messages == s.messages - gone.Keys && t.chunks == s.chunks - ChunkNames(gone)
    requires t.stats.totalMessages == s.stats.totalMessages - |gone|
    requires t.stats.totalChunks == s.stats.totalChunks - ChunkTotal(gone)
    ensures ValidStore(t)
  {
    TotalSplit(s.messages, gone, ChunkCount);
    CardSplit(s.messages, gone);
    IndexOwnedSplit(s.messages, s.chunks, gone);
  }

  /** Expiry keeps the invariant. */
  lemma ExpireValid(s: Store, cutoff: int, t: Store)
    requires t == Expire(s, cutoff)
    ensures ValidStore(s) ==> ValidStore(t)
  {
    if ValidStore(s) {
      DropValid(s, Expired(s.messages, cutoff), t);
    }
  }

  /** Acknowledging twice is acknowledging once, and consumption never lowers
      the New or Delivered counters. */
  lemma ConsumeIdempotent(s: Store, id: string)
    requires id in s.messages
    ensures Consume(Consume(s, id), id) == Consume(s, id)
    ensures var t := Consume(s, id);
            t.stats.newMessages == s.stats.newMessages && t.stats.delivered == s.stats.delivered &&
            t.stats.consumed >= s.stats.consumed && t.messages[id].state == StateConsumed
  {
  }
  /** The ids of the messages, in order. */
  function Ids(ms: seq<Message>): (ids: seq<string>)
    ensures |ids| == |ms| && forall k | 0 <= k < |ms| :: ids[k] == ms[k].id
  {
    seq(|ms|, k requires 0 <= k < |ms| => ms[k].id)
  }

  /** The ids of one more message. */
  lemma IdsStep(ms: seq<Message>, i: int)
    requires 0 <= i < |ms|
    ensures Ids(ms)[..i] + [ms[i].id] == Ids(ms)[..i + 1]
  {
  }

  /** MarkAsDelivered of each id in turn, every one stamped `now`. */
  function DeliverAll(s: Store, ids: seq<string>, client: string, now: int): (t: Store)
    requires forall k | 0 <= k < |ids| :: ids[k] in s.messages
    ensures t.messages.Keys == s.messages.Keys
  {
    if |ids| == 0 then s
    else Deliver(DeliverAll(s, ids[..|ids| - 1], client, now), ids[|ids| - 1], client, now)
  }

  /** Handing a message to a client takes it out of what is new for that
      client, and leaves the rest of what is new as it was. */
  lemma DeliverNewFor(s: Store, id: string, client: string, now: int)
    requires id in s.messages
    ensures NewFor(Deliver(s, id, client, now), client) == NewFor(s, client) - {id}
  {
    var t := Deliver(s, id, client, now);
    assert Seen(t, client) == Seen(s, client) + [id];
    forall x | x in t.messages
      ensures x in NewFor(t, client) <==> x in NewFor(s, client) - {id}
    {
      if x != id {
        assert t.messages[x] == s.messages[x];
        assert x in Seen(t, client) <==> x in Seen(s, client);
      }
    }
  }

  /** Handing out a list of ids takes all of them out of what is new for the
      client, and nothing else. */
  lemma {:induction false} DeliverAllNewFor(s: Store, ids: seq<string>, client: string, now: int)
    requires forall k | 0 <= k < |ids| :: ids[k] in s.messages
    ensures NewFor(DeliverAll(s, ids, client, now), client) == NewFor(s, client) - (set x | x in ids)
  {
    if |ids| > 0 {
      var init, last := ids[..|ids| - 1], ids[|ids| - 1];
      DeliverAllNewFor(s, init, client, now);
      DeliverNewFor(DeliverAll(s, init, client, now), last, client, now);
      SnocSet(init, last, ids);
    }
  }

  /** The elements of a list with one more at the end. */
  lemma SnocSet(init: seq<string>, last: string, ids: seq<string>)
    requires ids == init + [last]
    ensures (set x | x in ids) == (set x | x in init) + {last}
  {
  }

  /** Handing out one more id of a list delivers it after the ones before. */
  lemma DeliverAllStep(s: Store, ids: seq<string>, i: int, client: string, now: int)
    requires 0 <= i < |ids|
    requires forall k | 0 <= k < |ids| :: ids[k] in s.messages
    ensures ids[i] in DeliverAll(s, ids[..i], client, now).messages
    ensures DeliverAll(s, ids[..i + 1], client, now) == Deliver(DeliverAll(s, ids[..i], client, now), ids[i], client, now)
  {
    assert ids[..i + 1][..i] == ids[..i];
  }

  /** Handing out a list of ids keeps the invariant. */
  lemma {:induction false} DeliverAllValid(s: Store, ids: seq<string>, client: string, now: int)
    requires ValidStore(s)
    requires forall k | 0 <= k < |ids| :: ids[k] in s.messages
    ensures ValidStore(DeliverAll(s, ids, client, now))
  {
    if |ids| > 0 {
      DeliverAllValid(s, ids[..|ids| - 1], client, now);
      DeliverValid(DeliverAll(s, ids[..|ids| - 1], client, now), ids[|ids| - 1], client, now);
    }
  }

  /** The chunk names of one more message are its own names added. */
  lemma ChunkNamesInsert(ms: map<string, Message>, k: string, m: Message)
    requires k !in ms
    ensures ChunkNames(ms[k := m]) == ChunkNames(ms) + m.chunks.Keys
  {
    var ms' := ms[k := m];
    forall name | name in ChunkNames(ms') ensures name in ChunkNames(ms) + m.chunks.Keys {
      var o :| o in ms' && name in ms'[o].chunks;
      if o != k {
        assert name in ms[o].chunks;
      }
    }
    forall name | name in ChunkNames(ms) + m.chunks.Keys ensures name in ChunkNames(ms') {
      if name in m.chunks {
        assert name in ms'[k].chunks;
      } else {
        var o :| o in ms && name in ms[o].chunks;
        assert ms'[o] == ms[o];
      }
    }
  }

  /** Part way through CleanExpired's loop: `gone` holds the messages created
      before `cutoff` among those already visited (all but `todo`), the
      messages and chunks left are what remains once they and their chunk
      names are deleted, and the counts are how many messages and chunks
      have left. */
  ghost predicate Expiring(messages: map<string, Message>, chunks: map<string, string>, cutoff: int,
                           todo: set<string>, gone: map<string, Message>,
                           kept: map<string, Message>, left: map<string, string>, removed: int, dropped: int)
  {
    Visited(messages, cutoff, todo, gone) && Tally(messages, chunks, gone, kept, left, removed, dropped)
  }

  /** The messages that have left are exactly the visited ones created
      before the cutoff, each as stored. */
  ghost predicate Visited(messages: map<string, Message>, cutoff: int, todo: set<string>, gone: map<string, Message>)
  {
    todo <= messages.Keys &&
    (forall id :: id in gone <==> id in messages && id !in todo && messages[id].createdAt < cutoff) &&
    (forall id | id in gone :: gone[id] == messages[id])
  }

  /** What remains, and the counts, once the messages in `gone` have left. */
  ghost predicate Tally(messages: map<string, Message>, chunks: map<string, string>, gone: map<string, Message>,
                        kept: map<string, Message>, left: map<string, string>, removed: int, dropped: int)
  {
    kept == messages - gone.Keys &&
    left == chunks - ChunkNames(gone) &&
    removed == |gone| &&
    dropped == ChunkTotal(gone)
  }

  /** Before the first message nothing has left. */
  lemma ExpiringStart(messages: map<string, Message>, chunks: map<string, string>, cutoff: int)
    ensures Expiring(messages, chunks, cutoff, messages.Keys, map[], messages, chunks, 0, 0)
  {
    assert ChunkNames(map[]) == {};
  }

  /** Visiting an expired message moves it, its chunk names and its counts
      to the side that has left. */
  lemma ExpiringDrop(messages: map<string, Message>, chunks: map<string, string>, cutoff: int,
                     todo: set<string>, gone: map<string, Message>,
                     kept: map<string, Message>, left: map<string, string>, removed: int, dropped: int, id: string)
    requires Expiring(messages, chunks, cutoff, todo, gone, kept, left, removed, dropped)
    requires id in todo && messages[id].createdAt < cutoff
    ensures Expiring(messages, chunks, cutoff, todo - {id}, gone[id := messages[id]],
                     kept - {id}, left - messages[id].chunks.Keys, removed + 1, dropped + |messages[id].chunks|)
  {
    VisitedDrop(messages, cutoff, todo, gone, id);
    TallyDrop(messages, chunks, gone, kept, left, removed, dropped, id, messages[id]);
  }

  /** Visiting an expired message adds it to those that have left. */
  lemma VisitedDrop(messages: map<string, Message>, cutoff: int, todo: set<string>, gone: map<string, Message>, id: string)
    requires Visited(messages, cutoff, todo, gone)
    requires id in todo && messages[id].createdAt < cutoff
    ensures Visited(messages, cutoff, todo - {id}, gone[id := messages[id]])
  {
  }

  /** One more message leaving takes its chunk names and counts with it. */
  lemma TallyDrop(messages: map<string, Message>, chunks: map<string, string>, gone: map<string, Message>,
                  kept: map<string, Message>, left: map<string, string>, removed: int, dropped: int,
                  id: string, msg: Message)
    requires Tally(messages, chunks, gone, kept, left, removed, dropped)
    requires id !in gone
    ensures Tally(messages, chunks, gone[id := msg], kept - {id}, left - msg.chunks.Keys, removed + 1, dropped + |msg.chunks|)
  {
    ExpireOneKept(messages, gone, id, msg);
    ExpireOneNames(chunks, gone, id, msg);
    ExpireOneCounts(gone, id, msg);
  }

  /** Visiting a message that has not expired changes nothing else. */
  lemma ExpiringKeep(messages: map<string, Message>, chunks: map<string, string>, cutoff: int,
                     todo: set<string>, gone: map<string, Message>,
                     kept: map<string, Message>, left: map<string, string>, removed: int, dropped: int, id: string)
    requires Expiring(messages, chunks, cutoff, todo, gone, kept, left, removed, dropped)
    requires id in todo && messages[id].createdAt >= cutoff
    ensures Expiring(messages, chunks, cutoff, todo - {id}, gone, kept, left, removed, dropped)
  {
  }

  /** Once every message has been visited, what has left is Expired. */
  lemma ExpiringDone(messages: map<string, Message>, chunks: map<string, string>, cutoff: int,
                     gone: map<string, Message>,
                     kept: map<string, Message>, left: map<string, string>, removed: int, dropped: int)
    requires Expiring(messages, chunks, cutoff, {}, gone, kept, left, removed, dropped)
    ensures gone == Expired(messages, cutoff)
  {
  }

  /** One more expired message: the messages left lose it. */
  lemma ExpireOneKept(messages: map<string, Message>, gone: map<string, Message>, id: string, msg: Message)
    ensures messages - gone[id := msg].Keys == messages - gone.Keys - {id}
  {
    assert gone[id := msg].Keys == gone.Keys + {id};
    MinusUnion(messages, gone.Keys, {id});
  }

  /** One more expired message: the chunks left lose its chunk names. */
  lemma ExpireOneNames(chunks: map<string, string>, gone: map<string, Message>, id: string, msg: Message)
    requires id !in gone
    ensures chunks - ChunkNames(gone[id := msg]) == chunks - ChunkNames(gone) - msg.chunks.Keys
  {
    ChunkNamesInsert(gone, id, msg);
    MinusUnion(chunks, ChunkNames(gone), msg.chunks.Keys);
  }

  /** One more expired message: one more message and its chunks have left. */
  lemma ExpireOneCounts(gone: map<string, Message>, id: string, msg: Message)
    requires id !in gone
    ensures |gone[id := msg]| == |gone| + 1 && ChunkTotal(gone[id := msg]) == ChunkTotal(gone) + |msg.chunks|
  {
    TotalInsert(gone, ChunkCount, id, msg);
    CardInsert(gone, id, msg);
  }

  /** Indexing the chunks of a message already held keeps every indexed name
      with an owner, whatever the index held under those names. */
  lemma IndexOwnedAdd(ms: map<string, Message>, index: map<string, string>, k: string)
    requires k in ms && IndexOwned(ms, index)
    ensures IndexOwned(ms, index + ms[k].chunks)
  {
    forall name | name in index + ms[k].chunks
      ensures Holds(ms, name, (index + ms[k].chunks)[name])
    {
      if name in ms[k].chunks {
        assert ms[k].chunks[name] == (index + ms[k].chunks)[name];
      }
    }
  }
}
