/** The DNS server's handlers: consume queries that hand out the ids of new
    messages, chunk queries answered by a substring search of a message's
    chunk names, and the zone-file loader that publishes a message. */
module DnsServer {
  import opened Bytes
  import opened Text
  import opened DnsNames
  import opened StoreState
  import opened Storage
  import opened DnsQuery
  import DnsEncoder

  /** The one client every consume query is served as. */
  const ConsumeClient: string := "client-default"

  /** TTLs of chunk answers and of the short-lived consume answers. */
  const ChunkTtl: int := 300
  const ConsumeTtl: int := 60

  /** handleTXT's routing: a name containing "consume." anywhere is a
      consume query. */
  predicate IsConsumeQuery(qname: string)
  {
    Contains(qname, "consume.")
  }

  // ---------------------------------------------------------------------
  // Chunk queries.

  /** What a chunk query asks for: nothing it can serve, a stored
      message's manifest, or a chunk of a stored message by label. */
  datatype Target = NoTarget | ManifestOf(id: string) | ChunkOf(id: string, lab: string)

  /** handleChunkQuery's reading of a normalised name: two labels at least,
      and a first label carrying the id of a stored message. */
  function ChunkTarget(messages: map<string, Message>, qname: string): (t: Target)
    ensures t.ManifestOf? ==> t.id in messages
    ensures t.ChunkOf? ==> t.id in messages && !HasPrefix(t.lab, "m-") && t.lab == FirstLabel(qname)
    ensures !t.NoTarget? ==> t.id == QueryId(FirstLabel(qname)) && |Split(qname, '.')| >= 2
  {
    var parts := Split(qname, '.');
    if |parts| < 2 then NoTarget
    else
      var id := QueryId(parts[0]);
      if id == "" || id !in messages then NoTarget
      else if HasPrefix(parts[0], "m-") then ManifestOf(id)
      else ChunkOf(id, parts[0])
  }

  /** The answer a non-empty value gets, named by the query with its dot
      back; an empty value gets none. */
  function Served(qname: string, ttl: int, value: string): (a: seq<TxtAnswer>)
    ensures |a| <= 1
    ensures a != [] <==> value != ""
  {
    if value != "" then [TxtAnswer(qname + ".", ttl, value)] else []
  }

  /** The answer sections a chunk query may leave: unchanged without a
      target; the manifest's answer; for a chunk, nothing when no chunk
      name contains the label, else the answer of some chunk whose name
      contains it. */
  ghost predicate ChunkReply(messages: map<string, Message>, qname: string, before: seq<TxtAnswer>, after: seq<TxtAnswer>)
  {
    match ChunkTarget(messages, qname)
    case NoTarget => after == before
    case ManifestOf(id) => after == before + Served(qname, ChunkTtl, messages[id].manifest)
    case ChunkOf(id, lab) =>
      var chunks := messages[id].chunks;
      ((forall n | n in chunks :: !Contains(n, lab)) ==> after == before) &&
      ((exists n | n in chunks :: Contains(n, lab)) ==>
         exists n | n in chunks && Contains(n, lab) :: after == before + Served(qname, ChunkTtl, chunks[n]))
  }

  /** handleChunkQuery's search: the data of the first chunk, in map order,
      whose name contains the label; "" when none does. */
  method FindChunk(chunks: map<string, string>, lab: string) returns (value: string)
    ensures (forall n | n in chunks :: !Contains(n, lab)) ==> value == ""
    ensures (exists n | n in chunks :: Contains(n, lab)) ==>
              exists n | n in chunks && Contains(n, lab) :: value == chunks[n]
  {
    value := "";
    var todo := chunks.Keys;
    while todo != {}
      invariant todo <= chunks.Keys
      invariant value == ""
      invariant forall n | n in chunks && n !in todo :: !Contains(n, lab)
      decreases |todo|
    {
      var n :| n in todo;
      if Contains(n, lab) {
        value := chunks[n];
        return;
      }
      todo := todo - {n};
    }
  }

  /** A chunk query adds at most one answer, after those already there,
      named by the query, with the chunk TTL and a value the message holds. */
  lemma ChunkReplyAppends(messages: map<string, Message>, qname: string, before: seq<TxtAnswer>, after: seq<TxtAnswer>)
    requires ChunkReply(messages, qname, before, after)
    ensures |before| <= |after| <= |before| + 1 && after[..|before|] == before
    ensures |after| == |before| + 1 ==>
              after[|before|].name == qname + "." && after[|before|].ttl == ChunkTtl && after[|before|].value != ""
  {
    match ChunkTarget(messages, qname)
    case NoTarget =>
    case ManifestOf(id) =>
    case ChunkOf(id, lab) =>
      var chunks := messages[id].chunks;
      if exists n | n in chunks :: Contains(n, lab) {
        var n :| n in chunks && Contains(n, lab) && after == before + Served(qname, ChunkTtl, chunks[n]);
      }
  }

  /** A chunk a client asks for by its label is served when exactly one of
      the message's chunk names contains that label: a zone-loaded name
      "<label>.<zone>", say, with no other name around it. */
  lemma ChunkReplyUnique(messages: map<string, Message>, index: nat, id: string, zone: string, n: string,
                         before: seq<TxtAnswer>, after: seq<TxtAnswer>)
    requires id != "" && '-' !in id && '.' !in id && id in messages
    requires n in messages[id].chunks && Contains(n, ChunkLabelText(index, id))
    requires forall m | m in messages[id].chunks && Contains(m, ChunkLabelText(index, id)) :: m == n
    requires ChunkReply(messages, ChunkLabelText(index, id) + "." + zone, before, after)
    ensures after == before + Served(ChunkLabelText(index, id) + "." + zone, ChunkTtl, messages[id].chunks[n])
  {
    var lab := ChunkLabelText(index, id);
    var qname := lab + "." + zone;
    ChunkLabelTextShape(index, id);
    FirstLabelOf(lab, "." + zone);
    assert qname == lab + ['.'] + zone;
    SplitAt(lab, '.', zone);
    QueryIdOfChunkLabel(index, id);
    NotManifestLabel(lab);
    assert ChunkTarget(messages, qname) == ChunkOf(id, lab);
  }

  // ---------------------------------------------------------------------
  // Consume queries.

  /** handleConsume's loop: the ids of the consumed messages, in order. */
  method CollectIds(msgs: seq<Message>) returns (ids: seq<string>)
    ensures ids == Ids(msgs)
  {
    ids := [];
    for i := 0 to |msgs|
      invariant ids == Ids(msgs)[..i]
    {
      IdsStep(msgs, i);
      ids := ids + [msgs[i].id];
    }
    assert Ids(msgs)[..|msgs|] == Ids(msgs);
  }

  /** A consume answer lists the ids back: split at its commas, the joined
      value is the id list, when no id holds a comma. */
  lemma ConsumeAnswerReadsBack(ids: seq<string>)
    requires |ids| > 0 && forall k | 0 <= k < |ids| :: ',' !in ids[k]
    ensures Split(Join(ids, ","), ',') == ids
  {
    SplitJoin(ids, ',');
  }

  // ---------------------------------------------------------------------
  // Zone files.

  datatype ZoneRecord = ZoneRecord(name: string, value: string)

  /** One line of a zone file: a line holding " IN TXT " with at least five
      fields gives its first field without a trailing dot and the text
      between the line's first and last double quote. */
  function ParseZoneLine(line: string): (r: Option<ZoneRecord>)
    ensures r.Some? ==> Contains(line, " IN TXT ") && |r.value.value| <= |line|
  {
    if !Contains(line, " IN TXT ") then None
    else
      var fields := Fields(line);
      if |fields| < 5 then None
      else
        var start := Index(line, "\"");
        var end := LastIndexOf(line, '"');
        if 0 <= start < end then Some(ZoneRecord(TrimSuffix(fields[0], "."), line[start + 1..end]))
        else None
  }

  /** The chunks and manifest read so far. */
  datatype ZoneContent = ZoneContent(chunks: map<string, string>, manifest: string)

  /** One parsed record taken in: a name containing "m-" sets the manifest,
      otherwise a name containing "c-" files a chunk under the full name. */
  function TakeRecord(z: ZoneContent, r: ZoneRecord): ZoneContent
  {
    if Contains(r.name, "m-") then z.(manifest := r.value)
    else if Contains(r.name, "c-") then z.(chunks := z.chunks[r.name := r.value])
    else z
  }

  /** LoadChunkedMessage's loop over the lines, in order. */
  function ReadZone(lines: seq<string>): ZoneContent
  {
    if |lines| == 0 then ZoneContent(map[], "")
    else
      var before := ReadZone(lines[..|lines| - 1]);
      match ParseZoneLine(lines[|lines| - 1])
      case None => before
      case Some(r) => TakeRecord(before, r)
  }

  /** Every chunk name read contains "c-" and no "m-": a name with both is
      taken for the manifest. */
  lemma {:induction false} ReadZoneChunkNames(lines: seq<string>)
    ensures forall n | n in ReadZone(lines).chunks :: Contains(n, "c-") && !Contains(n, "m-")
  {
    if |lines| > 0 {
      ReadZoneChunkNames(lines[..|lines| - 1]);
    }
  }

  /** A chunk after one more record: the record's own, or one from before
      with its value kept. */
  lemma TakeRecordChunk(z: ZoneContent, r: ZoneRecord, n: string)
    requires n in TakeRecord(z, r).chunks
    ensures (n == r.name && TakeRecord(z, r).chunks[n] == r.value) ||
            (n in z.chunks && TakeRecord(z, r).chunks[n] == z.chunks[n])
  {
  }

  /** Each chunk read holds the value of a line that names it. */
  lemma {:induction false} ReadZoneChunkSource(lines: seq<string>, n: string)
    requires n in ReadZone(lines).chunks
    ensures exists k | 0 <= k < |lines| :: ParseZoneLine(lines[k]) == Some(ZoneRecord(n, ReadZone(lines).chunks[n]))
  {
    var init := lines[..|lines| - 1];
    var last := |lines| - 1;
    var before := ReadZone(init);
    var v := ReadZone(lines).chunks[n];
    var p := ParseZoneLine(lines[last]);
    assert ReadZone(lines) == if p.None? then before else TakeRecord(before, p.value);
    if p.Some? && n == p.value.name && v == p.value.value {
      assert p == Some(ZoneRecord(n, v));
    } else {
      if p.Some? {
        TakeRecordChunk(before, p.value, n);
      }
      assert n in before.chunks && v == before.chunks[n];
      ReadZoneChunkSource(init, n);
      var k :| 0 <= k < |init| && ParseZoneLine(init[k]) == Some(ZoneRecord(n, v));
      assert lines[k] == init[k];
    }
  }

  /** A line that sets the manifest: it parses to a name containing "m-". */
  predicate ManifestLine(line: string)
  {
    ParseZoneLine(line).Some? && Contains(ParseZoneLine(line).value.name, "m-")
  }

  /** A manifest read is the value of some manifest line of the zone. */
  lemma {:induction false} ReadZoneManifestSource(lines: seq<string>)
    requires ReadZone(lines).manifest != ""
    ensures exists k | 0 <= k < |lines| :: ManifestLine(lines[k]) && ParseZoneLine(lines[k]).value.value == ReadZone(lines).manifest
  {
    var init := lines[..|lines| - 1];
    var last := |lines| - 1;
    if ManifestLine(lines[last]) {
      assert ParseZoneLine(lines[last]).value.value == ReadZone(lines).manifest;
    } else {
      assert ReadZone(lines).manifest == ReadZone(init).manifest;
      ReadZoneManifestSource(init);
      var k :| 0 <= k < |init| && ManifestLine(init[k]) && ParseZoneLine(init[k]).value.value == ReadZone(init).manifest;
      assert lines[k] == init[k];
    }
  }

  /** The line GenerateZoneFile writes for a record: name with its dot, TTL,
      class IN, type and the quoted value. */
  function ZoneLine(r: DnsEncoder.DNSRecord): string
  {
    r.name + ". " + IntToDecimal(r.ttl) + " IN " + r.rtype + " \"" + r.value + "\""
  }

  /** The characters of a record line before its value: no white space or
      double quote in the name with its dot, nor in the TTL. */
  predicate PlainName(name: string)
  {
    forall c | c in name :: !IsSpace(c) && c != '"'
  }

  /** A word: non-empty, no white space. */
  predicate Word(w: string)
  {
    |w| > 0 && forall c | c in w :: !IsSpace(c)
  }

  /** Four words and a rest that starts with a non-space character make
      at least five fields, the first being the first word. */
  lemma FourWords(w1: string, w2: string, w3: string, w4: string, q: string)
    requires Word(w1) && Word(w2) && Word(w3) && Word(w4) && |q| > 0 && !IsSpace(q[0])
    ensures var fields := Fields(w1 + " " + (w2 + " " + (w3 + " " + (w4 + " " + q))));
            |fields| >= 5 && fields[0] == w1
  {
    FieldsCons(w1, w2 + " " + (w3 + " " + (w4 + " " + q)));
    FieldsCons(w2, w3 + " " + (w4 + " " + q));
    FieldsCons(w3, w4 + " " + q);
    FieldsCons(w4, q);
    FieldsNonEmpty(q, 0);
  }

  /** A record line of type TXT, cut at its spaces. */
  lemma ZoneLineShape(r: DnsEncoder.DNSRecord)
    requires r.rtype == "TXT"
    ensures ZoneLine(r) == (r.name + ".") + " " + (IntToDecimal(r.ttl) + " " + ("IN" + " " + ("TXT" + " " + ("\"" + r.value + "\""))))
  {
  }

  /** The name with its dot and the TTL are words of a record line. */
  lemma ZoneLineWords(r: DnsEncoder.DNSRecord)
    requires PlainName(r.name)
    ensures Word(r.name + ".") && Word(IntToDecimal(r.ttl))
  {
    var a := r.name + ".";
    forall c | c in a ensures !IsSpace(c) {
      if c != '.' { assert c in r.name; }
    }
    var d := IntToDecimal(r.ttl);
    forall c | c in d ensures !IsSpace(c) {
      assert IsDigit(c) || c == '-';
    }
  }

  lemma ZoneLineFields(r: DnsEncoder.DNSRecord)
    requires r.rtype == "TXT" && PlainName(r.name)
    ensures |Fields(ZoneLine(r))| >= 5
    ensures TrimSuffix(Fields(ZoneLine(r))[0], ".") == r.name
  {
    ZoneLineWords(r);
    ZoneLineShape(r);
    assert Word("IN") && Word("TXT");
    FourWords(r.name + ".", IntToDecimal(r.ttl), "IN", "TXT", "\"" + r.value + "\"");
    TrimDot(r.name);
  }

  lemma TrimDot(name: string)
    ensures TrimSuffix(name + ".", ".") == name
  {
    assert (name + ".")[..|name|] == name;
  }

  /** Where the value's opening quote sits in a record line. */
  function QuotePos(r: DnsEncoder.DNSRecord): nat
  {
    |r.name| + 2 + |IntToDecimal(r.ttl)| + 8
  }

  lemma ZoneLineMarker(r: DnsEncoder.DNSRecord)
    requires r.rtype == "TXT"
    ensures Contains(ZoneLine(r), " IN TXT ")
  {
    var line := ZoneLine(r);
    var k := |r.name| + 2 + |IntToDecimal(r.ttl)|;
    assert line[k..k + 8] == " IN TXT ";
    ContainsAt(line, " IN TXT ", k);
  }

  lemma ZoneLineQuotes(r: DnsEncoder.DNSRecord)
    requires r.rtype == "TXT" && PlainName(r.name)
    ensures Index(ZoneLine(r), "\"") == QuotePos(r)
    ensures LastIndexOf(ZoneLine(r), '"') == |ZoneLine(r)| - 1
    ensures QuotePos(r) < |ZoneLine(r)| - 1 && ZoneLine(r)[QuotePos(r) + 1..|ZoneLine(r)| - 1] == r.value
  {
    var line := ZoneLine(r);
    var d := IntToDecimal(r.ttl);
    var p := QuotePos(r);
    var head := r.name + ". " + d + " IN TXT ";
    assert line == head + "\"" + r.value + "\"";
    assert line[..p] == head;
    assert '"' !in head by {
      forall c | c in head ensures c != '"' {
        if c in r.name { } else if c in d { assert IsDigit(c) || c == '-'; }
      }
    }
    IndexOfFirst(line, '"', p);
    assert "\"" == ['"'];
  }

  /** A record line reads back as its name and value, when the name has no
      white space or double quote and the type is TXT. */
  lemma ParseZoneLineOfZoneLine(r: DnsEncoder.DNSRecord)
    requires r.rtype == "TXT" && PlainName(r.name)
    ensures ParseZoneLine(ZoneLine(r)) == Some(ZoneRecord(r.name, r.value))
  {
    var line := ZoneLine(r);
    ZoneLineMarker(r);
    ZoneLineFields(r);
    ZoneLineQuotes(r);
    ParseZoneLineOf(line, r.name, r.value, QuotePos(r), |line| - 1);
  }

  /** ParseZoneLine on a line whose marker, fields and quotes are known. */
  lemma ParseZoneLineOf(line: string, name: string, value: string, start: int, end: int)
    requires Contains(line, " IN TXT ") && |Fields(line)| >= 5
    requires TrimSuffix(Fields(line)[0], ".") == name
    requires Index(line, "\"") == start && LastIndexOf(line, '"') == end
    requires 0 <= start < end <= |line| && line[start + 1..end] == value
    ensures ParseZoneLine(line) == Some(ZoneRecord(name, value))
  {
  }

  /** A record line of a chunk name without "m-" files the chunk under its
      full name, whatever came before. */
  lemma ReadZoneTakesChunkLine(lines: seq<string>, r: DnsEncoder.DNSRecord)
    requires r.rtype == "TXT" && PlainName(r.name)
    requires Contains(r.name, "c-") && !Contains(r.name, "m-")
    ensures var z := ReadZone(lines + [ZoneLine(r)]);
            r.name in z.chunks && z.chunks[r.name] == r.value && z.manifest == ReadZone(lines).manifest
  {
    ParseZoneLineOfZoneLine(r);
    assert (lines + [ZoneLine(r)])[..|lines|] == lines;
  }

  datatype LoadError = NoChunks | PublishFailed(e: StoreError)

  // ---------------------------------------------------------------------
  // The server.

  /** The DNS server: a store and the queue manager over it. */
  class DNSServer {
    const storage: MemoryStorage
    const queue: QueueManager

    ghost predicate Valid()
      reads this, storage
    {
      queue.storage == storage && storage.Valid()
    }

    constructor (storage: MemoryStorage)
      requires storage.Valid()
      ensures this.storage == storage && Valid()
    {
      this.storage := storage;
      queue := new QueueManager(storage);
    }

    /** handleChunkQuery: at most one answer, the response code untouched. */
    method HandleChunkQuery(qname: string, reply: Reply)
      modifies reply
      ensures reply.rcode == old(reply.rcode)
      ensures ChunkReply(storage.messages, qname, old(reply.answers), reply.answers)
    {
      var parts := Split(qname, '.');
      if |parts| < 2 {
        return;
      }
      var lab := parts[0];
      var msgId := QueryId(lab);
      if msgId == "" {
        return;
      }
      var got := storage.GetMessage(msgId);
      if got.Err? {
        return;
      }
      var value := "";
      if HasPrefix(lab, "m-") {
        value := got.value.manifest;
      } else {
        value := FindChunk(got.value.chunks, lab);
      }
      if value != "" {
        reply.answers := reply.answers + [TxtAnswer(qname + ".", ChunkTtl, value)];
      }
    }

    /** handleConsume: the new messages of the client are consumed, and
        their ids, joined by commas, are answered with the short TTL when
        there are any. */
    method HandleConsume(qname: string, reply: Reply, client: string, now: int) returns (ids: seq<string>)
      requires Valid()
      modifies reply, storage
      ensures Valid()
      ensures ConsumedAs(old(storage.State()), storage.State(), client, now, ids)
      ensures NewFor(storage.State(), client) == {}
      ensures reply.rcode == old(reply.rcode)
      ensures reply.answers == old(reply.answers) + if |ids| > 0 then [TxtAnswer(qname + ".", ConsumeTtl, Join(ids, ","))] else []
    {
      ghost var s0 := storage.State();
      var msgs := queue.ConsumeMessages(client, now);
      ids := CollectIds(msgs);
      ghost var s1 := storage.State();
      assert queue.storage == storage && storage.Valid();
      assert ConsumedAs(s0, s1, client, now, ids) && NewFor(s1, client) == {};
      if |ids| > 0 {
        reply.answers := reply.answers + [TxtAnswer(qname + ".", ConsumeTtl, Join(ids, ","))];
      }
      assert storage.State() == s1;
    }

    /** handleTXT: consume queries change the store and may answer the ids
        handed out; every other query is a chunk query that changes only
        the reply. */
    method HandleTXT(q: Question, reply: Reply, now: int) returns (ghost ids: seq<string>)
      requires Valid()
      modifies reply, storage
      ensures Valid()
      ensures reply.rcode == old(reply.rcode)
      ensures IsConsumeQuery(Normalize(q.name)) ==>
                ConsumedAs(old(storage.State()), storage.State(), ConsumeClient, now, ids) &&
                reply.answers == old(reply.answers) +
                                 if |ids| > 0 then [TxtAnswer(Normalize(q.name) + ".", ConsumeTtl, Join(ids, ","))] else []
      ensures !IsConsumeQuery(Normalize(q.name)) ==>
                storage.State() == old(storage.State()) &&
                ChunkReply(storage.messages, Normalize(q.name), old(reply.answers), reply.answers)
    {
      var qname := Normalize(q.name);
      if IsConsumeQuery(qname) {
        ids := HandleConsume(qname, reply, ConsumeClient, now);
        return;
      }
      ids := [];
      HandleChunkQuery(qname, reply);
    }

    /** handleDNSRequest: a fresh reply, every TXT question handled in
        order. The response code stays NOERROR, each question adds at most
        one answer, and a request without consume queries leaves the store
        as it was. */
    method HandleDNSRequest(questions: seq<Question>, now: int) returns (reply: Reply)
      requires Valid()
      modifies storage
      ensures fresh(reply)
      ensures Valid()
      ensures reply.rcode == RcodeSuccess
      ensures |reply.answers| <= |questions|
      ensures (forall k | 0 <= k < |questions| :: !IsConsumeQuery(Normalize(questions[k].name))) ==>
                storage.State() == old(storage.State())
    {
      reply := new Reply();
      for i := 0 to |questions|
        invariant Valid()
        invariant reply.rcode == RcodeSuccess
        invariant |reply.answers| <= i
        invariant (forall k | 0 <= k < i :: !IsConsumeQuery(Normalize(questions[k].name))) ==>
                    storage.State() == old(storage.State())
      {
        if questions[i].qtype == TypeTXT {
          ghost var before := reply.answers;
          var _ := HandleTXT(questions[i], reply, now);
          if IsConsumeQuery(Normalize(questions[i].name)) {
          } else {
            ChunkReplyAppends(storage.messages, Normalize(questions[i].name), before, reply.answers);
          }
        }
      }
    }

    /** LoadChunkedMessage: the zone's chunk lines are published as one
        message with the last manifest line's value; a zone without chunks
        is an error that changes nothing. */
    method LoadChunkedMessage(msgId: string, zone: string, now: int) returns (err: Option<LoadError>)
      requires Valid()
      modifies storage
      ensures Valid()
      ensures var z := ReadZone(Split(zone, '\n'));
              if |z.chunks| == 0 then err == Some(NoChunks) && storage.State() == old(storage.State())
              else if msgId in old(storage.messages) then
                err == Some(PublishFailed(AlreadyExists(msgId))) && storage.State() == old(storage.State())
              else
                err == None &&
                storage.State() == Insert(old(storage.State()),
                                          Message(msgId, z.chunks, |z.chunks|, z.manifest, now, StateNew, []), now)
    {
      var chunks: map<string, string> := map[];
      var manifest := "";
      var lines := Split(zone, '\n');
      for i := 0 to |lines|
        invariant ZoneContent(chunks, manifest) == ReadZone(lines[..i])
      {
        assert lines[..i + 1][..i] == lines[..i];
        var parsed := ParseZoneLine(lines[i]);
        if parsed.Some? {
          var r := parsed.value;
          if Contains(r.name, "m-") {
            manifest := r.value;
          } else if Contains(r.name, "c-") {
            chunks := chunks[r.name := r.value];
          }
        }
      }
      assert lines[..|lines|] == lines;
      if |chunks| > 0 {
        var e := queue.PublishMessage(msgId, chunks, manifest, now);
        err := if e.Some? then Some(PublishFailed(e.value)) else None;
      } else {
        err := Some(NoChunks);
      }
    }
  }
}
