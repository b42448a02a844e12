/** What the two DNS front ends share: the TXT question, the reply they fill
    in, the normalised query name and the message id read from its first
    label. */
module DnsQuery {
  import opened Text
  import opened DnsNames

  /** dns.TypeTXT, dns.RcodeSuccess and dns.RcodeNameError. */
  const TypeTXT: int := 16
  const RcodeSuccess: int := 0
  const RcodeNameError: int := 3

  datatype Question = Question(name: string, qtype: int)

  /** A TXT resource record of the answer section, class IN, one string. */
  datatype TxtAnswer = TxtAnswer(name: string, ttl: int, value: string)

  /** The response code and the answer section of a reply, as a value. */
  datatype ReplyState = ReplyState(rcode: int, answers: seq<TxtAnswer>)

  /** The reply message the handlers fill in place. */
  class Reply {
    var rcode: int
    var answers: seq<TxtAnswer>

    function State(): ReplyState
      reads this
    {
      ReplyState(rcode, answers)
    }

    /** SetReply: a success code and no answers yet. */
    constructor ()
      ensures State() == ReplyState(RcodeSuccess, [])
    {
      rcode := RcodeSuccess;
      answers := [];
    }
  }

  /** The query name both servers work on: one trailing dot removed, then
      lower-cased. */
  function Normalize(name: string): string
  {
    ToLower(TrimSuffix(name, "."))
  }

  /** The message id of a "c-" or "m-" label: the text after its last '-'.
      Any other label carries none (""). */
  function QueryId(lab: string): (id: string)
    ensures !HasPrefix(lab, "c-") && !HasPrefix(lab, "m-") ==> id == ""
    ensures id != "" ==> '-' !in id && |id| < |lab| &&
                         lab[|lab| - |id| - 1] == '-' && lab[|lab| - |id|..] == id
  {
    if HasPrefix(lab, "c-") || HasPrefix(lab, "m-") then
      var idx := LastIndexOf(lab, '-');
      if idx > 0 then lab[idx + 1..] else ""
    else ""
  }

  /** The last '-' of "<head>-<id>" is the one before the id, when the id
      has none. */
  lemma {:induction false} LastDash(head: string, id: string)
    requires '-' !in id
    ensures LastIndexOf(head + "-" + id, '-') == |head|
  {
    var s := head + "-" + id;
    if |id| > 0 {
      assert s[|s| - 1] == id[|id| - 1];
      assert s[..|s| - 1] == head + "-" + id[..|id| - 1];
      LastDash(head, id[..|id| - 1]);
    }
  }

  /** The id after the last dash of a "c-" or "m-" label. */
  lemma QueryIdOf(head: string, id: string)
    requires HasPrefix(head + "-" + id, "c-") || HasPrefix(head + "-" + id, "m-")
    requires '-' !in id
    ensures QueryId(head + "-" + id) == id
  {
    LastDash(head, id);
    var lab := head + "-" + id;
    assert lab[|head| + 1..] == id;
  }

  /** The id of a chunk label "c-<index>-<id>" reads back. */
  lemma QueryIdOfChunkLabel(index: nat, id: string)
    requires '-' !in id
    ensures QueryId(ChunkLabelText(index, id)) == id
  {
    var head := "c-" + NatToDecimal(index);
    assert ChunkLabelText(index, id) == head + "-" + id;
    assert (head + "-" + id)[..2] == "c-";
    QueryIdOf(head, id);
  }

  /** The id of a manifest label "m-<id>" reads back. */
  lemma QueryIdOfManifestLabel(id: string)
    requires '-' !in id
    ensures QueryId("m-" + id) == id
  {
    assert "m-" + id == "m" + "-" + id;
    assert ("m" + "-" + id)[..2] == "m-";
    QueryIdOf("m", id);
  }

  /** No upper-case ASCII letter. */
  predicate NoUpper(s: string)
  {
    forall c | c in s :: !('A' <= c <= 'Z')
  }

  lemma ToLowerOfNoUpper(s: string)
    requires NoUpper(s)
    ensures ToLower(s) == s
  {
    forall i | 0 <= i < |s| ensures ToLower(s)[i] == s[i] {
      assert s[i] in s;
    }
  }

  lemma ToLowerAppend(a: string, b: string)
    ensures ToLower(a + b) == ToLower(a) + ToLower(b)
  {
    assert forall i | 0 <= i < |a + b| :: (a + b)[i] == if i < |a| then a[i] else b[i - |a|];
  }

  /** A dotted name keeps its first label and its dot: the trailing dot
      comes off the rest, and lower-casing goes piecewise. */
  lemma NormalizeDotted(lab: string, zone: string)
    requires zone != ""
    ensures Normalize(lab + "." + zone) == ToLower(lab) + "." + Normalize(zone)
  {
    var name := lab + "." + zone;
    if |zone| >= 1 && zone[|zone| - 1..] == "." {
      assert name[|name| - 1..] == ".";
      assert TrimSuffix(name, ".") == lab + "." + TrimSuffix(zone, ".");
    } else {
      assert name[|name| - 1..] == zone[|zone| - 1..];
      assert TrimSuffix(name, ".") == lab + "." + TrimSuffix(zone, ".");
    }
    ToLowerAppend(lab + ".", TrimSuffix(zone, "."));
    ToLowerAppend(lab, ".");
  }

  /** The first label of a normalised "<label>.<zone>", for a label without
      dots, is that label lower-cased, and the name has at least two labels. */
  lemma FirstLabelLowered(lab: string, zone: string)
    requires zone != "" && '.' !in lab
    ensures var parts := Split(Normalize(lab + "." + zone), '.');
            |parts| >= 2 && parts[0] == ToLower(lab)
  {
    NormalizeDotted(lab, zone);
    forall i | 0 <= i < |lab| ensures ToLower(lab)[i] != '.' {
      assert lab[i] in lab;
    }
    SplitAt(ToLower(lab), '.', Normalize(zone));
    assert ToLower(lab) + "." + Normalize(zone) == ToLower(lab) + ['.'] + Normalize(zone);
  }

  /** The first label of a normalised "<label>.<zone>", for a label without
      dots or capitals, is that label, and the name has at least two labels. */
  lemma SplitDotted(lab: string, zone: string)
    requires zone != "" && '.' !in lab && NoUpper(lab)
    ensures var parts := Split(Normalize(lab + "." + zone), '.');
            |parts| >= 2 && parts[0] == lab
  {
    FirstLabelLowered(lab, zone);
    ToLowerOfNoUpper(lab);
  }

  /** A chunk label of an id without capitals has no capitals either. */
  lemma ChunkLabelNoUpper(index: nat, id: string)
    requires NoUpper(id)
    ensures NoUpper(ChunkLabelText(index, id))
  {
    var d := NatToDecimal(index);
    forall c | c in ChunkLabelText(index, id) ensures !('A' <= c <= 'Z') {
      assert ChunkLabelText(index, id) == "c-" + d + "-" + id;
      if c in d {
        var k :| 0 <= k < |d| && d[k] == c;
        assert IsDigit(d[k]);
      }
    }
  }

  lemma ManifestLabelNoUpper(id: string)
    requires NoUpper(id)
    ensures NoUpper("m-" + id)
  {
  }
}
