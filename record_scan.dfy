/** Reading a list of records front to back: collecting what each record
    reads to, and keeping what the last record of one kind reads to. */
module RecordScan {
  import opened Bytes

  /** Everything `read` gets from the records, in record order; a record
      it reads to None adds nothing. */
  function Collect<R, C>(read: R -> Option<C>, rs: seq<R>): (cs: seq<C>)
    ensures |cs| <= |rs|
  {
    if |rs| == 0 then []
    else
      var prev := Collect(read, rs[..|rs| - 1]);
      match read(rs[|rs| - 1])
      case Some(c) => prev + [c]
      case None => prev
  }

  /** Collecting from two lists one after the other. */
  lemma {:induction false} CollectAppend<R, C>(read: R -> Option<C>, a: seq<R>, b: seq<R>)
    ensures Collect(read, a + b) == Collect(read, a) + Collect(read, b)
    decreases |b|
  {
    if |b| == 0 {
      assert a + b == a;
    } else {
      CollectAppend(read, a, b[..|b| - 1]);
      assert (a + b)[..|a + b| - 1] == a + b[..|b| - 1];
    }
  }

  /** Records that each read to an item give exactly those items. */
  lemma {:induction false} CollectAll<R, C>(read: R -> Option<C>, rs: seq<R>, cs: seq<C>)
    requires |rs| == |cs|
    requires forall j | 0 <= j < |rs| :: read(rs[j]) == Some(cs[j])
    ensures Collect(read, rs) == cs
  {
    if |rs| > 0 {
      CollectAll(read, rs[..|rs| - 1], cs[..|cs| - 1]);
      assert cs == cs[..|cs| - 1] + [cs[|cs| - 1]];
    }
  }

  /** Records none of which reads to anything give nothing. */
  lemma {:induction false} CollectNone<R, C>(read: R -> Option<C>, rs: seq<R>)
    requires forall j | 0 <= j < |rs| :: read(rs[j]).None?
    ensures Collect(read, rs) == []
  {
    if |rs| > 0 {
      CollectNone(read, rs[..|rs| - 1]);
    }
  }

  /** What `read` gets from the last record of the kind `isKind`, even when
      that is None; None when there is no such record. */
  function Last<R, M>(isKind: R -> bool, read: R -> Option<M>, rs: seq<R>): Option<M>
  {
    if |rs| == 0 then None
    else if isKind(rs[|rs| - 1]) then read(rs[|rs| - 1])
    else Last(isKind, read, rs[..|rs| - 1])
  }

  /** Records not of the kind, added at the end, change nothing. */
  lemma {:induction false} LastSkip<R, M>(isKind: R -> bool, read: R -> Option<M>, a: seq<R>, b: seq<R>)
    requires forall j | 0 <= j < |b| :: !isKind(b[j])
    ensures Last(isKind, read, a + b) == Last(isKind, read, a)
    decreases |b|
  {
    if |b| == 0 {
      assert a + b == a;
    } else {
      LastSkip(isKind, read, a, b[..|b| - 1]);
      assert (a + b)[..|a + b| - 1] == a + b[..|b| - 1];
    }
  }
}
