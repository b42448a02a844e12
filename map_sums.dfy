/** Sums of a measure over the values of a finite map, and how they change
    when entries are added, replaced or taken out. */
module MapSums {

  /** The sum of `f` over the values of `ms`. */
  ghost function Total<K, V>(ms: map<K, V>, f: V -> nat): nat
    decreases |ms|
  {
    if ms == map[] then 0
    else
      var k :| k in ms;
      assert |(ms - {k}).Keys| < |ms.Keys| by { assert (ms - {k}).Keys == ms.Keys - {k}; }
      f(ms[k]) + Total(ms - {k}, f)
  }

  /** Any one entry may be taken out of the sum first. */
  lemma {:induction false} TotalRemove<K, V>(ms: map<K, V>, f: V -> nat, k: K)
    requires k in ms
    ensures Total(ms, f) == f(ms[k]) + Total(ms - {k}, f)
    decreases |ms|
  {
    var j :| j in ms && Total(ms, f) == f(ms[j]) + Total(ms - {j}, f);
    if j != k {
      assert |(ms - {j}).Keys| < |ms.Keys| by { assert (ms - {j}).Keys == ms.Keys - {j}; }
      assert |(ms - {k}).Keys| < |ms.Keys| by { assert (ms - {k}).Keys == ms.Keys - {k}; }
      TotalRemove(ms - {j}, f, k);
      TotalRemove(ms - {k}, f, j);
      assert ms - {j} - {k} == ms - {k} - {j};
    }
  }

  lemma TotalInsert<K, V>(ms: map<K, V>, f: V -> nat, k: K, v: V)
    requires k !in ms
    ensures Total(ms[k := v], f) == Total(ms, f) + f(v)
  {
    TotalRemove(ms[k := v], f, k);
    assert ms[k := v] - {k} == ms;
  }

  lemma TotalReplace<K, V>(ms: map<K, V>, f: V -> nat, k: K, v: V)
    requires k in ms && f(v) == f(ms[k])
    ensures Total(ms[k := v], f) == Total(ms, f)
  {
    TotalRemove(ms[k := v], f, k);
    TotalRemove(ms, f, k);
    assert ms[k := v] - {k} == ms - {k};
  }

  /** `part` is a part of `ms`. */
  predicate SubMap<K, V(==)>(part: map<K, V>, ms: map<K, V>)
  {
    forall k | k in part :: k in ms && part[k] == ms[k]
  }

  /** Taking one entry out of both a map and its part. */
  lemma SubMapRemove<K, V>(ms: map<K, V>, part: map<K, V>, k: K)
    requires SubMap(part, ms) && k in part
    ensures SubMap(part - {k}, ms - {k})
    ensures ms - {k} - (part - {k}).Keys == ms - part.Keys
    ensures |(part - {k}).Keys| < |part.Keys|
  {
    assert (part - {k}).Keys == part.Keys - {k};
  }

  /** Taking a part out of a map takes its sum off the total. */
  lemma {:induction false} TotalSplit<K, V>(ms: map<K, V>, part: map<K, V>, f: V -> nat)
    requires SubMap(part, ms)
    ensures Total(ms, f) == Total(ms - part.Keys, f) + Total(part, f)
    decreases |part|
  {
    if part != map[] {
      var k :| k in part;
      TotalRemove(part, f, k);
      TotalRemove(ms, f, k);
      SubMapRemove(ms, part, k);
      TotalSplit(ms - {k}, part - {k}, f);
    } else {
      assert ms - part.Keys == ms;
    }
  }
}

/** How the size of a finite map changes when entries are added or taken out. */
module MapCards {
  lemma CardInsert<K, V>(ms: map<K, V>, k: K, v: V)
    requires k !in ms
    ensures |ms[k := v]| == |ms| + 1
  {
    assert ms[k := v].Keys == ms.Keys + {k};
  }

  /** Removing two sets of keys one after the other removes their union. */
  lemma MinusUnion<K, V>(ms: map<K, V>, a: set<K>, b: set<K>)
    ensures ms - (a + b) == ms - a - b
  {
  }

  lemma CardSplit<K, V>(ms: map<K, V>, part: map<K, V>)
    requires part.Keys <= ms.Keys
    ensures |ms - part.Keys| == |ms| - |part|
  {
    assert (ms - part.Keys).Keys == ms.Keys - part.Keys;
    assert ms.Keys == (ms.Keys - part.Keys) + part.Keys;
  }
}
