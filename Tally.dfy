/**
  Per-key tallies: the reference definition that both `calculateStats`
  (a `HashMap<LocalDate, Integer>`) and `calculate_stats` (a `dict`) build
  one key at a time.
 */
module Tally {

  /** Number of occurrences of `k` in `ks`. */
  function Count<K(==)>(ks: seq<K>, k: K): (n: nat)
    ensures n <= |ks|
    ensures n > 0 <==> k in ks
  {
    if ks == [] then 0
    else Count(ks[..|ks| - 1], k) + (if ks[|ks| - 1] == k then 1 else 0)
  }

  /** The histogram of `ks`: one entry per distinct key, holding how often it occurs. */
  function Histogram<K(==)>(ks: seq<K>): (m: map<K, nat>)
  {
    map k | k in ks :: Count(ks, k)
  }

  /** Sum of the values of a map, in no particular key order. */
  ghost function SumValues<K>(m: map<K, nat>): (n: nat)
    decreases |m.Keys|
  {
    if m.Keys == {} then 0
    else
      var k :| k in m.Keys;
      assert (m - {k}).Keys < m.Keys;
      m[k] + SumValues(m - {k})
  }

  /** The sum does not depend on which key is taken out first. */
  lemma {:induction false} SumValuesRemove<K>(m: map<K, nat>, k: K)
    requires k in m
    ensures SumValues(m) == m[k] + SumValues(m - {k})
    decreases |m.Keys|
  {
    var j :| j in m.Keys && SumValues(m) == m[j] + SumValues(m - {j});
    if j != k {
      var mj, mk := m - {j}, m - {k};
      assert mj.Keys < m.Keys && mk.Keys < m.Keys;
      SumValuesRemove(mj, k);
      SumValuesRemove(mk, j);
      assert mj - {k} == mk - {j};
    }
  }

  /** Overwriting one entry changes the sum by the difference of the two values. */
  lemma SumValuesUpdate<K>(m: map<K, nat>, k: K, v: nat)
    ensures SumValues(m[k := v]) + (if k in m then m[k] else 0) == SumValues(m) + v
  {
    var m' := m[k := v];
    SumValuesRemove(m', k);
    if k in m {
      SumValuesRemove(m, k);
      assert m' - {k} == m - {k};
    } else {
      assert m' - {k} == m;
    }
  }

  /** Appending one key bumps that key's entry by one, or adds it with value 1. */
  lemma HistogramSnoc<K>(ks: seq<K>, x: K)
    ensures var h := Histogram(ks);
            Histogram(ks + [x]) == h[x := (if x in h then h[x] else 0) + 1]
  {
    var ks' := ks + [x];
    assert ks'[..|ks'| - 1] == ks;
    var h, h' := Histogram(ks), Histogram(ks');
    var g := h[x := (if x in h then h[x] else 0) + 1];
    forall k
      ensures k in h' <==> k in g
      ensures k in h' ==> h'[k] == g[k]
    {
      assert k in ks' <==> k in ks || k == x;
    }
  }

  /** The values of the histogram add up to the number of keys tallied. */
  lemma {:induction false} HistogramTotal<K>(ks: seq<K>)
    ensures SumValues(Histogram(ks)) == |ks|
  {
    if ks != [] {
      var init, x := ks[..|ks| - 1], ks[|ks| - 1];
      assert ks == init + [x];
      HistogramTotal(init);
      HistogramSnoc(init, x);
      var h := Histogram(init);
      SumValuesUpdate(h, x, (if x in h then h[x] else 0) + 1);
    }
  }

  /** Tallying two key lists one after the other adds their counts. */
  lemma {:induction false} CountAppend<K>(a: seq<K>, b: seq<K>, k: K)
    ensures Count(a + b, k) == Count(a, k) + Count(b, k)
    decreases |b|
  {
    if b != [] {
      var b', y := b[..|b| - 1], b[|b| - 1];
      assert (a + b)[..|a + b| - 1] == a + b';
      CountAppend(a, b', k);
    } else {
      assert a + b == a;
    }
  }
}
