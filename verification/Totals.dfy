/** Sums of a weight over the values of a finite map and over a sequence. */
module Totals {

  ghost function Total<K, V>(m: map<K, V>, weight: V -> nat): nat
    decreases |m|
  {
    if m == map[] then 0
    else
      var k :| k in m;
      weight(m[k]) + Total(m - {k}, weight)
  }

  lemma {:induction false} TotalSplit<K, V>(m: map<K, V>, weight: V -> nat, k: K)
    requires k in m
    ensures Total(m, weight) == weight(m[k]) + Total(m - {k}, weight)
    decreases |m|
  {
    var j :| j in m && Total(m, weight) == weight(m[j]) + Total(m - {j}, weight);
    if j != k {
      TotalSplit(m - {j}, weight, k);
      TotalSplit(m - {k}, weight, j);
      assert m - {j} - {k} == m - {k} - {j};
    }
  }

  lemma TotalRemove<K, V>(m: map<K, V>, weight: V -> nat, k: K)
    ensures Total(m, weight) == Total(m - {k}, weight) + (if k in m then weight(m[k]) else 0)
  {
    if k in m {
      TotalSplit(m, weight, k);
    } else {
      assert m - {k} == m;
    }
  }

  lemma TotalUpdate<K, V>(m: map<K, V>, weight: V -> nat, k: K, v: V)
    ensures Total(m[k := v], weight) + (if k in m then weight(m[k]) else 0) == Total(m, weight) + weight(v)
  {
    TotalSplit(m[k := v], weight, k);
    assert m[k := v] - {k} == m - {k};
    TotalRemove(m, weight, k);
  }

  function Sum<V>(vs: seq<V>, weight: V -> nat): nat {
    if vs == [] then 0 else Sum(vs[..|vs| - 1], weight) + weight(vs[|vs| - 1])
  }

  lemma {:induction false} SumAppend<V>(a: seq<V>, b: seq<V>, weight: V -> nat)
    ensures Sum(a + b, weight) == Sum(a, weight) + Sum(b, weight)
    decreases |b|
  {
    if b == [] {
      assert a + b == a;
    } else {
      SumAppend(a, b[..|b| - 1], weight);
      assert (a + b)[..|a + b| - 1] == a + b[..|b| - 1];
    }
  }

  lemma SumOne<V>(v: V, weight: V -> nat)
    ensures Sum([v], weight) == weight(v)
  {
    assert [v][..0] == [];
  }

  lemma {:induction false} SumUpdate<V>(vs: seq<V>, i: nat, v: V, weight: V -> nat)
    requires i < |vs|
    ensures Sum(vs[i := v], weight) + weight(vs[i]) == Sum(vs, weight) + weight(v)
    decreases |vs|
  {
    var n := |vs| - 1;
    if i < n {
      SumUpdate(vs[..n], i, v, weight);
      assert vs[i := v][..n] == vs[..n][i := v];
    } else {
      assert vs[i := v][..n] == vs[..n];
    }
  }

  lemma {:induction false} SumAtLeast<V>(vs: seq<V>, i: nat, weight: V -> nat)
    requires i < |vs|
    ensures Sum(vs, weight) >= weight(vs[i])
    decreases |vs|
  {
    if i < |vs| - 1 {
      SumAtLeast(vs[..|vs| - 1], i, weight);
    }
  }

  lemma {:induction false} SumWitness<V>(vs: seq<V>, weight: V -> nat) returns (i: nat)
    requires Sum(vs, weight) > 0
    ensures i < |vs| && weight(vs[i]) > 0
    decreases |vs|
  {
    i := |vs| - 1;
    if weight(vs[i]) == 0 {
      i := SumWitness(vs[..|vs| - 1], weight);
    }
  }
}
