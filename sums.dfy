/**
 * Sums over the values of finite maps, and the word-count map of a word
 * list. These are the ghost arithmetic behind the relevance of a document
 * (a sum over query words) and behind the term-frequency invariant (the
 * frequencies of one document sum to one).
 */
module Sums {

  /** Some key of a non-empty map; fixed once, so that sums unfold the same way. */
  ghost function Pick<K>(m: map<K, real>): (k: K)
    requires m != map[]
    ensures k in m
  {
    assert m.Keys != {};
    var k :| k in m.Keys; k
  }

  /** The sum of the values of a finite map. */
  ghost function SumMap<K>(m: map<K, real>): real
    decreases |m.Keys|
  {
    if m == map[] then 0.0
    else
      var k := Pick(m);
      assert |(m - {k}).Keys| < |m.Keys| by {
        assert (m - {k}).Keys == m.Keys - {k};
      }
      m[k] + SumMap(m - {k})
  }

  /** Any key can be taken out of the sum first. */
  lemma {:induction false} SumMapRemove<K>(m: map<K, real>, k: K)
    requires k in m
    ensures SumMap(m) == m[k] + SumMap(m - {k})
    decreases |m.Keys|
  {
    var x := Pick(m);
    if x != k {
      assert (m - {x}).Keys == m.Keys - {x};
      assert (m - {k}).Keys == m.Keys - {k};
      SumMapRemove(m - {x}, k);
      SumMapRemove(m - {k}, x);
      assert m - {x} - {k} == m - {k} - {x};
    }
  }

  /** Setting one key changes the sum by the difference at that key. */
  lemma SumMapUpdate<K>(m: map<K, real>, k: K, v: real)
    ensures SumMap(m[k := v]) == SumMap(m) - (if k in m then m[k] else 0.0) + v
  {
    SumMapRemove(m[k := v], k);
    assert m[k := v] - {k} == m - {k};
    if k in m {
      SumMapRemove(m, k);
    } else {
      assert m - {k} == m;
    }
  }

  /** One more key adds its value to the sum. */
  lemma SumMapAddKey<K>(m: map<K, real>, m': map<K, real>, k: K)
    requires k !in m && m'.Keys == m.Keys + {k}
    requires forall x | x in m :: m'[x] == m[x]
    ensures SumMap(m') == SumMap(m) + m'[k]
  {
    assert m' == m[k := m'[k]];
    SumMapUpdate(m, k, m'[k]);
  }

  /** Maps that agree key by key have the same sum. */
  lemma SumMapSame<K>(m: map<K, real>, m': map<K, real>)
    requires m'.Keys == m.Keys
    requires forall x | x in m :: m'[x] == m[x]
    ensures SumMap(m') == SumMap(m)
  {
    assert m' == m;
  }

  /** `inv` added up `k` times, as a repeated `+=` does. */
  function Repeated(k: nat, inv: real): (r: real)
    ensures inv >= 0.0 ==> r >= 0.0
  {
    if k == 0 then 0.0 else Repeated(k - 1, inv) + inv
  }

  /** Adding the share `1/n` up `k` times gives `k/n`. */
  lemma {:induction false} RepeatedShare(k: nat, n: nat)
    requires n > 0
    ensures Repeated(k, 1.0 / n as real) == k as real / n as real
  {
    if k > 0 {
      RepeatedShare(k - 1, n);
      DivideSum((k - 1) as real, 1.0, k as real, n as real);
    }
  }

  lemma DivideSum(a: real, b: real, s: real, c: real)
    requires c != 0.0 && s == a + b
    ensures a / c + b / c == s / c
  {
  }

  /** For each word of a list, `inv` added once per occurrence. */
  function Shares(ws: seq<string>, inv: real): (m: map<string, real>)
    ensures m.Keys == set w | w in ws
  {
    map w | w in ws :: Repeated(multiset(ws)[w], inv)
  }

  /** The shares of all words add up to `inv` added once per word of the list. */
  lemma {:induction false} SharesSum(ws: seq<string>, inv: real)
    ensures SumMap(Shares(ws, inv)) == Repeated(|ws|, inv)
    decreases |ws|
  {
    if ws == [] {
      assert Shares(ws, inv) == map[];
    } else {
      var init, y := ws[..|ws| - 1], ws[|ws| - 1];
      assert ws == init + [y];
      SharesStep(init, y, inv);
      SharesSum(init, inv);
    }
  }

  /** One more word adds `inv` to the sum of the shares. */
  lemma SharesStep(init: seq<string>, y: string, inv: real)
    ensures SumMap(Shares(init + [y], inv)) == SumMap(Shares(init, inv)) + inv
  {
    var before := Shares(init, inv);
    var prior := if y in before then before[y] else 0.0;
    SharesUpdate(init, y, inv);
    SumMapUpdate(before, y, prior + inv);
  }

  /** The shares after one more word: the entry of that word grows by `inv`. */
  lemma SharesUpdate(init: seq<string>, y: string, inv: real)
    ensures
      var before := Shares(init, inv);
      Shares(init + [y], inv) == before[y := (if y in before then before[y] else 0.0) + inv]
  {
    var ws := init + [y];
    var before := Shares(init, inv);
    var prior := if y in before then before[y] else 0.0;
    var after := Shares(ws, inv);
    var counts, initCounts := multiset(ws), multiset(init);
    assert counts == initCounts + multiset{y};
    assert prior == Repeated(initCounts[y], inv) by {
      if y !in init {
        assert initCounts[y] == 0;
      }
    }
    forall w | w in after
      ensures w in before[y := prior + inv] && after[w] == before[y := prior + inv][w]
    {
      if w != y {
        assert w in init;
        assert counts[w] == initCounts[w];
      }
    }
    assert after.Keys == before[y := prior + inv].Keys;
  }

  /** Adding `1/n` up `n` times gives one. */
  lemma WholeShare(n: nat)
    requires n > 0
    ensures Repeated(n, 1.0 / n as real) == 1.0
  {
    RepeatedShare(n, n);
    DivideBySelf(n as real);
  }

  lemma DivideBySelf(c: real)
    requires c != 0.0
    ensures c / c == 1.0
  {
  }
}
