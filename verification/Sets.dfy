/** Cardinalities of finite sets built one element at a time. */
module Sets {

  lemma CardAdd<T>(s: set<T>, x: T)
    requires x !in s
    ensures |s + {x}| == |s| + 1
  {
  }

  lemma CardRemove<T>(s: set<T>, x: T)
    requires x in s
    ensures |s| >= 1 && |s - {x}| == |s| - 1
  {
  }

  lemma SubsetCard<T>(a: set<T>, b: set<T>)
    requires a <= b
    ensures |a| <= |b|
  {
    assert b == a + (b - a);
  }

  lemma UpdateTwice<K, V>(m: map<K, V>, d: K, x: V, c: K, y: V, z: V)
    requires d != c
    ensures m[d := x][c := y][d := z] == m[d := z][c := y]
  {
  }

  lemma Overwrite<K, V>(m: map<K, V>, k: K, x: V, y: V)
    ensures m[k := x][k := y] == m[k := y]
  {
  }

  lemma UpdateSame<K, V>(m: map<K, V>, k: K)
    requires k in m
    ensures m[k := m[k]] == m
  {
  }

  ghost function Pairs<S, T>(c: S, s: set<T>): set<(S, T)> {
    set x | x in s :: (c, x)
  }

  lemma PairsMember<S, T>(c: S, s: set<T>, m: (S, T))
    ensures m in Pairs(c, s) <==> m.0 == c && m.1 in s
  {
    assert m == (m.0, m.1);
  }

  lemma {:induction false} PairsCard<S, T>(c: S, s: set<T>)
    ensures |Pairs(c, s)| == |s|
  {
    if s != {} {
      var x :| x in s;
      PairsCard(c, s - {x});
      assert Pairs(c, s) == Pairs(c, s - {x}) + {(c, x)};
    }
  }
}
