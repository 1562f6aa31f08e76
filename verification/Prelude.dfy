/** What several modules share. */
module Prelude {
  datatype Option<+T> = None | Some(value: T)

  function Min(a: int, b: int): int { if a <= b then a else b }

  /** A map has no other key than k exactly when nothing is left without it. */
  lemma SingleKey<K, V>(m: map<K, V>, k: K)
    requires k in m
    ensures m - {k} == map[] <==> m.Keys == {k}
  {
    if m - {k} == map[] {
      forall j | j in m
        ensures j == k
      {
        assert j != k ==> j in m - {k};
      }
    }
  }

  lemma Overwrite<K, V>(m: map<K, V>, k: K, a: V, b: V)
    ensures m[k := a][k := b] == m[k := b]
    ensures k in m && m[k] == b ==> m[k := b] == m
    ensures m[k := a] - {k} == m - {k}
  {
  }
}
