/** Keyed tables whose rows are added up: the shape of an upsert with "n = n + excluded.n". */
module Tables {

  function At<K, V>(t: map<K, V>, key: K, zero: V): V
  {
    if key in t then t[key] else zero
  }

  /** Row by row sum; a missing row counts as `zero`. */
  function Sum<K, V>(t: map<K, V>, u: map<K, V>, plus: (V, V) -> V, zero: V): map<K, V>
  {
    map key | key in t.Keys + u.Keys :: plus(At(t, key, zero), At(u, key, zero))
  }

  /** The rows named by a batch are combined with it, all other rows stay. */
  function Upsert<K, V>(t: map<K, V>, batch: map<K, V>, combine: (V, V) -> V, zero: V): map<K, V>
  {
    map key | key in t.Keys + batch.Keys ::
      if key in batch then combine(At(t, key, zero), batch[key]) else t[key]
  }

  lemma SumAt<K, V>(t: map<K, V>, u: map<K, V>, plus: (V, V) -> V, zero: V, key: K)
    requires plus(zero, zero) == zero
    ensures At(Sum(t, u, plus, zero), key, zero) == plus(At(t, key, zero), At(u, key, zero))
  {
    assert key in Sum(t, u, plus, zero) <==> key in t.Keys + u.Keys;
  }

  /** Changing one row of a summand changes that row of the sum. */
  lemma SumUpdate<K, V>(t: map<K, V>, u: map<K, V>, plus: (V, V) -> V, zero: V, key: K, v: V, w: V)
    requires plus(At(t, key, zero), v) == w
    ensures Sum(t, u[key := v], plus, zero) == Sum(t, u, plus, zero)[key := w]
  {
    var left, right := Sum(t, u[key := v], plus, zero), Sum(t, u, plus, zero)[key := w];
    assert left.Keys == right.Keys;
    forall other | other in left ensures left[other] == right[other] {
      if other != key {
        assert other in Sum(t, u, plus, zero);
      }
    }
  }

  lemma SumEmpty<K, V>(t: map<K, V>, plus: (V, V) -> V, zero: V)
    requires forall key | key in t :: plus(t[key], zero) == t[key]
    ensures Sum(t, map[], plus, zero) == t
  {
    assert Sum(t, map[], plus, zero).Keys == t.Keys;
  }

  lemma SumCommutes<K, V>(t: map<K, V>, u: map<K, V>, plus: (V, V) -> V, zero: V)
    requires forall key | key in t.Keys + u.Keys ::
               plus(At(t, key, zero), At(u, key, zero)) == plus(At(u, key, zero), At(t, key, zero))
    ensures Sum(t, u, plus, zero) == Sum(u, t, plus, zero)
  {
    assert Sum(t, u, plus, zero).Keys == Sum(u, t, plus, zero).Keys;
  }

  lemma UpsertNothing<K, V>(t: map<K, V>, batch: map<K, V>, combine: (V, V) -> V, zero: V)
    ensures Upsert(t, batch - batch.Keys, combine, zero) == t
  {
    assert Upsert(t, batch - batch.Keys, combine, zero).Keys == t.Keys;
  }

  /** The rows of a batch can be written one after the other, in any order. */
  lemma UpsertOneMore<K, V>(t: map<K, V>, batch: map<K, V>, combine: (V, V) -> V, zero: V, todo: set<K>, key: K)
    requires key in todo && todo <= batch.Keys
    ensures At(Upsert(t, batch - todo, combine, zero), key, zero) == At(t, key, zero)
    ensures Upsert(t, batch - (todo - {key}), combine, zero)
         == Upsert(t, batch - todo, combine, zero)[key := combine(At(t, key, zero), batch[key])]
  {
    var less, more := batch - todo, batch - (todo - {key});
    var left, right := Upsert(t, more, combine, zero), Upsert(t, less, combine, zero)[key := combine(At(t, key, zero), batch[key])];
    assert more.Keys == less.Keys + {key};
    assert left.Keys == right.Keys;
    forall other | other in left ensures left[other] == right[other] {
      assert other != key ==> (other in more <==> other in less);
      assert key in more && more[key] == batch[key];
    }
  }
}
