/** Lookup tables in both directions, built pair by pair (enumeration types in Type.hpp, finders in Utility.hpp). */
module TwoWay {

  datatype Lookups<K(==), V(==)> = Lookups(forward: map<K, V>, backward: map<V, K>)

  function Nothing<K(==), V(==)>(): Lookups<K, V> {
    Lookups(map[], map[])
  }

  function Insert<K(==), V(==)>(t: Lookups<K, V>, key: K, value: V): Lookups<K, V> {
    Lookups(t.forward[key := value], t.backward[value := key])
  }

  /** The two tables are inverse to each other. */
  predicate Inverse<K(==), V(==)>(t: Lookups<K, V>) {
    && (forall k :: k in t.forward ==> t.forward[k] in t.backward && t.backward[t.forward[k]] == k)
    && (forall v :: v in t.backward ==> t.backward[v] in t.forward && t.forward[t.backward[v]] == v)
  }

  predicate Unique<K(==), V(==)>(pairs: seq<(K, V)>) {
    forall i, j :: 0 <= i < j < |pairs| ==> pairs[i].0 != pairs[j].0 && pairs[i].1 != pairs[j].1
  }

  /** The tables hold exactly these pairs. */
  predicate Lists<K(==), V(==)>(t: Lookups<K, V>, pairs: seq<(K, V)>) {
    && (forall i :: 0 <= i < |pairs| ==> pairs[i].0 in t.forward && t.forward[pairs[i].0] == pairs[i].1)
    && (forall k :: k in t.forward ==> (k, t.forward[k]) in pairs)
  }

  lemma NoPairs<K, V>()
    ensures Inverse(Nothing<K, V>()) && Unique<K, V>([]) && Lists(Nothing<K, V>(), [])
  {
  }

  /** A pair whose key or value is known already makes the pairs repeat themselves; any other extends the tables. */
  lemma AddPair<K, V>(t: Lookups<K, V>, pairs: seq<(K, V)>, i: nat)
    requires i < |pairs| && Inverse(t) && Unique(pairs[..i]) && Lists(t, pairs[..i])
    ensures var (key, value) := pairs[i];
      if key in t.forward || value in t.backward then !Unique(pairs)
      else Inverse(Insert(t, key, value)) && Unique(pairs[..i + 1]) && Lists(Insert(t, key, value), pairs[..i + 1])
  {
    var (key, value) := pairs[i];
    var init := pairs[..i];
    if key in t.forward {
      var k :| 0 <= k < i && init[k] == (key, t.forward[key]);
      assert pairs[k].0 == pairs[i].0;
    } else if value in t.backward {
      var k :| 0 <= k < i && init[k] == (t.backward[value], value);
      assert pairs[k].1 == pairs[i].1;
    } else {
      var more := pairs[..i + 1];
      assert more == init + [pairs[i]];
      forall k | 0 <= k < i ensures more[k].0 != key && more[k].1 != value {
        assert more[k] == init[k];
      }
    }
  }
}
