/** A map from an account to a set, with the insert-or-create and
    remove-and-prune updates every index of the contract goes through. */
module Index {
  import opened Types

  /** Add `v` to the set held under `a`, creating the set when `a` has none. */
  function Insert<K, V>(idx: map<K, set<V>>, a: K, v: V): (r: map<K, set<V>>)
    ensures r.Keys == idx.Keys + {a}
    ensures v in r[a]
    ensures a in idx ==> r[a] == idx[a] + {v}
    ensures a !in idx ==> r[a] == {v}
    ensures forall b :: b in idx && b != a ==> r[b] == idx[b]
    ensures NoEmptySets(idx) ==> NoEmptySets(r)
  {
    var current := if a in idx then idx[a] else {};
    idx[a := current + {v}]
  }

  /** Remove `v` from the set held under `a`; drop `a` when its set empties. */
  function Remove<K, V>(idx: map<K, set<V>>, a: K, v: V): (r: map<K, set<V>>)
    requires a in idx
    ensures a in r <==> idx[a] - {v} != {}
    ensures a in r ==> r[a] == idx[a] - {v}
    ensures r.Keys - {a} == idx.Keys - {a}
    ensures forall b :: b in idx && b != a ==> b in r && r[b] == idx[b]
    ensures NoEmptySets(idx) ==> NoEmptySets(r)
  {
    var rest := idx[a] - {v};
    if rest == {} then idx - {a} else idx[a := rest]
  }

  /** Removing what a fresh insert added gives back the original index. */
  lemma InsertThenRemove<K, V>(idx: map<K, set<V>>, a: K, v: V)
    requires a in idx ==> v !in idx[a]
    requires NoEmptySets(idx)
    ensures Remove(Insert(idx, a, v), a, v) == idx
  {
    var r := Remove(Insert(idx, a, v), a, v);
    assert r.Keys == idx.Keys;
    forall b | b in idx
      ensures r[b] == idx[b]
    {
      if b == a {
        assert idx[a] + {v} - {v} == idx[a];
      }
    }
  }
}
