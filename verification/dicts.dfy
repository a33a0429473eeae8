/**
 * Python dictionaries: finite maps that also remember the order in which their keys
 * were first inserted, which is the order `items()` walks them in.
 */
module Dicts {
  datatype Dict<K(==), V> = Dict(keys: seq<K>, items: map<K, V>) {
    /** The order lists every key of the map exactly once. */
    ghost predicate Valid() {
      && (forall i, j | 0 <= i < j < |keys| :: keys[i] != keys[j])
      && (forall k | k in items :: k in keys)
      && (forall k | k in keys :: k in items)
    }

    /** `d[k] = v`: a new key goes to the end of the order, an existing key keeps its place. */
    function Put(k: K, v: V): (r: Dict<K, V>)
      ensures Valid() ==> r.Valid()
      ensures r.items == items[k := v]
    {
      if k in items then Dict(keys, items[k := v]) else Dict(keys + [k], items[k := v])
    }
  }

  /** `{}` */
  function Empty<K(==), V>(): (d: Dict<K, V>)
    ensures d.Valid() && d.items == map[] && d.keys == []
  {
    Dict([], map[])
  }
}
