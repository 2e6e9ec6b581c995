/**
 * An insertion-ordered map with the semantics of the ECMAScript `Map`
 * (section 23.1.3.9 of ECMA-262, 10th edition): `set` on a new key appends
 * an entry at the end, `set` on an existing key replaces its value and
 * leaves the entry where it was.
 */
module OrderedMaps {
  import opened Seqs

  datatype OrderedMap<K(!new), V> = OrderedMap(keys: seq<K>, values: map<K, V>)
  {
    /** Keys are pairwise distinct and are exactly the keys that carry a value. */
    ghost predicate Valid()
    {
      && Distinct(keys)
      && (forall k :: k in values <==> k in keys)
    }

    /** `Map.prototype.has`: the key is one of the entries. */
    predicate Has(k: K)
      ensures Valid() ==> (Has(k) <==> k in keys)
    {
      k in values
    }

    function Set(k: K, v: V): (r: OrderedMap<K, V>)
      requires Valid()
      ensures r.Valid()
      ensures r.values == values[k := v]
      ensures Has(k) ==> r.keys == keys
      ensures !Has(k) ==> r.keys == keys + [k]
    {
      if k in values then OrderedMap(keys, values[k := v])
      else OrderedMap(keys + [k], values[k := v])
    }
  }

  function Empty<K(!new), V>(): (r: OrderedMap<K, V>)
    ensures r.Valid() && r.keys == []
  {
    OrderedMap([], map[])
  }
}
