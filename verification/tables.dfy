/** Insertion-ordered string-keyed dictionaries, as Python's `dict` and the keys
    of a JavaScript object behave: assigning an existing key keeps its position,
    assigning a new key appends it. */
module Tables {
  import opened Sorting

  datatype Table<V> = Table(keys: seq<string>, vals: map<string, V>) {
    /** The key order lists every key exactly once. */
    predicate Valid() {
      Distinct(keys) && Elems(keys) == vals.Keys
    }

    /** `d[k] = v`. */
    function Put(k: string, v: V): (t: Table<V>)
      requires Valid()
      ensures t.Valid()
      ensures t.vals == vals[k := v]
      ensures |t.keys| == |keys| + (if k in vals then 0 else 1)
      ensures t.keys[..|keys|] == keys
    {
      if k in vals then Table(keys, vals[k := v])
      else
        assert k !in keys by { assert k !in Elems(keys); }
        Table(keys + [k], vals[k := v])
    }
  }

  function EmptyTable<V>(): (t: Table<V>)
    ensures t.Valid() && |t.keys| == 0
  {
    Table([], map[])
  }

  /** The entries whose key passes `keep`, in key order (a loop that copies
      some entries of an object into a new one). */
  function Select<V>(t: Table<V>, keep: string -> bool): (r: Table<V>)
    requires t.Valid()
    ensures r.Valid()
    ensures forall k :: k in r.vals <==> k in t.vals && keep(k)
    ensures forall k :: k in r.vals ==> r.vals[k] == t.vals[k]
    ensures r.keys == Filter(t.keys, keep)
  {
    var keys := Filter(t.keys, keep);
    var vals := map k | k in t.vals && keep(k) :: t.vals[k];
    assert Elems(keys) == vals.Keys by {
      forall k ensures k in Elems(keys) <==> k in vals {
        assert k in t.keys <==> k in Elems(t.keys);
      }
    }
    Table(keys, vals)
  }
}
