/** Collecting the values of a hash map, as `values().cloned().collect()` does. */
module Maps {

  /** `keys` lists every key of `m` exactly once. */
  ghost predicate Enumerates<K(!new), V>(m: map<K, V>, keys: seq<K>)
  {
    && (forall i, j :: 0 <= i < j < |keys| ==> keys[i] != keys[j])
    && (forall k :: k in m <==> k in keys)
  }

  /** The values of `m`, one per key, in whatever order the map yields its
      keys; `keys` records that order. */
  method CollectValues<K(!new), V>(m: map<K, V>) returns (values: seq<V>, ghost keys: seq<K>)
    ensures Enumerates(m, keys)
    ensures |values| == |keys| == |m|
    ensures forall i :: 0 <= i < |keys| ==> values[i] == m[keys[i]]
  {
    values, keys := [], [];
    var pending := m.Keys;
    while pending != {}
      invariant pending <= m.Keys
      invariant forall i, j :: 0 <= i < j < |keys| ==> keys[i] != keys[j]
      invariant forall k :: k in keys <==> k in m && k !in pending
      invariant |values| == |keys| && |keys| + |pending| == |m|
      invariant forall i :: 0 <= i < |keys| ==> values[i] == m[keys[i]]
      decreases pending
    {
      var k :| k in pending;
      values, keys := values + [m[k]], keys + [k];
      pending := pending - {k};
    }
  }
}
