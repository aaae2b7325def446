/**
 * A hash map used as an index by name: one hash node for every name, leading to its owner.
 */
module KeyIndex {
  import opened Names
  import opened HashTable

  /** The hash nodes are those of the names in owners, each found under the hash of its name. */
  ghost predicate Keyed<V>(hnodes: set<HNode<V>>, owners: map<Bytes, V>, hashed: map<Bytes, HNode<V>>) {
    && hashed.Keys == owners.Keys
    && (forall h <- hnodes :: h.key in hashed && hashed[h.key] == h)
    && (forall n <- hashed :: n in owners && hashed[n] in hnodes && hashed[n].key == n
                              && hashed[n].owner == owners[n] && hashed[n].hcode == StrHash(n))
  }

  lemma KeyedAdd<V>(hnodes: set<HNode<V>>, owners: map<Bytes, V>, hashed: map<Bytes, HNode<V>>, h: HNode<V>)
    requires Keyed(hnodes, owners, hashed) && h.key !in owners && h.hcode == StrHash(h.key)
    ensures Keyed(hnodes + {h}, owners[h.key := h.owner], hashed[h.key := h]) && h !in hnodes
  {
  }

  lemma KeyedRemove<V>(hnodes: set<HNode<V>>, owners: map<Bytes, V>, hashed: map<Bytes, HNode<V>>, name: Bytes)
    requires Keyed(hnodes, owners, hashed) && name in owners
    ensures name in hashed && Keyed(hnodes - {hashed[name]}, owners - {name}, hashed - {name})
  {
  }

  /** There are as many hash nodes as names. */
  lemma {:induction false} KeyedCount<V>(hnodes: set<HNode<V>>, owners: map<Bytes, V>, hashed: map<Bytes, HNode<V>>)
    requires Keyed(hnodes, owners, hashed)
    ensures |hnodes| == |owners|
    decreases |hnodes|
  {
    if hnodes == {} {
      assert forall n <- owners :: n in hashed;
      assert owners == map[];
    } else {
      var h :| h in hnodes;
      var n := h.key;
      assert n in hashed;
      KeyedRemove(hnodes, owners, hashed, n);
      KeyedCount(hnodes - {h}, owners - {n}, hashed - {n});
      assert |owners - {n}| == |owners| - 1 by {
        assert (owners - {n}).Keys == owners.Keys - {n} && |owners.Keys| == |owners|;
        assert |(owners - {n}).Keys| == |owners - {n}|;
      }
    }
  }
}
