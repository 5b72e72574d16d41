/** Hash maps of the eBPF programs: a new key is refused once the map is full. */
module BpfMaps {
  import opened Sizes

  /** bpf_map_update_elem with BPF_ANY */
  function Update<K, V>(m: map<K, V>, capacity: nat, k: K, v: V): map<K, V> {
    if k in m || |m| < capacity then m[k := v] else m
  }

  /** bpf_map_update_elem with BPF_NOEXIST */
  function InsertNew<K, V>(m: map<K, V>, capacity: nat, k: K, v: V): map<K, V> {
    if k !in m && |m| < capacity then m[k := v] else m
  }

  /** If the keys are among few enough, no update is refused. */
  lemma UpdateSucceeds<K, V>(m: map<K, V>, capacity: nat, k: K, v: V, keys: set<K>)
    requires m.Keys <= keys && k in keys && |keys| <= capacity
    ensures |m| <= capacity && Update(m, capacity, k, v) == m[k := v]
    ensures InsertNew(m, capacity, k, v) == if k in m then m else m[k := v]
  {
    assert |m.Keys| == |m|;
    SubsetSize(m.Keys, keys);
    if k !in m {
      SubsetSize(m.Keys + {k}, keys);
    }
  }
}
