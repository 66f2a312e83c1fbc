/**
  A BPF hash map with 32-bit keys, as the two XDP programs use it: a keyed
  store of fixed capacity (`max_entries`) that never evicts. Hashing and the
  kernel's storage layout are abstracted to a finite `map`.
 */
module BpfMap {

  datatype Option<T> = None | Some(value: T)

  /** A map key: the `__u32` the programs pass as `&src_ip`. */
  datatype Key = Key(bits: bv32)

  /** The errno `bpf_map_update_elem` reports when a hash map is full. */
  const E2BIG: int := 7

  datatype UpdateResult<V> = UpdateResult(err: int, entries: map<Key, V>)

  /**
    `bpf_map_update_elem(map, &k, &v, BPF_ANY)` on a hash map holding `m` with
    room for `maxEntries` keys: an existing key is overwritten, a new key is
    added while there is room, and otherwise the call fails with `-E2BIG` and
    leaves the map as it was.
   */
  function UpdateAny<V>(m: map<Key, V>, maxEntries: nat, k: Key, v: V): (r: UpdateResult<V>)
    ensures r.err == 0 || r.err == -E2BIG
    ensures r.err != 0 <==> k !in m && |m| >= maxEntries
    ensures r.err == 0 ==> k in r.entries && r.entries[k] == v
    ensures r.err != 0 ==> r.entries == m
    ensures forall j :: j != k ==> (j in r.entries <==> j in m)
    ensures forall j :: j != k && j in m ==> r.entries[j] == m[j]
    ensures m.Keys <= r.entries.Keys
    ensures |m| <= maxEntries ==> |r.entries| <= maxEntries
  {
    if k in m || |m| < maxEntries then UpdateResult(0, m[k := v]) else UpdateResult(-E2BIG, m)
  }

  class HashMap<V> {
    const maxEntries: nat
    var entries: map<Key, V>

    ghost predicate Valid()
      reads this
    {
      |entries| <= maxEntries
    }

    /** A freshly loaded map: empty, with room for `maxEntries` keys. */
    constructor (maxEntries: nat)
      ensures Valid()
      ensures this.maxEntries == maxEntries && entries == map[]
    {
      this.maxEntries := maxEntries;
      entries := map[];
    }

    /** `bpf_map_lookup_elem`: the record for `k`, if there is one. */
    method Lookup(k: Key) returns (r: Option<V>)
      requires Valid()
      ensures r.Some? <==> k in entries
      ensures r.Some? ==> r.value == entries[k]
    {
      if k in entries {
        r := Some(entries[k]);
      } else {
        r := None;
      }
    }

    /** `bpf_map_update_elem(..., BPF_ANY)`: returns 0 or a negative errno. */
    method Update(k: Key, v: V) returns (err: int)
      requires Valid()
      modifies this
      ensures Valid()
      ensures UpdateResult(err, entries) == UpdateAny(old(entries), maxEntries, k, v)
    {
      var r := UpdateAny(entries, maxEntries, k, v);
      err := r.err;
      entries := r.entries;
    }

    /**
      A store through the pointer that `Lookup` handed out for `k`: the
      record is replaced in place, no key is added or removed.
     */
    method Write(k: Key, v: V)
      requires Valid() && k in entries
      modifies this
      ensures Valid()
      ensures entries == old(entries)[k := v]
      ensures entries.Keys == old(entries).Keys
    {
      entries := entries[k := v];
    }
  }
}
