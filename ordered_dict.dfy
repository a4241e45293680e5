/**
 * A Python dict as the Analyzer relies on it: a finite map whose keys iterate in the order
 * they were first inserted. Assigning to a key already present keeps its position.
 */
module OrderedDict {

  datatype Dict<K(!new), V> = Dict(keys: seq<K>, entries: map<K, V>)

  function Empty<K(!new), V>(): Dict<K, V> {
    Dict([], map[])
  }

  /** The key order lists every key of the map exactly once */
  ghost predicate Valid<K(!new), V>(d: Dict<K, V>) {
    && (forall i, j :: 0 <= i < j < |d.keys| ==> d.keys[i] != d.keys[j])
    && (forall k :: k in d.entries <==> k in d.keys)
  }

  /** d[k] = v */
  function Put<K(!new), V>(d: Dict<K, V>, k: K, v: V): (r: Dict<K, V>)
    ensures k in r.entries && r.entries[k] == v
  {
    if k in d.entries then Dict(d.keys, d.entries[k := v])
    else Dict(d.keys + [k], d.entries[k := v])
  }

  /** Assignment keeps the dict well formed, changes only key k, and never reorders old keys:
      a new key goes to the end of the iteration order. */
  lemma PutValid<K(!new), V>(d: Dict<K, V>, k: K, v: V)
    requires Valid(d)
    ensures Valid(Put(d, k, v))
    ensures Put(d, k, v).entries == d.entries[k := v]
    ensures Put(d, k, v).keys == if k in d.entries then d.keys else d.keys + [k]
  {
    var r := Put(d, k, v);
    if k !in d.entries {
      forall i, j | 0 <= i < j < |r.keys| ensures r.keys[i] != r.keys[j] {
        if j == |d.keys| {
          assert r.keys[i] == d.keys[i] && d.keys[i] in d.entries;
        }
      }
    }
  }
}
