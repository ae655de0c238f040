/**
 * A dictionary with string keys that remembers the order in which keys were
 * first inserted, as Python's `dict` does (and as a JSON dump and load keeps).
 */
module OrderedDict {

  datatype Dict<V> = Dict(keys: seq<string>, entries: map<string, V>)

  /** The keys are listed once each, and exactly the keys of the map are listed. */
  ghost predicate Valid<V>(d: Dict<V>)
  {
    && (forall i, j :: 0 <= i < j < |d.keys| ==> d.keys[i] != d.keys[j])
    && (forall k :: k in d.entries <==> k in d.keys)
  }

  function Empty<V>(): (r: Dict<V>)
    ensures Valid(r) && r.entries == map[]
  {
    Dict([], map[])
  }

  /**
   * `d[k] = v`: the map gets the new value, an existing key keeps its place
   * and a new key is placed last.
   */
  function Put<V>(d: Dict<V>, k: string, v: V): (r: Dict<V>)
    requires Valid(d)
    ensures Valid(r)
    ensures r.entries == d.entries[k := v]
    ensures k in d.entries ==> r.keys == d.keys
    ensures k !in d.entries ==> r.keys == d.keys + [k]
  {
    if k in d.entries then Dict(d.keys, d.entries[k := v])
    else Dict(d.keys + [k], d.entries[k := v])
  }

  /** Writing the value a key already holds changes nothing. */
  lemma PutPresent<V>(d: Dict<V>, k: string)
    requires Valid(d) && k in d.entries
    ensures Put(d, k, d.entries[k]) == d
  {
    assert d.entries[k := d.entries[k]] == d.entries;
  }

  /** A second write to a key replaces the first one, and the key keeps its place. */
  lemma PutOverwrites<V>(d: Dict<V>, k: string, v1: V, v2: V)
    requires Valid(d)
    ensures Put(Put(d, k, v1), k, v2) == Put(d, k, v2)
  {
    assert d.entries[k := v1][k := v2] == d.entries[k := v2];
  }
}
