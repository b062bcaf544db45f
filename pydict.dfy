/**
 * A Python `dict` as the pipeline uses it: a finite map that also remembers
 * the order in which its keys were first inserted (iteration order of
 * `dict.items()`). Assigning to a key that is already present keeps its place.
 */
module PyDict {

  datatype Dict<K, V> = Dict(keys: seq<K>, entries: map<K, V>)

  /** The keys listed once each and exactly the keys of the map. */
  predicate Valid<K, V>(d: Dict<K, V>) {
    && (forall i, j :: 0 <= i < j < |d.keys| ==> d.keys[i] != d.keys[j])
    && (forall k :: k in d.keys ==> k in d.entries)
    && (forall k :: k in d.entries ==> k in d.keys)
  }

  function Empty<K, V>(): (d: Dict<K, V>)
    ensures Valid(d) && d.entries == map[]
  {
    Dict([], map[])
  }

  /** `d[k] = v` */
  function Put<K, V>(d: Dict<K, V>, k: K, v: V): (r: Dict<K, V>)
    requires Valid(d)
    ensures Valid(r)
    ensures r.entries == d.entries[k := v]
    ensures k in d.entries ==> r.keys == d.keys
    ensures k !in d.entries ==> r.keys == d.keys + [k]
  {
    if k in d.entries then Dict(d.keys, d.entries[k := v]) else Dict(d.keys + [k], d.entries[k := v])
  }

  /** `d.items()`: the key-value pairs in insertion order. */
  function Items<K, V>(d: Dict<K, V>): (r: seq<(K, V)>)
    requires Valid(d)
    ensures |r| == |d.keys|
    ensures forall i :: 0 <= i < |r| ==> r[i].0 == d.keys[i] && r[i].1 == d.entries[d.keys[i]]
  {
    seq(|d.keys|, i requires 0 <= i < |d.keys| => (d.keys[i], d.entries[d.keys[i]]))
  }

  /** Each key's pair is listed, and only those pairs. */
  lemma ItemsExactly<K, V>(d: Dict<K, V>, k: K, v: V)
    requires Valid(d)
    ensures (k, v) in Items(d) <==> k in d.entries && d.entries[k] == v
  {
    var items := Items(d);
    if k in d.entries {
      var i :| 0 <= i < |d.keys| && d.keys[i] == k;
      assert items[i] == (k, d.entries[k]);
    }
  }

  /** `len(d)`: in a valid dict the key list is as long as the map is large. */
  lemma {:induction false} LengthIsSize<K, V>(d: Dict<K, V>)
    requires Valid(d)
    ensures |d.keys| == |d.entries.Keys|
    decreases |d.keys|
  {
    if |d.keys| > 0 {
      var k := d.keys[|d.keys| - 1];
      var rest := Dict(d.keys[..|d.keys| - 1], d.entries - {k});
      DropLast(d);
      LengthIsSize(rest);
      assert d.entries.Keys == rest.entries.Keys + {k};
    }
  }

  /** Removing the last inserted key from both parts leaves a valid dict. */
  lemma DropLast<K, V>(d: Dict<K, V>)
    requires Valid(d) && |d.keys| > 0
    ensures Valid(Dict(d.keys[..|d.keys| - 1], d.entries - {d.keys[|d.keys| - 1]}))
  {
    var k := d.keys[|d.keys| - 1];
    var rest := Dict(d.keys[..|d.keys| - 1], d.entries - {k});
    forall x | x in rest.keys ensures x in rest.entries {
      var i :| 0 <= i < |rest.keys| && rest.keys[i] == x;
      assert d.keys[i] == x;
    }
    forall x | x in rest.entries ensures x in rest.keys {
      var i :| 0 <= i < |d.keys| && d.keys[i] == x;
      assert rest.keys[i] == x;
    }
  }
}
