/** The insertion-ordered map used as the mapping type of YAML nodes
    (include/fkYAML/OrderedMap.hpp). The C++ class derives from a vector of
    (key, value) pairs and searches it linearly; the model is that vector. */
module OrderedMap {
  import opened Wrappers

  type OMap<K, V> = seq<(K, V)>

  datatype MapError = KeyNotFound

  /** Result of `emplace`: the map afterwards, the position of the entry for
      the key (the iterator) and whether a new entry was appended. */
  datatype Emplaced<K, V> = Emplaced(entries: OMap<K, V>, pos: nat, inserted: bool)

  /** Result of `operator[]`: the map afterwards and the value stored for
      the key. */
  datatype Subscripted<K, V> = Subscripted(entries: OMap<K, V>, value: V)

  /** No key occurs twice. */
  predicate UniqueKeys<K(==), V>(m: OMap<K, V>) {
    forall i, j :: 0 <= i < j < |m| ==> m[i].0 != m[j].0
  }

  predicate HasKey<K(==), V>(m: OMap<K, V>, k: K) {
    exists i :: 0 <= i < |m| && m[i].0 == k
  }

  /** The linear search shared by `emplace`, `at` and `find`, started at `i`. */
  function FindFrom<K(==), V>(m: OMap<K, V>, k: K, i: nat): (r: nat)
    requires i <= |m|
    ensures i <= r <= |m|
    ensures r < |m| ==> m[r].0 == k
    ensures forall j :: i <= j < r ==> m[j].0 != k
    decreases |m| - i
  {
    if i == |m| then |m|
    else if m[i].0 == k then i
    else FindFrom(m, k, i + 1)
  }

  /** `find`: the position of the first entry whose key is `k`, or `|m|`
      (the `end()` iterator) when there is none. */
  function Find<K(==), V>(m: OMap<K, V>, k: K): (r: nat)
    ensures r <= |m|
    ensures r < |m| ==> m[r].0 == k
    ensures r == |m| <==> !HasKey(m, k)
    ensures forall j :: 0 <= j < r ==> m[j].0 != k
  {
    FindFrom(m, k, 0)
  }

  /** A key appended to a map that lacks it is found at the end. */
  lemma FindAppended<K, V>(m: OMap<K, V>, k: K, v: V)
    requires !HasKey(m, k)
    ensures Find(m + [(k, v)], k) == |m|
  {
    assert (m + [(k, v)])[|m|].0 == k;
  }

  /** The same keys at the same positions; the values may differ. */
  predicate SameKeys<K(==), V>(a: OMap<K, V>, b: OMap<K, V>) {
    |a| == |b| && forall t :: 0 <= t < |a| ==> a[t].0 == b[t].0
  }

  /** The search looks only at the keys: maps with the same keys in the
      same order find every key at the same position. */
  lemma FindSameKeys<K, V>(a: OMap<K, V>, b: OMap<K, V>, k: K)
    requires SameKeys(a, b)
    ensures Find(a, k) == Find(b, k)
  {
  }

  /** `emplace(key, value)`: an existing key is left alone and reported with
      `false`; a new key is appended at the end and reported with `true`. */
  function Emplace<K(==), V>(m: OMap<K, V>, k: K, v: V): (r: Emplaced<K, V>)
    ensures r.pos < |r.entries| && r.entries[r.pos].0 == k
    ensures r.inserted <==> !HasKey(m, k)
    ensures !r.inserted ==> r.entries == m && r.pos == Find(m, k)
    ensures r.inserted ==> r.entries == m + [(k, v)] && r.pos == |m| && r.entries[r.pos].1 == v
    ensures UniqueKeys(m) ==> UniqueKeys(r.entries)
  {
    var i := Find(m, k);
    if i < |m| then Emplaced(m, i, false)
    else Emplaced(m + [(k, v)], |m|, true)
  }

  /** `operator[]`: emplaces `(k, dflt)` (the default-constructed value) and
      returns the map afterwards together with the value stored for `k`. */
  function Subscript<K(==), V>(m: OMap<K, V>, k: K, dflt: V): (r: Subscripted<K, V>)
    ensures HasKey(m, k) ==> r.entries == m && r.value == m[Find(m, k)].1
    ensures !HasKey(m, k) ==> r.entries == m + [(k, dflt)] && r.value == dflt
    ensures UniqueKeys(m) ==> UniqueKeys(r.entries)
  {
    var e := Emplace(m, k, dflt);
    Subscripted(e.entries, e.entries[e.pos].1)
  }

  /** `at(key)`: the value of the matching entry; "key not found" otherwise. */
  function At<K(==), V>(m: OMap<K, V>, k: K): (r: Result<V, MapError>)
    ensures r.Ok? <==> HasKey(m, k)
    ensures r.Ok? ==> exists i :: 0 <= i < |m| && m[i] == (k, r.value)
    ensures r.Ok? ==> r.value == m[Find(m, k)].1
  {
    var i := Find(m, k);
    if i < |m| then Ok(m[i].1) else Err(KeyNotFound)
  }

  /** Reference meaning of an ordered map: the finite map it represents
      (later entries win, which never matters when keys are unique). */
  function ToMap<K(==), V>(m: OMap<K, V>): map<K, V>
  {
    if |m| == 0 then map[] else ToMap(m[..|m| - 1])[m[|m| - 1].0 := m[|m| - 1].1]
  }

  lemma {:induction false} ToMapKeys<K, V>(m: OMap<K, V>, k: K)
    ensures k in ToMap(m) <==> HasKey(m, k)
  {
    if |m| > 0 {
      var init := m[..|m| - 1];
      ToMapKeys(init, k);
      if HasKey(init, k) {
        var i :| 0 <= i < |init| && init[i].0 == k;
        assert m[i].0 == k;
      }
      if HasKey(m, k) && m[|m| - 1].0 != k {
        var i :| 0 <= i < |m| && m[i].0 == k;
        assert init[i].0 == k;
      }
    }
  }

  /** With unique keys, the entry `find` reaches holds the value the
      reference map associates with the key. */
  lemma {:induction false} ToMapLookup<K, V>(m: OMap<K, V>, i: nat)
    requires UniqueKeys(m)
    requires i < |m|
    ensures m[i].0 in ToMap(m) && ToMap(m)[m[i].0] == m[i].1
  {
    var init := m[..|m| - 1];
    if i < |m| - 1 {
      ToMapLookup(init, i);
      assert m[i].0 != m[|m| - 1].0;
    }
  }

  /** `at` agrees with the reference map: it succeeds exactly on its keys
      and then returns the associated value. */
  lemma AtMatchesMap<K, V>(m: OMap<K, V>, k: K)
    requires UniqueKeys(m)
    ensures At(m, k).Ok? <==> k in ToMap(m)
    ensures At(m, k).Ok? ==> At(m, k).value == ToMap(m)[k]
  {
    ToMapKeys(m, k);
    if HasKey(m, k) {
      ToMapLookup(m, Find(m, k));
    }
  }

  /** `emplace` acts on the reference map as "insert if absent". */
  lemma EmplaceMatchesMap<K, V>(m: OMap<K, V>, k: K, v: V)
    ensures ToMap(Emplace(m, k, v).entries) == if k in ToMap(m) then ToMap(m) else ToMap(m)[k := v]
  {
    ToMapKeys(m, k);
    var e := m + [(k, v)];
    assert e[..|e| - 1] == m;
  }
}
