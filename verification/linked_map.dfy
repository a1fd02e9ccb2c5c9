/** An insertion-ordered map, the model of `java.util.LinkedHashMap` that the
    batch reads return: re-inserting a key replaces its value and keeps its
    original position. */
module LinkedMaps {

  datatype LinkedMap<K, V> = LinkedMap(order: seq<K>, entries: map<K, V>)

  predicate Distinct<K(==)>(ks: seq<K>) {
    forall i, j :: 0 <= i < j < |ks| ==> ks[i] != ks[j]
  }

  /** The iteration order lists every key of the map exactly once. */
  ghost predicate Valid<K(!new), V>(m: LinkedMap<K, V>) {
    && Distinct(m.order)
    && (forall k :: k in m.entries <==> k in m.order)
  }

  function Empty<K(!new), V>(): (m: LinkedMap<K, V>)
    ensures Valid(m) && m.entries == map[]
  {
    LinkedMap([], map[])
  }

  /** `LinkedHashMap.put`. */
  function Put<K(==), V>(m: LinkedMap<K, V>, k: K, v: V): (r: LinkedMap<K, V>)
    ensures r.entries == m.entries[k := v]
    ensures k in m.entries ==> r.order == m.order
    ensures k !in m.entries ==> r.order == m.order + [k]
  {
    if k in m.entries then LinkedMap(m.order, m.entries[k := v])
    else LinkedMap(m.order + [k], m.entries[k := v])
  }

  /** `put` keeps every key listed exactly once in the iteration order. */
  lemma PutValid<K(!new), V>(m: LinkedMap<K, V>, k: K, v: V)
    requires Valid(m)
    ensures Valid(Put(m, k, v))
  {
  }

  /** The keys of `ks` in order of first occurrence: the iteration order a
      `LinkedHashMap` ends with after inserting `ks` one by one. */
  function Dedup<K(==,!new)>(ks: seq<K>): (r: seq<K>)
    ensures Distinct(r)
    ensures forall k :: k in r <==> k in ks
  {
    if |ks| == 0 then []
    else
      var d := Dedup(ks[..|ks| - 1]);
      var last := ks[|ks| - 1];
      assert ks == ks[..|ks| - 1] + [last];
      if last in d then d else d + [last]
  }
}
