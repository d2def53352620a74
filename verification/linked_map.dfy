/**
 * The `properties` field is a LinkedHashMap: a map that remembers the order in which its keys
 * were first inserted. Writing a key that is already present (put or replace) changes its value
 * and keeps its place; a new key goes to the end.
 */
module LinkedMaps {
  import opened Wrappers

  datatype LinkedMap = LinkedMap(keys: seq<string>, entries: map<string, string>)
  {
    /** The order lists every key of the map exactly once. */
    ghost predicate Valid()
    {
      (forall i, j :: 0 <= i < j < |keys| ==> keys[i] != keys[j])
      && (forall k :: k in entries <==> k in keys)
    }

    /** Map.get: the value of `k`, or None (Java's null) when it is absent. */
    function Get(k: string): (r: Option<string>)
      ensures r.Some? <==> k in entries
      ensures r.Some? ==> r.value == entries[k]
    {
      if k in entries then Some(entries[k]) else None
    }

    /**
     * put / replace: `k` is bound to `v`, every other binding stays, an existing key keeps its
     * position and a new key is appended to the order.
     */
    function Put(k: string, v: string): (r: LinkedMap)
      requires Valid()
      ensures r.Valid()
      ensures k in r.entries && r.entries[k] == v
      ensures forall j :: j != k ==> (j in r.entries <==> j in entries)
      ensures forall j :: j != k && j in entries ==> r.entries[j] == entries[j]
      ensures |r.keys| == if k in entries then |keys| else |keys| + 1
      ensures r.keys[..|keys|] == keys
      ensures k !in entries ==> r.keys[|keys|] == k
    {
      if k in entries then LinkedMap(keys, entries[k := v]) else LinkedMap(keys + [k], entries[k := v])
    }
  }

  /** A new, empty LinkedHashMap. */
  function Empty(): (m: LinkedMap)
    ensures m.Valid() && m.entries == map[]
  {
    LinkedMap([], map[])
  }

  /** Writing a binding that is already there changes nothing. */
  lemma PutPresent(m: LinkedMap, k: string, v: string)
    requires m.Valid() && k in m.entries && m.entries[k] == v
    ensures m.Put(k, v) == m
  {
    assert m.entries[k := v] == m.entries;
  }

  /** put is idempotent: writing the same binding twice is writing it once. */
  lemma PutIdempotent(m: LinkedMap, k: string, v: string)
    requires m.Valid()
    ensures m.Put(k, v).Put(k, v) == m.Put(k, v)
  {
    PutPresent(m.Put(k, v), k, v);
  }
}
