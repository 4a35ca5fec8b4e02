/** The map with random access of shared/hashset.go: dense keys and values, a slot for each key, and
    snapshots of it. Its meaning is a plain map. */
module HashMaps {
  import opened Common
  import opened Indexing
  import opened Listings

  datatype Snapshot<+K, +V> = Snapshot(version: int, timestamp: int, entries: seq<Entry<K, V>>)

  /** What a list of puts does to a plain map: the last value of a key wins. */
  function PutEach<K, V>(m: map<K, V>, entries: seq<Entry<K, V>>): (r: map<K, V>) {
    if entries == [] then m
    else
      var n := |entries| - 1;
      PutEach(m, entries[..n])[entries[n].key := entries[n].value]
  }

  lemma PutEachStep<K, V>(m: map<K, V>, entries: seq<Entry<K, V>>, i: nat)
    requires i < |entries|
    ensures PutEach(m, entries[..i + 1]) == PutEach(m, entries[..i])[entries[i].key := entries[i].value]
  {
    assert entries[..i + 1][..i] == entries[..i];
  }

  /** Entry by entry: a key that is put has the value of its last entry, any other key what it had. */
  ghost predicate PutInTurn<K(!new), V(!new)>(m: map<K, V>, entries: seq<Entry<K, V>>, m': map<K, V>) {
    && (forall i :: 0 <= i < |entries| && (forall j :: i < j < |entries| ==> entries[j].key != entries[i].key) ==>
      entries[i].key in m' && m'[entries[i].key] == entries[i].value)
    && (forall k :: (forall i :: 0 <= i < |entries| ==> entries[i].key != k) ==>
      (k in m' <==> k in m) && (k in m ==> m'[k] == m[k]))
  }

  lemma {:induction false} PutLast<K(!new), V(!new)>(m: map<K, V>, entries: seq<Entry<K, V>>, i: nat)
    requires i < |entries| && forall j :: i < j < |entries| ==> entries[j].key != entries[i].key
    ensures entries[i].key in PutEach(m, entries) && PutEach(m, entries)[entries[i].key] == entries[i].value
  {
    var n := |entries| - 1;
    if i < n {
      PutLast(m, entries[..n], i);
    }
  }

  lemma {:induction false} PutOther<K(!new), V(!new)>(m: map<K, V>, entries: seq<Entry<K, V>>, k: K)
    requires forall i :: 0 <= i < |entries| ==> entries[i].key != k
    ensures k in PutEach(m, entries) <==> k in m
    ensures k in m ==> PutEach(m, entries)[k] == m[k]
  {
    if entries != [] {
      PutOther(m, entries[..|entries| - 1], k);
    }
  }

  lemma LastPutWins<K(!new), V(!new)>(m: map<K, V>, entries: seq<Entry<K, V>>)
    ensures PutInTurn(m, entries, PutEach(m, entries))
  {
    hide PutEach;
    forall i | 0 <= i < |entries| && (forall j :: i < j < |entries| ==> entries[j].key != entries[i].key)
      ensures entries[i].key in PutEach(m, entries) && PutEach(m, entries)[entries[i].key] == entries[i].value
    {
      PutLast(m, entries, i);
    }
    forall k | forall i :: 0 <= i < |entries| ==> entries[i].key != k
      ensures k in PutEach(m, entries) <==> k in m
      ensures k in m ==> PutEach(m, entries)[k] == m[k]
    {
      PutOther(m, entries, k);
    }
  }

  /** The slots that restoring a list of keys assigns: the last occurrence of a key wins. */
  function SlotsOf<K>(keys: seq<K>): (r: map<K, nat>) {
    if keys == [] then map[] else SlotsOf(keys[..|keys| - 1])[keys[|keys| - 1] := |keys| - 1]
  }

  lemma {:induction false} SlotsOfKeys<K(!new)>(keys: seq<K>)
    ensures forall k :: k in SlotsOf(keys) <==> k in keys
    ensures forall k :: k in SlotsOf(keys) ==> SlotsOf(keys)[k] < |keys| && keys[SlotsOf(keys)[k]] == k
    ensures forall i :: 0 <= i < |keys| ==> keys[i] in SlotsOf(keys) && i <= SlotsOf(keys)[keys[i]]
  {
    if keys != [] {
      var n := |keys| - 1;
      SlotsOfKeys(keys[..n]);
      assert keys == keys[..n] + [keys[n]];
    }
  }

  /** Restoring re-establishes the slot invariant exactly for lists without a repeated key. */
  lemma {:induction false} SlotsOfIndexes<K(!new)>(keys: seq<K>)
    ensures Indexed(keys, SlotsOf(keys)) <==> Distinct(keys)
  {
    SlotsOfKeys(keys);
    if Distinct(keys) {
      forall i | 0 <= i < |keys| ensures SlotsOf(keys)[keys[i]] == i {
        assert keys[SlotsOf(keys)[keys[i]]] == keys[i];
      }
    } else {
      var i, j :| 0 <= i < j < |keys| && keys[i] == keys[j];
      assert j <= SlotsOf(keys)[keys[i]];
    }
  }

  class HashMap<K(!new, ==), V(!new)> {
    var keys: seq<K>
    var values: seq<V>
    var indexMap: map<K, nat>
    var currentVersion: int

    ghost predicate Valid()
      reads this
    {
      |keys| == |values| && Indexed(keys, indexMap)
    }

    ghost function Contents(): (m: map<K, V>)
      requires Valid()
      reads this
      ensures m.Keys == indexMap.Keys && |m| == |keys|
      ensures forall i :: 0 <= i < |keys| ==> keys[i] in m && m[keys[i]] == values[i]
    {
      IndexedDistinct(keys, indexMap);
      Mapping(keys, values, indexMap)
    }

    constructor ()
      ensures Valid() && Contents() == map[] && currentVersion == 0
    {
      keys, values, indexMap, currentVersion := [], [], map[], 0;
    }

    /** The previous value, if there was one. A new key goes to the end. */
    method Put(key: K, value: V) returns (previous: Option<V>)
      requires Valid()
      modifies this
      ensures Valid() && currentVersion == old(currentVersion)
      ensures Contents() == old(Contents())[key := value]
      ensures previous == if key in old(Contents()) then Some(old(Contents())[key]) else None
      ensures keys == if previous.Some? then old(keys) else old(keys) + [key]
    {
      if key in indexMap {
        var index := indexMap[key];
        var oldValue := values[index];
        OverwriteUpdates(keys, values, indexMap, key, value);
        values := values[index := value];
        return Some(oldValue);
      }
      var index := |keys|;
      AppendAdds(keys, values, indexMap, key, value);
      keys := keys + [key];
      values := values + [value];
      indexMap := indexMap[key := index];
      previous := None;
    }

    method Get(key: K) returns (r: Option<V>)
      requires Valid()
      ensures r == if key in Contents() then Some(Contents()[key]) else None
    {
      if key !in indexMap {
        return None;
      }
      r := Some(values[indexMap[key]]);
    }

    /** The last entry takes the removed entry's place; every other one stays where it was. */
    method Remove(key: K) returns (removed: Option<V>)
      requires Valid()
      modifies this
      ensures Valid() && currentVersion == old(currentVersion)
      ensures Contents() == old(Contents()) - {key}
      ensures removed == if key in old(Contents()) then Some(old(Contents())[key]) else None
      ensures removed.None? ==> keys == old(keys)
      ensures removed.Some? ==> keys == SwapRemoved(old(keys), old(indexMap)[key])
    {
      hide Indexed, Mapping, Distinct;
      if key !in indexMap {
        return None;
      }
      var index := indexMap[key];
      SlotHoldsKey(keys, values, indexMap, key);
      var removedValue := values[index];
      var lastIndex := |keys| - 1;
      SwapRemoveDeletes(keys, values, indexMap, index);
      var lastKey := keys[lastIndex];
      indexMap := indexMap - {key};
      if index != lastIndex {
        indexMap := indexMap[lastKey := index];
      }
      keys := SwapRemoved(keys, index);
      values := SwapRemoved(values, index);
      removed := Some(removedValue);
    }

    method Clear()
      modifies this
      ensures Valid() && Contents() == map[] && currentVersion == old(currentVersion)
    {
      indexMap, keys, values := map[], [], [];
    }

    /** The result counts the entries whose key was present when its turn came. */
    method PutAll(entries: seq<Entry<K, V>>) returns (updated: nat)
      requires Valid()
      modifies this
      ensures Valid() && currentVersion == old(currentVersion)
      ensures Contents() == PutEach(old(Contents()), entries) && PutInTurn(old(Contents()), entries, Contents())
      ensures |Contents()| == |old(Contents())| + |entries| - updated
    {
      hide PutInTurn;
      ghost var before := Contents();
      LastPutWins(before, entries);
      updated := 0;
      for i := 0 to |entries|
        invariant Valid() && currentVersion == old(currentVersion)
        invariant Contents() == PutEach(before, entries[..i])
        invariant |keys| == |before| + i - updated
      {
        PutEachStep(before, entries, i);
        var previous := Put(entries[i].key, entries[i].value);
        if previous.Some? {
          updated := updated + 1;
        }
      }
      assert entries[..|entries|] == entries;
    }

    method Entries() returns (result: seq<Entry<K, V>>)
      requires |keys| == |values|
      ensures Keys(result) == keys && Values(result) == values
    {
      result := [];
      for i := 0 to |keys|
        invariant |result| == i
        invariant forall j :: 0 <= j < i ==> result[j] == Entry(keys[j], values[j])
      {
        result := result + [Entry(keys[i], values[i])];
      }
    }

    method CreateSnapshot(now: int) returns (snapshot: Snapshot<K, V>)
      requires Valid()
      modifies this`currentVersion
      ensures Valid() && currentVersion == old(currentVersion) + 1
      ensures snapshot.version == currentVersion && snapshot.timestamp == now
      ensures Keys(snapshot.entries) == keys && Values(snapshot.entries) == values
      ensures Distinct(Keys(snapshot.entries))
    {
      currentVersion := currentVersion + 1;
      var entries := Entries();
      IndexedDistinct(keys, indexMap);
      snapshot := Snapshot(currentVersion, now, entries);
    }

    /** `file` is what opening and decoding gave; on failure nothing changes. Nothing is required
        of a decoded snapshot, and the slot invariant comes out exactly when its keys are distinct. */
    method LoadFromDisk(file: Option<Snapshot<K, V>>) returns (ok: bool)
      modifies this
      ensures ok == file.Some?
      ensures !ok ==> unchanged(this)
      ensures ok ==> keys == Keys(file.value.entries) && values == Values(file.value.entries)
      ensures ok ==> indexMap == SlotsOf(keys) && currentVersion == file.value.version
      ensures ok ==> (Valid() <==> Distinct(Keys(file.value.entries)))
    {
      if file.None? {
        return false;
      }
      var entries := file.value.entries;
      indexMap, keys, values := map[], [], [];
      for idx := 0 to |entries|
        invariant keys == Keys(entries)[..idx] && values == Values(entries)[..idx]
        invariant indexMap == SlotsOf(keys)
      {
        ghost var before := keys;
        keys := keys + [entries[idx].key];
        values := values + [entries[idx].value];
        indexMap := indexMap[entries[idx].key := idx];
        assert keys[..idx] == before;
      }
      currentVersion := file.value.version;
      SlotsOfIndexes(keys);
      ok := true;
    }
  }

  lemma SlotsUnique<K(!new)>(keys: seq<K>, a: map<K, nat>, b: map<K, nat>)
    requires Indexed(keys, a) && Indexed(keys, b)
    ensures a == b
  {
    IndexedDistinct(keys, a);
    IndexedDistinct(keys, b);
  }

  /** Save, lose the process, load into a new map: same map, same order, same version. */
  method SaveAndRestore<K(!new, ==), V(!new)>(h: HashMap<K, V>, now: int) returns (restored: HashMap<K, V>)
    requires h.Valid()
    modifies h`currentVersion
    ensures fresh(restored) && restored.Valid() && h.Valid()
    ensures restored.Contents() == h.Contents() == old(h.Contents())
    ensures restored.keys == h.keys && restored.values == h.values && restored.indexMap == h.indexMap
    ensures restored.currentVersion == h.currentVersion == old(h.currentVersion) + 1
  {
    hide Indexed, SlotsOf, Distinct;
    var snapshot := h.CreateSnapshot(now);
    restored := new HashMap<K, V>();
    var _ := restored.LoadFromDisk(Some(snapshot));
    SlotsUnique(h.keys, restored.indexMap, h.indexMap);
  }

  /** Loading a file that repeats a key leaves a map that is not well formed: two slots hold the key, and
      the slot map knows only the last. */
  method LoadRepeatedKey() returns (h: HashMap<string, int>)
    ensures fresh(h) && !h.Valid()
    ensures h.keys == ["a", "a"] && h.values == [1, 2] && h.indexMap == map["a" := 1]
  {
    var entries := [Entry("a", 1), Entry("a", 2)];
    h := new HashMap<string, int>();
    var _ := h.LoadFromDisk(Some(Snapshot(1, 0, entries)));
    RepeatedKeySlots();
    assert Keys(entries) == ["a", "a"] && Values(entries) == [1, 2];
  }

  lemma RepeatedKeySlots()
    ensures var keys := Keys([Entry("a", 1), Entry("a", 2)]);
      SlotsOf(keys) == map["a" := 1] && !Indexed(keys, SlotsOf(keys))
  {
    var keys := Keys([Entry("a", 1), Entry("a", 2)]);
    assert keys == ["a", "a"] && keys[..1] == ["a"] && ["a"][..0] == [];
    assert SlotsOf(["a"]) == map["a" := 0];
    assert keys[0] == keys[1];
    SlotsOfIndexes(keys);
  }
}
