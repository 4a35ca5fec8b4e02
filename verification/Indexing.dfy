/** A dense sequence of keys, a parallel sequence of payloads and a map from key to slot: the
    representation that both the priority queue and the hash map keep. Each lemma says what one
    edit of the representation does to the plain map it stands for. */
module Indexing {
  import opened Common

  /** `index` maps each key to its slot, and nothing else. */
  ghost predicate Indexed<K(!new)>(keys: seq<K>, index: map<K, nat>) {
    && (forall i :: 0 <= i < |keys| ==> keys[i] in index && index[keys[i]] == i)
    && (forall k :: k in index ==> index[k] < |keys| && keys[index[k]] == k)
  }

  /** The plain map a representation stands for. */
  ghost function Mapping<K(!new), V>(keys: seq<K>, payload: seq<V>, index: map<K, nat>): (m: map<K, V>)
    requires |keys| == |payload| && Indexed(keys, index)
    ensures m.Keys == index.Keys
    ensures forall i :: 0 <= i < |keys| ==> keys[i] in m && m[keys[i]] == payload[i]
  {
    map k | k in index :: payload[index[k]]
  }

  lemma SlotHoldsKey<K(!new), V>(keys: seq<K>, payload: seq<V>, index: map<K, nat>, k: K)
    requires |keys| == |payload| && Indexed(keys, index) && k in index
    ensures index[k] < |keys| && keys[index[k]] == k && Mapping(keys, payload, index)[k] == payload[index[k]]
  {}

  function Exchanged<T>(s: seq<T>, i: nat, j: nat): (r: seq<T>)
    requires i < |s| && j < |s|
  {
    s[i := s[j]][j := s[i]]
  }

  /** Slot `i` is filled with the last element, and the last slot is dropped. */
  function SwapRemoved<T>(s: seq<T>, i: nat): (r: seq<T>)
    requires i < |s|
  {
    s[i := s[|s| - 1]][..|s| - 1]
  }

  /** The slot map that goes with `SwapRemoved`. */
  function SwapRemovedIndex<K>(keys: seq<K>, index: map<K, nat>, i: nat): (r: map<K, nat>)
    requires i < |keys|
  {
    var last := |keys| - 1;
    if i == last then index - {keys[i]} else (index - {keys[i]})[keys[last] := i]
  }

  lemma AppendAdds<K(!new), V>(keys: seq<K>, payload: seq<V>, index: map<K, nat>, k: K, v: V)
    requires |keys| == |payload| && Indexed(keys, index) && k !in index
    ensures Indexed(keys + [k], index[k := |keys|])
    ensures Mapping(keys + [k], payload + [v], index[k := |keys|]) == Mapping(keys, payload, index)[k := v]
  {}

  lemma OverwriteUpdates<K(!new), V>(keys: seq<K>, payload: seq<V>, index: map<K, nat>, k: K, v: V)
    requires |keys| == |payload| && Indexed(keys, index) && k in index
    ensures Mapping(keys, payload[index[k] := v], index) == Mapping(keys, payload, index)[k := v]
  {}

  lemma ExchangeKeeps<K(!new), V>(keys: seq<K>, payload: seq<V>, index: map<K, nat>, i: nat, j: nat)
    requires |keys| == |payload| && Indexed(keys, index) && i < |keys| && j < |keys|
    ensures var ks := Exchanged(keys, i, j);
      var index' := index[ks[i] := i][ks[j] := j];
      Indexed(ks, index') && Mapping(ks, Exchanged(payload, i, j), index') == Mapping(keys, payload, index)
  {}

  /** Swap-with-last removal takes away exactly one key. */
  lemma SwapRemoveDeletes<K(!new), V>(keys: seq<K>, payload: seq<V>, index: map<K, nat>, i: nat)
    requires |keys| == |payload| && Indexed(keys, index) && i < |keys|
    ensures var ks := SwapRemoved(keys, i);
      var index' := SwapRemovedIndex(keys, index, i);
      Indexed(ks, index') && Mapping(ks, SwapRemoved(payload, i), index') == Mapping(keys, payload, index) - {keys[i]}
  {}

  lemma IndexedDistinct<K(!new)>(keys: seq<K>, index: map<K, nat>)
    requires Indexed(keys, index)
    ensures Distinct(keys) && index.Keys == (set k | k in keys) && |index| == |keys|
  {
    DistinctCardinality(keys);
    assert index.Keys == set k | k in keys;
    assert |index| == |index.Keys|;
  }

  /** Checking one direction and the size is enough: there is no room for a stale key. */
  lemma IndexedBySize<K(!new)>(keys: seq<K>, index: map<K, nat>)
    requires forall i :: 0 <= i < |keys| ==> keys[i] in index && index[keys[i]] == i
    requires |index| == |keys|
    ensures Indexed(keys, index)
  {
    assert Distinct(keys);
    DistinctCardinality(keys);
    var present := set k | k in keys;
    assert |index| == |index.Keys|;
    SubsetCardinality(present, index.Keys);
    assert present == index.Keys;
  }
}
