/** The indexed min-heap of shared/priority_queue.go: two parallel sequences in heap order and a
    map from each value to its slot. Its meaning is a plain map from value to priority. */
module PriorityQueues {
  import opened Common
  import opened Heaps
  import opened Indexing
  import opened Listings
  import opened Sampling
  import opened Sorting

  predicate ByKey<V>(a: Entry<int, V>, b: Entry<int, V>) {
    a.key < b.key
  }

  lemma SortedByKeyAscends<V(!new)>(entries: seq<Entry<int, V>>)
    requires SortedBy(entries, ByKey)
    ensures Ascending(Keys(entries))
  {}

  class PriorityQueue<V(!new, ==)> {
    var priorities: seq<int>
    var values: seq<V>
    var indexMap: map<V, nat>

    /** The three fields describe one set of entries, whatever their order. */
    ghost predicate Consistent()
      reads this
    {
      |priorities| == |values| && Indexed(values, indexMap)
    }

    ghost predicate Valid()
      reads this
    {
      Consistent() && HeapOrdered(priorities)
    }

    /** The plain map the queue stands for. */
    ghost function Contents(): (m: map<V, int>)
      requires Consistent()
      reads this
      ensures m.Keys == indexMap.Keys && |m| == |priorities|
    {
      IndexedDistinct(values, indexMap);
      Mapping(values, priorities, indexMap)
    }

    lemma ValuesAreContents()
      requires Valid()
      ensures Distinct(values) && forall v :: v in values <==> v in Contents()
    {
      IndexedDistinct(values, indexMap);
      IndexedLists(values, priorities, indexMap);
    }

    constructor ()
      ensures Valid() && Contents() == map[] && priorities == []
    {
      priorities, values, indexMap := [], [], map[];
    }

    method Insert(priority: int, value: V) returns (added: bool, ghost swaps: nat)
      requires Valid()
      modifies this
      ensures Valid()
      ensures added == (value !in old(Contents()))
      ensures Contents() == old(Contents())[value := priority]
      ensures swaps < Height(|priorities|)
    {
      swaps := 0;
      if value in indexMap {
        var index := indexMap[value];
        var oldPriority := priorities[index];
        OverwriteUpdates(values, priorities, indexMap, value, priority);
        OverwriteRepair(priorities, index, priority);
        priorities := priorities[index := priority];
        if priority < oldPriority {
          swaps := HeapifyUp(index);
        } else if priority > oldPriority {
          swaps := HeapifyDown(index);
        }
        return false, swaps;
      }
      var index := |priorities|;
      AppendAdds(values, priorities, indexMap, value, priority);
      AppendLeavesHole(priorities, priority);
      priorities := priorities + [priority];
      values := values + [value];
      indexMap := indexMap[value := index];
      swaps := HeapifyUp(index);
      added := true;
    }

    method ExtractMin() returns (r: Option<Entry<int, V>>, ghost swaps: nat)
      requires Valid()
      modifies this
      ensures Valid()
      ensures r.None? <==> old(Contents()) == map[]
      ensures r.None? ==> Contents() == old(Contents())
      ensures r.Some? ==>
        && IsMinimal(old(Contents()), r.value.value)
        && r.value == old(Entry(priorities[0], values[0]))
        && r.value.key == old(Contents())[r.value.value]
        && Contents() == old(Contents()) - {r.value.value}
      ensures swaps == 0 || swaps < Height(|priorities|)
    {
      swaps := 0;
      if |priorities| == 0 {
        return None, 0;
      }
      var minPriority := priorities[0];
      var minValue := values[0];
      RootBelowAll(priorities);
      assert minValue in Contents();
      var lastIndex := |priorities| - 1;
      FillFromLast(0);
      if lastIndex == 0 {
        return Some(Entry(minPriority, minValue)), 0;
      }
      swaps := HeapifyDown(0);
      r := Some(Entry(minPriority, minValue));
    }

    /** The entry in slot `index` leaves, and the last one takes its place; the heap may be out of order
        around that slot then, and the order needs only the repair that fits the value there. */
    method FillFromLast(index: nat)
      requires Valid() && index < |priorities|
      modifies this
      ensures Consistent() && Contents() == old(Contents()) - {old(values[index])}
      ensures |priorities| == old(|priorities|) - 1
      ensures if index == |priorities| then HeapOrdered(priorities)
        else
          && OrderedExceptAt(priorities, index)
          && (if index > 0 && priorities[index] < priorities[Parent(index)] then ChildEdgesOk(priorities, index)
              else ParentEdgeOk(priorities, index))
    {
      hide Indexed, HeapOrdered, OrderedExceptAt, ChildEdgesOk, ParentEdgeOk;
      SwapRemoveDeletes(values, priorities, indexMap, index);
      SwapRemovedHole(priorities, index);
      var lastIndex := |priorities| - 1;
      var lastValue := values[lastIndex];
      indexMap := indexMap - {values[index]};
      if index != lastIndex {
        indexMap := indexMap[lastValue := index];
      }
      priorities := SwapRemoved(priorities, index);
      values := SwapRemoved(values, index);
    }

    method Remove(value: V) returns (removed: bool, ghost swaps: nat)
      requires Valid()
      modifies this
      ensures Valid()
      ensures removed == (value in old(Contents()))
      ensures Contents() == old(Contents()) - {value}
      ensures swaps == 0 || swaps < Height(|priorities|)
    {
      swaps := 0;
      if value !in indexMap {
        return false, 0;
      }
      var index := indexMap[value];
      var lastIndex := |priorities| - 1;
      FillFromLast(index);
      if index == lastIndex {
        return true, 0;
      }
      if index > 0 && priorities[index] < priorities[Parent(index)] {
        swaps := HeapifyUp(index);
      } else {
        swaps := HeapifyDown(index);
      }
      removed := true;
    }

    method Clear()
      modifies this
      ensures Valid() && Contents() == map[]
    {
      priorities, values, indexMap := [], [], map[];
    }

    method Peek() returns (r: Option<Entry<int, V>>)
      requires Valid()
      ensures r.None? <==> Contents() == map[]
      ensures r.Some? ==>
        && IsMinimal(Contents(), r.value.value)
        && r.value == Entry(priorities[0], values[0])
        && r.value.key == Contents()[r.value.value]
    {
      if |priorities| == 0 {
        return None;
      }
      RootBelowAll(priorities);
      assert values[0] in Contents();
      r := Some(Entry(priorities[0], values[0]));
    }

    method GetPriority(value: V) returns (r: Option<int>)
      requires Valid()
      ensures r == if value in Contents() then Some(Contents()[value]) else None
    {
      if value !in indexMap {
        return None;
      }
      r := Some(priorities[indexMap[value]]);
    }

    /** Removes the `m` smallest entries, or all of them; `ps` and `vs` name what went. */
    method ExtractMinBulk(m: int) returns (ghost ps: seq<int>, ghost vs: seq<V>)
      requires Valid()
      modifies this
      ensures Valid()
      ensures Drained(old(Contents()), Contents(), ps, vs)
      ensures |ps| == Min(Max(m, 0), |old(Contents())|)
    {
      ghost var before := Contents();
      ps, vs := [], [];
      NothingDrained(before);
      if m <= 0 {
        return;
      }
      for i := 0 to m
        invariant Valid() && Drained(before, Contents(), ps, vs)
        invariant |ps| == i && |Contents()| == |before| - i
      {
        ghost var now := Contents();
        var r, _ := ExtractMin();
        if r.None? {
          break;
        }
        DrainStep(before, now, ps, vs, r.value.value);
        ps, vs := ps + [r.value.key], vs + [r.value.value];
      }
    }

    /** Drains a copy: the entries in ascending order, this queue untouched. */
    method ToSortedSlices() returns (ps: seq<int>, vs: seq<V>)
      requires Valid()
      ensures Lists(Contents(), ps, vs) && Ascending(ps)
    {
      ghost var all := Contents();
      var temp := new PriorityQueue<V>();
      temp.priorities, temp.values, temp.indexMap := priorities, values, indexMap;
      ps, vs := [], [];
      NothingDrained(all);
      while |temp.priorities| > 0
        invariant fresh(temp) && temp.Valid()
        invariant Drained(all, temp.Contents(), ps, vs)
        decreases |temp.priorities|
      {
        ghost var now := temp.Contents();
        var r, _ := temp.ExtractMin();
        if r.Some? {
          DrainStep(all, now, ps, vs, r.value.value);
          ps := ps + [r.value.key];
          vs := vs + [r.value.value];
        }
      }
      assert all - temp.Contents().Keys == all;
    }

    /** The same listing through the library sort. */
    method GetSortedEntries() returns (entries: seq<Entry<int, V>>)
      requires Valid()
      ensures Lists(Contents(), Keys(entries), Values(entries)) && Ascending(Keys(entries))
    {
      var unsorted: seq<Entry<int, V>> := [];
      for i := 0 to |priorities|
        invariant |unsorted| == i
        invariant forall j :: 0 <= j < i ==> unsorted[j] == Entry(priorities[j], values[j])
      {
        unsorted := unsorted + [Entry(priorities[i], values[i])];
      }
      IndexedLists(values, priorities, indexMap);
      assert Keys(unsorted) == priorities && Values(unsorted) == values;
      entries := SortSlice(unsorted, ByKey);
      ListsPermute(Contents(), unsorted, entries);
      SortedByKeyAscends(entries);
    }

    /** `draws` are the successive random numbers; `None` means that they ran out. */
    method GetRandomSubset(n: int, draws: seq<nat>) returns (r: Option<seq<V>>)
      requires Valid()
      ensures r == Sample(values, n, draws)
      ensures r.Some? ==>
        && IsSelection(values, Min(Max(n, 0), |values|), r.value)
        && forall v :: v in r.value ==> v in Contents()
    {
      IndexedDistinct(values, indexMap);
      SampleSelects(values, n, draws);
      var size := |values|;
      if n <= 0 || size == 0 {
        return Some([]);
      }
      if n >= size {
        return Some(values);
      }
      if n <= size / 2 {
        r := RejectionBranch(n, draws);
      } else {
        r := ReservoirBranch(n, draws);
      }
    }

    method RejectionBranch(n: nat, draws: seq<nat>) returns (r: Option<seq<V>>)
      requires |values| > 0
      ensures r == Reject(values, n, draws, [])
    {
      var result: seq<V> := [];
      var used: nat := 0;
      assert draws[0..] == draws;
      while |result| < n
        invariant used <= |draws|
        invariant Reject(values, n, draws[used..], result) == Reject(values, n, draws, [])
        decreases |draws| - used
      {
        if used == |draws| {
          return None;
        }
        assert draws[used..][1..] == draws[used + 1..];
        var randIndex := draws[used] % |values|;
        used := used + 1;
        var duplicate := IsDuplicate(values[randIndex], result);
        if !duplicate {
          result := result + [values[randIndex]];
        }
      }
      r := Some(result);
    }

    static method IsDuplicate(value: V, result: seq<V>) returns (duplicate: bool)
      ensures duplicate <==> value in result
    {
      for j := 0 to |result|
        invariant value !in result[..j]
      {
        if value == result[j] {
          return true;
        }
      }
      assert result[..|result|] == result;
      duplicate := false;
    }

    method ReservoirBranch(n: nat, draws: seq<nat>) returns (r: Option<seq<V>>)
      requires n <= |values|
      ensures r == Reservoir(values, values[..n], n, draws)
    {
      var result := values[..n];
      var used: nat := 0;
      assert draws[0..] == draws;
      for i := n to |values|
        invariant |result| == n && used == i - n <= |draws|
        invariant Reservoir(values, result, i, draws[used..]) == Reservoir(values, values[..n], n, draws)
      {
        if used == |draws| {
          return None;
        }
        assert draws[used..][1..] == draws[used + 1..];
        var j := draws[used] % (i + 1);
        used := used + 1;
        if j < n {
          result := result[j := values[i]];
        }
      }
      r := Some(result);
    }

    /** Self-check: true exactly on a well-formed queue, whatever the fields hold. */
    method ValidateUnsafe() returns (ok: bool)
      ensures ok <==> Valid()
    {
      if |priorities| != |values| {
        return false;
      }
      if |indexMap| != |priorities| {
        if Consistent() {
          IndexedDistinct(values, indexMap);
        }
        return false;
      }
      for i := 0 to |values|
        invariant forall j :: 0 <= j < i ==> values[j] in indexMap && indexMap[values[j]] == j
      {
        if values[i] !in indexMap || indexMap[values[i]] != i {
          return false;
        }
      }
      IndexedBySize(values, indexMap);
      for i := 0 to |priorities|
        invariant forall c :: 0 < c < |priorities| && Parent(c) < i ==> priorities[Parent(c)] <= priorities[c]
      {
        var leftChild := 2 * i + 1;
        var rightChild := 2 * i + 2;
        assert Parent(leftChild) == i && Parent(rightChild) == i;
        if leftChild < |priorities| && priorities[leftChild] < priorities[i] {
          return false;
        }
        if rightChild < |priorities| && priorities[rightChild] < priorities[i] {
          return false;
        }
      }
      ok := true;
    }

    /** The height that the statistics report. */
    method HeapHeight() returns (height: nat)
      ensures height == Height(|priorities|)
      ensures |priorities| > 0 ==> height > 0 && Pow2(height - 1) <= |priorities| < Pow2(height)
    {
      height := 0;
      if |priorities| > 0 {
        var n := |priorities|;
        height := 1;
        while Pow2(height) <= n
          invariant height > 0 && Pow2(height - 1) <= n
          decreases n - height
        {
          height := height + 1;
        }
        HeightIsUnique(n, height);
      }
    }

    method HeapifyUp(start: nat) returns (ghost swaps: nat)
      requires Consistent() && start < |priorities|
      requires OrderedExceptAt(priorities, start) && ChildEdgesOk(priorities, start)
      modifies this
      ensures Valid() && Contents() == old(Contents()) && |priorities| == old(|priorities|)
      ensures swaps < Height(|priorities|)
    {
      var index: nat := start;
      swaps := 0;
      while index > 0
        invariant index < |priorities| == old(|priorities|)
        invariant Consistent() && Contents() == old(Contents())
        invariant OrderedExceptAt(priorities, index) && ChildEdgesOk(priorities, index)
        invariant swaps + Depth(index) == Depth(start)
      {
        SiftUpStep(priorities, index);
        var parentIndex := Parent(index);
        if priorities[index] >= priorities[parentIndex] {
          break;
        }
        Swap(index, parentIndex);
        index := parentIndex;
        swaps := swaps + 1;
      }
      SiftUpStep(priorities, index);
      DepthBelowHeight(start, |priorities|);
    }

    method HeapifyDown(start: nat) returns (ghost swaps: nat)
      requires Consistent() && start < |priorities|
      requires OrderedExceptAt(priorities, start) && ParentEdgeOk(priorities, start)
      modifies this
      ensures Valid() && Contents() == old(Contents()) && |priorities| == old(|priorities|)
      ensures swaps < Height(|priorities|)
    {
      var index: nat := start;
      swaps := 0;
      while true
        invariant index < |priorities| == old(|priorities|)
        invariant Consistent() && Contents() == old(Contents())
        invariant OrderedExceptAt(priorities, index) && ParentEdgeOk(priorities, index)
        invariant Depth(index) == Depth(start) + swaps
        decreases |priorities| - index
      {
        SiftDownStep(priorities, index);
        var smallest := SmallestAround(priorities, index);
        if smallest == index {
          break;
        }
        Swap(index, smallest);
        index := smallest;
        swaps := swaps + 1;
      }
      DepthBelowHeight(index, |priorities|);
    }

    method Swap(i: nat, j: nat)
      requires Consistent() && i < |priorities| && j < |priorities|
      modifies this
      ensures Consistent() && Contents() == old(Contents())
      ensures priorities == Exchanged(old(priorities), i, j)
      ensures values == Exchanged(old(values), i, j)
    {
      ExchangeKeeps(values, priorities, indexMap, i, j);
      priorities := Exchanged(priorities, i, j);
      values := Exchanged(values, i, j);
      indexMap := indexMap[values[i] := i];
      indexMap := indexMap[values[j] := j];
    }
  }
}
