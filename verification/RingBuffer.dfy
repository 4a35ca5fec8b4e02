/** The fixed-size latency buffer of benchmark/main.go. */
module RingBuffers {
  import opened Common

  /** Where the `i`-th oldest value of a ring buffer lies. */
  function Slot(head: nat, size: nat, capacity: nat, i: nat): (r: nat)
    requires head < capacity && i < size <= capacity
    ensures r < capacity && r == if head + i >= size then head + i - size else head + i - size + capacity
  {
    WrapAround(head - size + i, capacity);
    (head - size + i + capacity) % capacity
  }

  /** Adding the capacity before taking the remainder brings any index at most one turn off into range. */
  lemma WrapAround(x: int, n: int)
    requires -n <= x < n
    ensures (x + n) % n == if x >= 0 then x else x + n
  {}

  class RingBuffer {
    const data: array<int>
    var head: nat
    var size: nat
    const capacity: nat
    /** Everything that was ever added. */
    ghost var history: seq<int>

    ghost predicate Valid()
      reads this, data
    {
      && data.Length == capacity > 0 && head < capacity
      && size == Min(|history|, capacity)
      && forall i :: 0 <= i < size ==> data[Slot(head, size, capacity, i)] == history[|history| - size + i]
    }

    constructor (capacity: nat)
      requires capacity > 0
      ensures Valid() && fresh(data) && history == [] && this.capacity == capacity
    {
      data := new int[capacity];
      head, size, history := 0, 0, [];
      this.capacity := capacity;
    }

    method Add(value: int)
      requires Valid()
      modifies this, data
      ensures Valid() && history == old(history) + [value]
    {
      ghost var oldHead, oldSize := head, size;
      data[head] := value;
      head := (head + 1) % capacity;
      if size < capacity {
        size := size + 1;
      }
      history := history + [value];
      assert head == if oldHead + 1 == capacity then 0 else oldHead + 1 by {
        WrapAround(oldHead + 1 - capacity, capacity);
      }
      ghost var dropped := oldSize + 1 - size;
      forall i | 0 <= i < size
        ensures data[Slot(head, size, capacity, i)] == history[|history| - size + i]
      {
        if i + 1 < size {
          assert Slot(head, size, capacity, i) == Slot(oldHead, oldSize, capacity, i + dropped) != oldHead;
        } else {
          assert Slot(head, size, capacity, i) == oldHead;
        }
      }
    }

    /** The last `capacity` values added, or all of them, oldest first. */
    method GetAll() returns (result: seq<int>)
      requires Valid()
      ensures result == LastN(history, capacity)
    {
      result := [];
      if size == 0 {
        return;
      }
      for i := 0 to size
        invariant |result| == i
        invariant forall j :: 0 <= j < i ==> result[j] == history[|history| - size + j]
      {
        var idx := Slot(head, size, capacity, i);
        result := result + [data[idx]];
      }
    }
  }
}
