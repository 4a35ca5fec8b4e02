/** The membership manager of shared/client_manager.go, over the hash map and the priority queue.
    Each method runs without interference; module Interleaving lifts that restriction. */
module ClientManagers {
  import opened Common
  import opened HashMaps
  import Heaps
  import Indexing
  import opened Listings
  import opened Membership
  import opened PriorityQueues

  class ClientManager {
    const hashMap: HashMap<string, Identity>
    const priorityQueue: PriorityQueue<string>
    var maxAge: int
    var minAge: int
    var subsetSize: int

    ghost predicate Valid()
      reads this, hashMap, priorityQueue
    {
      hashMap.Valid() && priorityQueue.Valid()
    }

    ghost function Now(): (v: View)
      requires Valid()
      reads this, hashMap, priorityQueue
    {
      View(hashMap.Contents(), priorityQueue.Contents())
    }

    /** A restarted manager: the registry comes from the snapshot file if that loads, and the
        liveness queue starts empty. */
    constructor (maxAge: int, minAge: int, subsetSize: int, file: Option<Snapshot<string, Identity>>)
      ensures fresh(hashMap) && fresh(priorityQueue)
      ensures Valid() <==> (file.Some? ==> Distinct(Keys(file.value.entries)))
      ensures Valid() ==> Now().queue == map[]
      ensures file.None? ==> Now().registry == map[]
      ensures file.Some? ==> hashMap.keys == Keys(file.value.entries) && hashMap.values == Values(file.value.entries)
      ensures hashMap.currentVersion == if file.Some? then file.value.version else 0
      ensures this.maxAge == maxAge && this.minAge == minAge && this.subsetSize == subsetSize
    {
      var h := new HashMap<string, Identity>();
      var loaded := h.LoadFromDisk(file);
      hashMap := h;
      priorityQueue := new PriorityQueue<string>();
      this.maxAge, this.minAge, this.subsetSize := maxAge, minAge, subsetSize;
    }

    method AddClient(identity: Identity, now: int) returns (calls: seq<Call>)
      requires Valid()
      modifies hashMap, priorityQueue
      ensures Valid()
      ensures Outcome(Now(), calls) == AfterAdd(old(Now()), identity, now)
      ensures identity.containerID == "" || identity.name == "" ==> Now() == old(Now()) && calls == []
      ensures identity.containerID != "" && identity.name != "" ==>
        && Now().registry == old(Now()).registry[identity.containerID := identity]
        && Now().queue == old(Now()).queue[identity.containerID := now]
        && calls == [Added(identity.containerID, now)]
    {
      if identity.containerID == "" || identity.name == "" {
        return [];
      }
      var _ := hashMap.Put(identity.containerID, identity);
      var _, _ := priorityQueue.Insert(now, identity.containerID);
      calls := [Added(identity.containerID, now)];
    }

    method RemoveClient(id: string) returns (removed: bool, calls: seq<Call>)
      requires Valid()
      modifies hashMap, priorityQueue
      ensures Valid()
      ensures Outcome(Now(), calls) == AfterRemove(old(Now()), id)
      ensures Now() == View(old(Now()).registry - {id}, old(Now()).queue - {id})
      ensures calls == if id in old(Now()).queue then [Removed(id, old(Now()).queue[id])] else []
      ensures removed <==> id in old(Now()).registry || id in old(Now()).queue
    {
      removed, calls := false, [];
      var existed := hashMap.Remove(id);
      if existed.Some? {
        removed := true;
      }
      var p := priorityQueue.GetPriority(id);
      var priority := if p.Some? then p.value else 0;
      var wasQueued, _ := priorityQueue.Remove(id);
      if wasQueued {
        removed := true;
        calls := [Removed(id, priority)];
      }
    }

    /** No callback tells anyone about this. */
    method Clear()
      requires Valid()
      modifies hashMap, priorityQueue
      ensures Valid() && Now() == View(map[], map[])
    {
      hashMap.Clear();
      priorityQueue.Clear();
    }

    method GetRandomSubset(sizes: seq<int>, draws: seq<nat>) returns (r: Option<seq<Identity>>)
      requires Valid()
      ensures var size := if |sizes| > 0 && sizes[0] > 0 then sizes[0] else subsetSize;
        r == Subset(Now().registry, priorityQueue.values, size, draws) && (r.Some? ==> |r.value| <= Max(size, 0))
      ensures var size := if |sizes| > 0 && sizes[0] > 0 then sizes[0] else subsetSize;
        && (r.Some? && KeyedById(Now().registry) ==> exists ids :: IsAnswer(Now(), size, r.value, ids))
        && (r.Some? && Now().queue.Keys <= Now().registry.Keys ==> |r.value| == Min(Max(size, 0), |Now().queue|))
    {
      hide Indexing.Indexed, Heaps.HeapOrdered, KeyedById, IsAnswer;
      var size := subsetSize;
      if |sizes| > 0 && sizes[0] > 0 {
        size := sizes[0];
      }
      var ids := priorityQueue.GetRandomSubset(size, draws);
      if ids.None? {
        return None;
      }
      var identities := LookUp(ids.value);
      priorityQueue.ValuesAreContents();
      LookupsAnswer(Now(), size, ids.value);
      r := Some(identities);
    }

    /** The identities of the ids that are registered, in order. */
    method LookUp(ids: seq<string>) returns (identities: seq<Identity>)
      requires hashMap.Valid()
      ensures identities == Lookups(hashMap.Contents(), ids)
    {
      identities := [];
      for i := 0 to |ids|
        invariant identities == Lookups(hashMap.Contents(), ids[..i])
      {
        assert ids[..i + 1][..i] == ids[..i];
        var client := hashMap.Get(ids[i]);
        if client.Some? {
          identities := identities + [client.value];
        }
      }
      assert ids[..|ids|] == ids;
    }

    /** One health check of a picked id: the clock reads `started`, the ping's answer is `pingOk`,
        and by then the clock reads `answered`. */
    method HealthCheck(id: string, started: int, pingOk: bool, answered: int) returns (calls: seq<Call>)
      requires Valid()
      modifies hashMap, priorityQueue
      ensures Valid()
      ensures Outcome(Now(), calls) == AfterHealthCheck(old(Now()), id, started, pingOk, answered, maxAge, minAge)
      ensures var v := old(Now());
        var tooOld := id in v.queue && started - v.queue[id] > maxAge;
        var tooNew := id in v.queue && !tooOld && started - v.queue[id] < minAge;
        var alive := id in v.registry && v.registry[id].hostname != "" && pingOk;
        && (tooOld ==> Now() == View(v.registry, v.queue - {id}) && calls == [Removed(id, v.queue[id])])
        && (tooNew ==> Now() == v && calls == [])
        && (!tooOld && !tooNew && alive ==>
          Now() == View(v.registry, v.queue[id := answered]) && calls == [Added(id, answered)])
        && (!tooOld && !tooNew && !alive ==>
          && Now() == View(v.registry - {id}, v.queue - {id})
          && calls == if id in v.queue then [Removed(id, v.queue[id])] else [])
    {
      hide Indexing.Indexed, Indexing.Mapping, Heaps.HeapOrdered;
      HealthCheckMeans(Now(), id, started, pingOk, answered, maxAge, minAge);
      calls := [];
      var p := priorityQueue.GetPriority(id);
      if p.Some? {
        var age := started - p.value;
        if age > maxAge {
          var removed, _ := priorityQueue.Remove(id);
          if removed {
            calls := [Removed(id, p.value)];
          }
          return;
        }
        if age < minAge {
          return;
        }
      }
      calls := Probe(id, pingOk, answered);
    }

    /** The part of a health check that asks the client: refresh it or drop it everywhere. */
    method Probe(id: string, pingOk: bool, answered: int) returns (calls: seq<Call>)
      requires Valid()
      modifies hashMap, priorityQueue
      ensures Valid()
      ensures Outcome(Now(), calls) == AfterProbe(old(Now()), id, pingOk, answered)
    {
      calls := [];
      var alive := CheckAlive(id, pingOk);
      if alive {
        var _, _ := priorityQueue.Insert(answered, id);
        calls := [Added(id, answered)];
      } else {
        var p := priorityQueue.GetPriority(id);
        var priority := if p.Some? then p.value else 0;
        var removed, _ := priorityQueue.Remove(id);
        if removed {
          calls := [Removed(id, priority)];
        }
        var _ := hashMap.Remove(id);
      }
    }

    method CheckAlive(id: string, pingOk: bool) returns (alive: bool)
      requires Valid()
      ensures alive == IsAlive(Now(), id, pingOk)
      ensures alive <==> id in Now().registry && Now().registry[id].hostname != "" && pingOk
    {
      var client := hashMap.Get(id);
      if client.None? {
        return false;
      }
      if client.value.hostname == "" {
        return false;
      }
      alive := pingOk;
    }

    /** One cleanup pass: stale entries leave smallest priority first, one callback each. */
    method Cleanup(now: int) returns (calls: seq<Call>, ghost ps: seq<int>, ghost ids: seq<string>)
      requires Valid()
      modifies priorityQueue
      ensures Valid()
      ensures Now() == View(old(Now()).registry, FreshEntries(old(Now()).queue, now - maxAge))
      ensures Drained(old(Now()).queue, Now().queue, ps, ids)
      ensures Report(calls, ids, ps) && ReportsStale(old(Now()).queue, calls, now - maxAge)
      ensures Swept(old(Now()).queue, Now().queue, now - maxAge, calls)
    {
      hide Indexing.Indexed, Indexing.Mapping, Heaps.HeapOrdered;
      hide ReportsStale, FreshEntries, Drained, Report, Swept;
      calls, ps, ids := DrainStale(priorityQueue, now - maxAge);
    }
  }

  /** The callbacks that report the listing `ids` with priorities `ps`. */
  ghost predicate Report(calls: seq<Call>, ids: seq<string>, ps: seq<int>) {
    |calls| == |ids| == |ps| && forall i :: 0 <= i < |calls| ==> calls[i] == Removed(ids[i], ps[i])
  }

  /** A cleanup pass under way: what left `m` so far, smallest first, is reported and was stale. */
  ghost predicate Sweeping(m: map<string, int>, now: map<string, int>, cutoff: int, calls: seq<Call>,
        ps: seq<int>, ids: seq<string>)
  {
    && Drained(m, now, ps, ids)
    && Report(calls, ids, ps)
    && forall i :: 0 <= i < |ps| ==> ps[i] < cutoff
  }

  lemma SweepStep(m: map<string, int>, now: map<string, int>, cutoff: int, calls: seq<Call>,
        ps: seq<int>, ids: seq<string>, id: string)
    requires Sweeping(m, now, cutoff, calls, ps, ids) && IsMinimal(now, id) && now[id] < cutoff
    ensures Sweeping(m, now - {id}, cutoff, calls + [Removed(id, now[id])], ps + [now[id]], ids + [id])
  {}

  lemma SweepEnd(m: map<string, int>, now: map<string, int>, cutoff: int, calls: seq<Call>,
        ps: seq<int>, ids: seq<string>)
    requires Sweeping(m, now, cutoff, calls, ps, ids)
    requires forall id :: id in now ==> now[id] >= cutoff
    ensures now == FreshEntries(m, cutoff)
  {
    forall id | id in m && id !in now ensures m[id] < cutoff {
      assert id in m - now.Keys;
      var i :| 0 <= i < |ids| && ids[i] == id;
      assert ps[i] == m[id];
    }
  }

  /** The callbacks of a cleanup pass report exactly what was stale. */
  lemma ReportOfStale(m: map<string, int>, now: map<string, int>, calls: seq<Call>,
        ps: seq<int>, ids: seq<string>, cutoff: int)
    requires Drained(m, now, ps, ids) && Report(calls, ids, ps) && now == FreshEntries(m, cutoff)
    ensures ReportsStale(m, calls, cutoff)
  {
    forall id | id in m && m[id] < cutoff ensures Mentions(calls, id) {
      assert id in m - now.Keys;
      var i :| 0 <= i < |ids| && ids[i] == id;
      assert calls[i].id == id;
    }
  }

  /** Entry by entry and call by call: exactly the entries from the cutoff on remain, and each other one is
      reported once, the smallest priority first. */
  ghost predicate Swept(m: map<string, int>, now: map<string, int>, cutoff: int, calls: seq<Call>) {
    && now == (map id | id in m && m[id] >= cutoff :: m[id])
    && (forall i :: 0 <= i < |calls| ==>
      calls[i].Removed? && calls[i].id in m && m[calls[i].id] == calls[i].priority < cutoff)
    && (forall i, j :: 0 <= i < j < |calls| ==>
      calls[i].priority <= calls[j].priority && calls[i].id != calls[j].id)
    && (forall id :: id in m && m[id] < cutoff ==> exists i :: 0 <= i < |calls| && calls[i].id == id)
  }

  lemma SweptMeans(m: map<string, int>, now: map<string, int>, cutoff: int, calls: seq<Call>,
        ps: seq<int>, ids: seq<string>)
    requires now == FreshEntries(m, cutoff) && Drained(m, now, ps, ids) && Report(calls, ids, ps)
    requires ReportsStale(m, calls, cutoff)
    ensures Swept(m, now, cutoff, calls)
  {
    forall i | 0 <= i < |calls|
      ensures calls[i].Removed? && calls[i].id in m && m[calls[i].id] == calls[i].priority < cutoff
    {
      assert ids[i] in m - now.Keys;
    }
    forall id | id in m && m[id] < cutoff ensures exists i :: 0 <= i < |calls| && calls[i].id == id {
      assert Mentions(calls, id);
    }
  }

  /** The loop of the cleanup worker. */
  method DrainStale(queue: PriorityQueue<string>, cutoff: int)
    returns (calls: seq<Call>, ghost ps: seq<int>, ghost ids: seq<string>)
    requires queue.Valid()
    modifies queue
    ensures queue.Valid() && queue.Contents() == FreshEntries(old(queue.Contents()), cutoff)
    ensures Drained(old(queue.Contents()), queue.Contents(), ps, ids) && Report(calls, ids, ps)
    ensures ReportsStale(old(queue.Contents()), calls, cutoff)
    ensures Swept(old(queue.Contents()), queue.Contents(), cutoff, calls)
  {
    hide Swept;
    hide Indexing.Indexed, Heaps.HeapOrdered, ReportsStale, FreshEntries;
    ghost var before := queue.Contents();
    calls, ps, ids := [], [], [];
    NothingDrained(before);
    var peeked := queue.Peek();
    while peeked.Some? && peeked.value.key < cutoff
      invariant queue.Valid() && Sweeping(before, queue.Contents(), cutoff, calls, ps, ids)
      invariant peeked.None? ==> queue.Contents() == map[]
      invariant peeked.Some? ==> IsMinimal(queue.Contents(), peeked.value.value)
      invariant peeked.Some? ==> queue.Contents()[peeked.value.value] == peeked.value.key
      decreases |queue.Contents()|
    {
      ghost var current := queue.Contents();
      var extracted, _ := queue.ExtractMin();
      if extracted.Some? {
        SweepStep(before, current, cutoff, calls, ps, ids, extracted.value.value);
        calls := calls + [Removed(extracted.value.value, extracted.value.key)];
        ps, ids := ps + [extracted.value.key], ids + [extracted.value.value];
      }
      peeked := queue.Peek();
    }
    SweepEnd(before, queue.Contents(), cutoff, calls, ps, ids);
    ReportOfStale(before, queue.Contents(), calls, ps, ids, cutoff);
    SweptMeans(before, queue.Contents(), cutoff, calls, ps, ids);
  }
}
