/** The gossip client of client/main.go: a membership manager, the queue of contacts to ask, and the
    counter from which that queue's priorities are drawn. */
module Clients {
  import opened ClientManagers
  import opened Common
  import Heaps
  import Indexing
  import opened Listings
  import opened Membership
  import opened PriorityQueues
  import opened QueryOrder
  import opened ReceivedContacts
  import Sampling

  /** What is sent along when `me` asks: an answer of the requested size, and `me` last. */
  ghost predicate IsPayload(v: View, size: int, me: Identity, payload: seq<Identity>) {
    && payload != [] && payload[|payload| - 1] == me
    && var subset := payload[..|payload| - 1];
      && (KeyedById(v.registry) ==> exists ids :: IsAnswer(v, size, subset, ids))
      && (v.queue.Keys <= v.registry.Keys ==> |subset| == Min(Max(size, 0), |v.queue|))
  }

  lemma AnswerIsPayload(v: View, size: int, me: Identity, answer: seq<Identity>)
    requires KeyedById(v.registry) ==> exists ids :: IsAnswer(v, size, answer, ids)
    requires v.queue.Keys <= v.registry.Keys ==> |answer| == Min(Max(size, 0), |v.queue|)
    ensures IsPayload(v, size, me, answer + [me])
  {
    assert (answer + [me])[..|answer + [me]| - 1] == answer;
  }

  class Client {
    const identity: Identity
    const manager: ClientManager
    const queryQueue: PriorityQueue<string>
    var sequenceCounter: int
    var connected: bool
    /** The ids in the query queue, longest waiting first. */
    ghost var waiting: seq<string>

    /** The query queue is a first-in first-out queue: its priorities are all different, none is
        above the counter, and they follow the order of arrival. */
    ghost predicate QueueInOrder()
      reads this, queryQueue
    {
      queryQueue.Valid() && InOrder(waiting, queryQueue.Contents(), sequenceCounter)
    }

    ghost predicate Valid()
      reads this, queryQueue, manager, manager.hashMap, manager.priorityQueue
    {
      QueueInOrder() && manager.Valid() && manager.priorityQueue != queryQueue
    }

    ghost function Now(): (n: Node)
      requires Valid()
      reads this, queryQueue, manager, manager.hashMap, manager.priorityQueue
    {
      Node(manager.Now(), waiting)
    }

    constructor (identity: Identity, manager: ClientManager)
      requires manager.Valid()
      ensures Valid() && Now() == Node(manager.Now(), []) && fresh(queryQueue)
      ensures this.identity == identity && this.manager == manager && !connected
    {
      hide Indexing.Indexed, Heaps.HeapOrdered;
      this.identity, this.manager := identity, manager;
      queryQueue := new PriorityQueue<string>();
      sequenceCounter, waiting, connected := 0, [], false;
    }

    /** The counter goes up and the id goes to the back, whether it waited already or not. */
    method Enqueue(id: string)
      requires QueueInOrder()
      modifies this`sequenceCounter, this`waiting, queryQueue
      ensures QueueInOrder()
      ensures waiting == Drop(old(waiting), id) + [id] && sequenceCounter == old(sequenceCounter) + 1
    {
      hide InOrder;
      ghost var m := queryQueue.Contents()[id := sequenceCounter + 1];
      BackInOrder(waiting, queryQueue.Contents(), sequenceCounter, id);
      sequenceCounter := sequenceCounter + 1;
      var _, _ := queryQueue.Insert(sequenceCounter, id);
      assert queryQueue.Contents() == m;
      waiting := Drop(waiting, id) + [id];
    }

    method OnAdded(id: string)
      requires QueueInOrder()
      modifies this`sequenceCounter, this`waiting, queryQueue
      ensures QueueInOrder()
      ensures waiting == if id in old(waiting) then old(waiting) else old(waiting) + [id]
      ensures sequenceCounter == old(sequenceCounter) + (if id in old(waiting) then 0 else 1)
    {
      hide InOrder, Indexing.Indexed, Heaps.HeapOrdered;
      OrderMembers(waiting, queryQueue.Contents(), sequenceCounter);
      var p := queryQueue.GetPriority(id);
      if p.None? {
        DropAbsent(waiting, id);
        Enqueue(id);
      }
    }

    method OnRemoved(id: string)
      requires QueueInOrder()
      modifies this`waiting, queryQueue
      ensures QueueInOrder()
      ensures waiting == Drop(old(waiting), id)
    {
      hide InOrder, Indexing.Indexed, Heaps.HeapOrdered;
      DropInOrder(waiting, queryQueue.Contents(), sequenceCounter, id);
      var _, _ := queryQueue.Remove(id);
      waiting := Drop(waiting, id);
    }

    /** The manager's callbacks, in the order in which it makes them. */
    method Notify(calls: seq<Call>)
      requires QueueInOrder()
      modifies this`sequenceCounter, this`waiting, queryQueue
      ensures QueueInOrder()
      ensures waiting == Notified(old(waiting), calls)
    {
      hide InOrder, Indexing.Indexed, Heaps.HeapOrdered;
      for i := 0 to |calls|
        invariant QueueInOrder()
        invariant waiting == Notified(old(waiting), calls[..i])
      {
        assert calls[..i + 1][..i] == calls[..i];
        match calls[i] {
          case Added(id, _) => OnAdded(id);
          case Removed(id, _) => OnRemoved(id);
        }
      }
      assert calls[..|calls|] == calls;
    }

    method AddClient(contact: Identity, now: int)
      requires Valid()
      modifies this`sequenceCounter, this`waiting, queryQueue, manager.hashMap, manager.priorityQueue
      ensures Valid() && Now() == Managed(old(Now()), AfterAdd(old(Now()).view, contact, now))
    {
      var calls := manager.AddClient(contact, now);
      Notify(calls);
    }

    method RemoveClient(id: string) returns (removed: bool)
      requires Valid()
      modifies this`sequenceCounter, this`waiting, queryQueue, manager.hashMap, manager.priorityQueue
      ensures Valid() && Now() == Managed(old(Now()), AfterRemove(old(Now()).view, id))
      ensures removed <==> id in old(Now()).view.registry || id in old(Now()).view.queue
    {
      hide InOrder, Indexing.Indexed, Heaps.HeapOrdered;
      var calls;
      ghost var before := Now();
      removed, calls := manager.RemoveClient(id);
      ghost var view := manager.Now();
      Notify(calls);
      assert manager.Now() == view;
      assert Now() == Managed(before, Outcome(view, calls));
    }

    /** A health check of the manager, with the client's callbacks. */
    method HealthCheck(id: string, started: int, pingOk: bool, answered: int)
      requires Valid()
      modifies this`sequenceCounter, this`waiting, queryQueue, manager.hashMap, manager.priorityQueue
      ensures Valid()
      ensures Now() == Managed(old(Now()),
        AfterHealthCheck(old(Now()).view, id, started, pingOk, answered, manager.maxAge, manager.minAge))
    {
      hide InOrder, AfterHealthCheck, Notified, Indexing.Indexed, Indexing.Mapping, Heaps.HeapOrdered;
      var calls := manager.HealthCheck(id, started, pingOk, answered);
      Notify(calls);
    }

    /** A cleanup pass of the manager, with the client's callbacks. */
    method Cleanup(now: int) returns (calls: seq<Call>)
      requires Valid()
      modifies this`sequenceCounter, this`waiting, queryQueue, manager.priorityQueue
      ensures Valid() && ReportsStale(old(manager.Now()).queue, calls, now - manager.maxAge)
      ensures manager.Now()
        == View(old(manager.Now()).registry, FreshEntries(old(manager.Now()).queue, now - manager.maxAge))
      ensures waiting == Notified(old(waiting), calls)
    {
      hide InOrder, ReportsStale, Drained, Report, FreshEntries, Notified, Swept;
      hide Indexing.Indexed, Indexing.Mapping, Heaps.HeapOrdered;
      ghost var ps, ids;
      calls, ps, ids := manager.Cleanup(now);
      Notify(calls);
    }

    method AddIfNew(contact: Identity, now: int) returns (isNew: bool)
      requires Valid()
      modifies this`sequenceCounter, this`waiting, queryQueue, manager.hashMap, manager.priorityQueue
      ensures Valid() && isNew == IsNews(old(Now()).view.registry, identity.containerID, contact)
      ensures Now() == if isNew then Managed(old(Now()), AfterAdd(old(Now()).view, contact, now)) else old(Now())
    {
      var known := manager.hashMap.Get(contact.containerID);
      isNew := known.None? && contact.containerID != identity.containerID;
      if isNew {
        AddClient(contact, now);
      }
    }

    method AddNewContacts(contacts: seq<Identity>, times: nat -> int) returns (newContactsCount: nat)
      requires Valid()
      modifies this`sequenceCounter, this`waiting, queryQueue, manager.hashMap, manager.priorityQueue
      ensures Valid() && Now() == WithContacts(old(Now()), identity.containerID, contacts, times)
      ensures newContactsCount == NewsCount(old(Now()), identity.containerID, contacts, times)
      ensures Received(old(Now()), identity.containerID, contacts, times, Now())
      ensures newContactsCount == |NewPlaces(old(Now()).view.registry, identity.containerID, contacts)|
    {
      hide InOrder, Indexing.Indexed, Heaps.HeapOrdered, Received, NewPlaces;
      newContactsCount := 0;
      ghost var before := Now();
      ContactsReceived(before, identity.containerID, contacts, times);
      NewsCountExact(before, identity.containerID, contacts, times);
      for i := 0 to |contacts|
        invariant Valid() && Now() == WithContacts(before, identity.containerID, contacts[..i], times)
        invariant newContactsCount == NewsCount(before, identity.containerID, contacts[..i], times)
      {
        ContactStep(before, identity.containerID, contacts, i, times);
        ghost var here := Now();
        var isNew := AddIfNew(contacts[i], times(i));
        assert Now() == if isNew then Managed(here, AfterAdd(here.view, contacts[i], times(i))) else here;
        if isNew {
          newContactsCount := newContactsCount + 1;
        }
      }
      assert contacts[..|contacts|] == contacts;
    }

    /** What a peer that asks us gets: its contacts are added first, then it is sent a random subset. */
    method HandleContacts(received: seq<Identity>, times: nat -> int, draws: seq<nat>)
      returns (reply: Option<seq<Identity>>)
      requires Valid()
      modifies this`sequenceCounter, this`waiting, queryQueue, manager.hashMap, manager.priorityQueue
      ensures Valid() && Now() == WithContacts(old(Now()), identity.containerID, received, times)
      ensures Received(old(Now()), identity.containerID, received, times, Now())
      ensures reply == Subset(Now().view.registry, manager.priorityQueue.values, manager.subsetSize, draws)
      ensures reply.Some? && KeyedById(Now().view.registry) ==>
        exists ids :: IsAnswer(Now().view, manager.subsetSize, reply.value, ids)
      ensures reply.Some? && Now().view.queue.Keys <= Now().view.registry.Keys ==>
        |reply.value| == Min(Max(manager.subsetSize, 0), |Now().view.queue|)
    {
      hide InOrder, Received, IsAnswer, Indexing.Indexed, Heaps.HeapOrdered;
      var _ := AddNewContacts(received, times);
      reply := manager.GetRandomSubset([], draws);
    }

    /** The longest-waiting id leaves the queue. */
    method TakeFirst() returns (first: Option<string>)
      requires QueueInOrder()
      modifies this`waiting, queryQueue
      ensures QueueInOrder()
      ensures first == if old(waiting) == [] then None else Some(old(waiting)[0])
      ensures waiting == if old(waiting) == [] then [] else old(waiting)[1..]
    {
      hide InOrder, Indexing.Indexed, Heaps.HeapOrdered;
      ghost var m := queryQueue.Contents();
      EmptyInOrder(waiting, m, sequenceCounter);
      var r, _ := queryQueue.ExtractMin();
      if r.None? {
        return None;
      }
      MinimalIsFirst(waiting, m, sequenceCounter, r.value.value);
      waiting := waiting[1..];
      first := Some(r.value.value);
    }

    /** The first half of asking the longest-waiting contact: whom to ask, and what to send along.
        `None` when nobody waits or that contact cannot be asked; it is out of the queue then. */
    method BeginExpand(draws: seq<nat>) returns (target: Option<Identity>, payload: seq<Identity>)
      requires Valid()
      modifies this`waiting, queryQueue
      ensures Valid() && Now() == Taken(old(Now()))
      ensures if old(waiting) == [] then target.None? else IsRequest(old(waiting)[0], draws, target, payload)
      ensures old(waiting) != [] ==> Reaches(old(waiting)[0], draws, target, payload)
      ensures target.Some? <==>
        CanAsk(old(Now())) && Sampling.Sample(manager.priorityQueue.values, manager.subsetSize, draws).Some?
    {
      hide InOrder, Indexing.Indexed, Heaps.HeapOrdered;
      payload := [];
      ghost var before := Now();
      var first := TakeFirst();
      assert manager.Now() == before.view;
      assert Now() == Taken(before);
      if first.None? {
        return None, [];
      }
      target, payload := PrepareRequest(first.value, draws);
    }

    /** What is sent to contact `id`: a random subset of what we know, and our own identity last. */
    ghost predicate IsRequest(id: string, draws: seq<nat>, target: Option<Identity>, payload: seq<Identity>)
      requires manager.Valid()
      reads this, manager, manager.hashMap, manager.priorityQueue
    {
      var registry := manager.Now().registry;
      var subset := Subset(registry, manager.priorityQueue.values, manager.subsetSize, draws);
      if id in registry && registry[id].hostname != "" && subset.Some? then
        target == Some(registry[id]) && payload == subset.value + [identity]
      else
        target == None
    }

    /** Contact `id` is asked exactly if it is registered with a host name and the draws suffice; what is sent
        is an answer of the requested size, and our own identity. */
    ghost predicate Reaches(id: string, draws: seq<nat>, target: Option<Identity>, payload: seq<Identity>)
      requires manager.Valid()
      reads this, manager, manager.hashMap, manager.priorityQueue
    {
      var v := manager.Now();
      && (target.Some? <==>
        && id in v.registry && v.registry[id].hostname != ""
        && Sampling.Sample(manager.priorityQueue.values, manager.subsetSize, draws).Some?)
      && (target.Some? ==>
        && target.value == v.registry[id]
        && IsPayload(v, manager.subsetSize, identity, payload))
    }

    method PrepareRequest(id: string, draws: seq<nat>) returns (target: Option<Identity>, payload: seq<Identity>)
      requires manager.Valid()
      ensures IsRequest(id, draws, target, payload) && Reaches(id, draws, target, payload)
    {
      hide IsAnswer, IsPayload, KeyedById, Indexing.Indexed, Indexing.Mapping, Heaps.HeapOrdered;
      payload := [];
      var client := manager.hashMap.Get(id);
      if client.None? || client.value.hostname == "" {
        return None, [];
      }
      var subset := manager.GetRandomSubset([], draws);
      if subset.None? {
        return None, [];
      }
      target := client;
      payload := subset.value + [identity];
      AnswerIsPayload(manager.Now(), manager.subsetSize, identity, subset.value);
    }

    /** The second half: `response` is what the contact `id` answered, if it did. */
    method EndExpand(id: string, response: Option<seq<Identity>>, times: nat -> int)
      requires Valid()
      modifies this`sequenceCounter, this`waiting, queryQueue, manager.hashMap, manager.priorityQueue
      ensures Valid()
      ensures Now() ==
        if response.None? then old(Now()) else Answered(old(Now()), identity.containerID, id, response.value, times)
      ensures response.Some? ==> exists w ::
        && Received(old(Now()), identity.containerID, response.value, times, Node(manager.Now(), w))
        && waiting == Drop(w, id) + [id]
    {
      hide InOrder, Received, Indexing.Indexed, Heaps.HeapOrdered;
      if response.None? {
        return;
      }
      var _ := AddNewContacts(response.value, times);
      ghost var after := Now();
      Enqueue(id);
      assert manager.Now() == after.view && after == Node(manager.Now(), after.waiting);
    }

    /** Announcing ourselves to the bootstrap server; `response` are the contacts that it sends, if all
        goes well. */
    method Connect(response: Option<seq<Identity>>, times: nat -> int)
      requires Valid()
      modifies this`connected, this`sequenceCounter, this`waiting, queryQueue, manager.hashMap, manager.priorityQueue
      ensures Valid() && connected == response.Some?
      ensures Now() ==
        if response.None? then old(Now()) else WithContacts(old(Now()), identity.containerID, response.value, times)
      ensures response.Some? ==> Received(old(Now()), identity.containerID, response.value, times, Now())
    {
      hide InOrder, Received, Indexing.Indexed, Heaps.HeapOrdered;
      if response.None? {
        connected := false;
        return;
      }
      var _ := AddNewContacts(response.value, times);
      ghost var after := Now();
      connected := true;
      assert manager.Now() == after.view;
    }

    /** Leaving; `answered` says whether the bootstrap server could be told. If so, everything is forgotten
        except the queue of contacts to ask; if not, or if we are not connected, nothing changes. */
    method Disconnect(answered: bool)
      requires Valid()
      modifies this`connected, manager.hashMap, manager.priorityQueue
      ensures Valid() && waiting == old(waiting) && connected == (old(connected) && !answered)
      ensures Now() == if old(connected) && answered then Node(View(map[], map[]), old(waiting)) else old(Now())
    {
      hide InOrder;
      ghost var before := Now();
      if !connected || !answered {
        return;
      }
      connected := false;
      manager.Clear();
    }

    /** The registered contacts among those that wait, each once. */
    method GetContactsFromQueue() returns (contacts: seq<Identity>)
      requires Valid()
      ensures contacts == Lookups(manager.Now().registry, queryQueue.values)
      ensures KeyedById(Now().view.registry) ==> IsWaitingAndKnown(contacts, waiting, Now().view.registry)
    {
      hide InOrder, IsWaitingAndKnown, Indexing.Indexed, Heaps.HeapOrdered;
      var ids := queryQueue.values;
      contacts := manager.LookUp(ids);
      queryQueue.ValuesAreContents();
      OrderMembers(waiting, queryQueue.Contents(), sequenceCounter);
      if KeyedById(manager.Now().registry) {
        WaitingLookups(waiting, ids, manager.Now().registry);
      }
    }
  }
}
