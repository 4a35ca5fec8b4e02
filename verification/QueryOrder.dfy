/** The order in which a client asks its contacts. The client stores it as priorities drawn from a
    counter; here it is the plain list of ids, longest waiting first, with what each operation of the
    client does to that list and to its membership manager. */
module QueryOrder {
  import opened Common
  import opened Listings
  import opened Membership

  ghost predicate Increasing(order: seq<string>, m: map<string, int>) {
    && (forall i :: 0 <= i < |order| ==> order[i] in m)
    && (forall i, j :: 0 <= i < j < |order| ==> m[order[i]] < m[order[j]])
  }

  /** `order` lists the ids of `m` from the smallest priority up, all priorities being different. */
  ghost predicate Represents(order: seq<string>, m: map<string, int>) {
    Increasing(order, m) && forall id :: id in m ==> id in order
  }

  ghost predicate AtMost(m: map<string, int>, counter: int) {
    forall id :: id in m ==> m[id] <= counter
  }

  /** The priorities of `m` were drawn from a counter that now stands at `counter`, and `order` is the
      order of arrival. */
  ghost predicate InOrder(order: seq<string>, m: map<string, int>, counter: int) {
    Represents(order, m) && AtMost(m, counter)
  }

  function Drop(order: seq<string>, id: string): (r: seq<string>)
    ensures |r| <= |order| && id !in r
    ensures forall x :: x in r <==> x in order && x != id
  {
    if order == [] then []
    else
      var n := |order| - 1;
      Drop(order[..n], id) + (if order[n] == id then [] else [order[n]])
  }

  lemma {:induction false} DropAbsent(order: seq<string>, id: string)
    requires id !in order
    ensures Drop(order, id) == order
  {
    if order != [] {
      DropAbsent(order[..|order| - 1], id);
      assert order == order[..|order| - 1] + [order[|order| - 1]];
    }
  }

  lemma {:induction false} DropIncreasing(order: seq<string>, m: map<string, int>, id: string)
    requires Increasing(order, m)
    ensures Increasing(Drop(order, id), m)
  {
    if order != [] {
      var n := |order| - 1;
      DropIncreasing(order[..n], m, id);
      var kept := Drop(order[..n], id);
      forall k | 0 <= k < |kept| ensures m[kept[k]] < m[order[n]] {
        assert kept[k] in order[..n];
        var i :| 0 <= i < n && order[i] == kept[k];
      }
    }
  }

  lemma DropRepresents(order: seq<string>, m: map<string, int>, id: string)
    requires Represents(order, m)
    ensures Represents(Drop(order, id), m - {id})
  {
    DropIncreasing(order, m, id);
    forall i | 0 <= i < |Drop(order, id)| ensures Drop(order, id)[i] in m - {id} {
      assert Drop(order, id)[i] in Drop(order, id);
    }
  }

  // What the client's operations on its queue do to the order of arrival.

  lemma OrderMembers(order: seq<string>, m: map<string, int>, counter: int)
    requires InOrder(order, m, counter)
    ensures Distinct(order) && forall id :: id in order <==> id in m
  {}

  lemma EmptyInOrder(order: seq<string>, m: map<string, int>, counter: int)
    requires InOrder(order, m, counter)
    ensures order == [] <==> m == map[]
  {
    if order != [] {
      assert order[0] in m;
    }
  }

  /** The counter's next value puts an id last, whether it is new or waits already. */
  lemma BackInOrder(order: seq<string>, m: map<string, int>, counter: int, id: string)
    requires InOrder(order, m, counter)
    ensures InOrder(Drop(order, id) + [id], m[id := counter + 1], counter + 1)
  {
    DropRepresents(order, m, id);
    var kept := Drop(order, id);
    forall i | 0 <= i < |kept| ensures kept[i] in m && kept[i] != id && m[kept[i]] <= counter {
      assert kept[i] in kept;
    }
  }

  lemma DropInOrder(order: seq<string>, m: map<string, int>, counter: int, id: string)
    requires InOrder(order, m, counter)
    ensures InOrder(Drop(order, id), m - {id}, counter)
  {
    DropRepresents(order, m, id);
  }

  /** The entry with the minimal priority is the one that waits longest. */
  lemma MinimalIsFirst(order: seq<string>, m: map<string, int>, counter: int, id: string)
    requires InOrder(order, m, counter) && IsMinimal(m, id)
    ensures order != [] && order[0] == id
    ensures InOrder(order[1..], m - {id}, counter)
  {}

  /** Looking up the waiting ids in any order finds the registered ones, each once. */
  lemma WaitingLookups(order: seq<string>, ids: seq<string>, registry: map<string, Identity>)
    requires Distinct(ids) && (forall id :: id in ids <==> id in order) && KeyedById(registry)
    ensures IsWaitingAndKnown(Lookups(registry, ids), order, registry)
  {
    LookupsSound(registry, ids);
  }

  ghost predicate IsWaitingAndKnown(contacts: seq<Identity>, order: seq<string>, registry: map<string, Identity>) {
    && DistinctIds(contacts)
    && forall x :: x in contacts <==>
      x.containerID in order && x.containerID in registry && registry[x.containerID] == x
  }

  // ----- The client as a value -----

  /** The manager's view, and the ids in the order in which they will be asked. */
  datatype Node = Node(view: View, waiting: seq<string>)

  /** The client's reaction to the manager's callbacks. */
  function Notified(waiting: seq<string>, calls: seq<Call>): (r: seq<string>) {
    if calls == [] then waiting
    else
      var n := |calls| - 1;
      var w := Notified(waiting, calls[..n]);
      match calls[n]
      case Added(id, _) => if id in w then w else w + [id]
      case Removed(id, _) => Drop(w, id)
  }

  function Managed(n: Node, o: Outcome): (r: Node) {
    Node(o.view, Notified(n.waiting, o.calls))
  }

  /** Adding what a peer or the bootstrap server sent: ids that are neither registered nor our own.
      `times(i)` is the clock when contact `i` is handled. */
  function WithContacts(n: Node, own: string, contacts: seq<Identity>, times: nat -> int): (r: Node) {
    if contacts == [] then n
    else
      var k := |contacts| - 1;
      var m := WithContacts(n, own, contacts[..k], times);
      if IsNews(m.view.registry, own, contacts[k]) then Managed(m, AfterAdd(m.view, contacts[k], times(k))) else m
  }

  predicate IsNews(registry: map<string, Identity>, own: string, contact: Identity) {
    contact.containerID !in registry && contact.containerID != own
  }

  /** How many contacts were counted as new. */
  function NewsCount(n: Node, own: string, contacts: seq<Identity>, times: nat -> int): (r: nat) {
    if contacts == [] then 0
    else
      var k := |contacts| - 1;
      var m := WithContacts(n, own, contacts[..k], times);
      NewsCount(n, own, contacts[..k], times) + (if IsNews(m.view.registry, own, contacts[k]) then 1 else 0)
  }

  lemma ContactStep(n: Node, own: string, contacts: seq<Identity>, k: nat, times: nat -> int)
    requires k < |contacts|
    ensures var m := WithContacts(n, own, contacts[..k], times);
      && WithContacts(n, own, contacts[..k + 1], times)
        == (if IsNews(m.view.registry, own, contacts[k]) then Managed(m, AfterAdd(m.view, contacts[k], times(k)))
            else m)
      && NewsCount(n, own, contacts[..k + 1], times)
        == NewsCount(n, own, contacts[..k], times) + (if IsNews(m.view.registry, own, contacts[k]) then 1 else 0)
  {
    assert contacts[..k + 1][..k] == contacts[..k];
  }

  /** Taking the longest-waiting id out, to ask it. */
  function Taken(n: Node): (r: Node) {
    if n.waiting == [] then n else n.(waiting := n.waiting[1..])
  }

  /** Whether that id can be asked at all. */
  predicate CanAsk(n: Node) {
    && n.waiting != [] && n.waiting[0] in n.view.registry
    && n.view.registry[n.waiting[0]].hostname != ""
  }

  /** The answer of a peer that was asked: its contacts are added, and it queues up again. */
  function Answered(n: Node, own: string, id: string, received: seq<Identity>, times: nat -> int): (r: Node) {
    var m := WithContacts(n, own, received, times);
    m.(waiting := Drop(m.waiting, id) + [id])
  }
}
