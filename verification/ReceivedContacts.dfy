/** What a client does with a list of contacts, contact by contact: whom it registers, with which
    identity and time, who starts to wait, and which contacts it counts as new. */
module ReceivedContacts {
  import opened Common
  import opened Membership
  import opened QueryOrder

  /** Contact `i` has this id and a name, and is the first such. */
  ghost predicate FirstNamed(contacts: seq<Identity>, id: string, i: nat) {
    && i < |contacts| && id != "" && contacts[i].containerID == id && contacts[i].name != ""
    && forall j :: 0 <= j < i ==> !(contacts[j].containerID == id && contacts[j].name != "")
  }

  /** The client does not know the id yet, and it is not its own. */
  ghost predicate Unknown(registry: map<string, Identity>, own: string, id: string) {
    id !in registry && id != own
  }

  lemma FirstNamedInPrefix(contacts: seq<Identity>, id: string)
    requires contacts != []
    ensures var k := |contacts| - 1;
      forall i: nat :: i < k ==> (FirstNamed(contacts[..k], id, i) <==> FirstNamed(contacts, id, i))
  {
    var k := |contacts| - 1;
    assert forall j :: 0 <= j < k ==> contacts[..k][j] == contacts[j];
  }

  lemma {:induction false} FindFirst(contacts: seq<Identity>, id: string, j: nat) returns (i: nat)
    requires j < |contacts| && id != "" && contacts[j].containerID == id && contacts[j].name != ""
    ensures i <= j && FirstNamed(contacts, id, i)
  {
    if k: nat :| k < j && contacts[k].containerID == id && contacts[k].name != "" {
      i := FindFirst(contacts, id, k);
    } else {
      i := j;
    }
  }

  /** One more contact changes only what concerns its own id, and only if it is the first for it. */
  lemma LastContactExact(n: Node, own: string, contacts: seq<Identity>, times: nat -> int, id: string)
    requires contacts != []
    ensures var k := |contacts| - 1;
      var before, after := WithContacts(n, own, contacts[..k], times).view, WithContacts(n, own, contacts, times).view;
      if contacts[k].containerID == id && id != "" && contacts[k].name != "" && Unknown(before.registry, own, id) then
        after == View(before.registry[id := contacts[k]], before.queue[id := times(k)])
      else
        && (id in after.registry <==> id in before.registry)
        && (id in after.registry ==> after.registry[id] == before.registry[id])
        && (id in after.queue <==> id in before.queue)
        && (id in after.queue ==> after.queue[id] == before.queue[id])
  {}

  /** Someone unknown is registered as the first contact with that id and a name, and queued with the time
      when its turn came. Whoever is known already, is ourselves, or is in no such contact, stays as before. */
  lemma {:induction false} ContactsExact(n: Node, own: string, contacts: seq<Identity>, times: nat -> int, id: string)
    ensures var v, v' := n.view, WithContacts(n, own, contacts, times).view;
      forall i: nat :: FirstNamed(contacts, id, i) && Unknown(v.registry, own, id) ==>
        id in v'.registry && v'.registry[id] == contacts[i] && id in v'.queue && v'.queue[id] == times(i)
    ensures var v, v' := n.view, WithContacts(n, own, contacts, times).view;
      !Unknown(v.registry, own, id) || (forall i: nat :: !FirstNamed(contacts, id, i)) ==>
        && (id in v'.registry <==> id in v.registry)
        && (id in v.registry ==> v'.registry[id] == v.registry[id])
        && (id in v'.queue <==> id in v.queue)
        && (id in v.queue ==> v'.queue[id] == v.queue[id])
  {
    if contacts != [] {
      var k := |contacts| - 1;
      ContactsExact(n, own, contacts[..k], times, id);
      FirstNamedInPrefix(contacts, id);
      LastContactExact(n, own, contacts, times, id);
      if i: nat :| FirstNamed(contacts[..k], id, i) {
        assert FirstNamed(contacts, id, i);
      } else if contacts[k].containerID == id && id != "" && contacts[k].name != "" {
        var i := FindFirst(contacts, id, k);
        assert i == k;
      }
    }
  }

  lemma LastContactWaits(n: Node, own: string, contacts: seq<Identity>, times: nat -> int)
    requires contacts != []
    ensures var k := |contacts| - 1;
      var m, x := WithContacts(n, own, contacts[..k], times), contacts[|contacts| - 1];
      WithContacts(n, own, contacts, times).waiting ==
        if x.containerID != "" && x.name != "" && Unknown(m.view.registry, own, x.containerID)
          && x.containerID !in m.waiting then m.waiting + [x.containerID]
        else m.waiting
  {
    var k := |contacts| - 1;
    var m := WithContacts(n, own, contacts[..k], times);
    var calls := AfterAdd(m.view, contacts[k], times(k)).calls;
    assert calls != [] ==> calls[..0] == [] && Notified(m.waiting, []) == m.waiting;
  }

  /** Contact `i` makes its id wait: it has an id and a name, the id was unknown and did not wait, and no
      contact before it names it. */
  ghost predicate Starts(n: Node, own: string, contacts: seq<Identity>, i: nat) {
    && i < |contacts| && FirstNamed(contacts, contacts[i].containerID, i)
    && Unknown(n.view.registry, own, contacts[i].containerID) && contacts[i].containerID !in n.waiting
  }

  lemma StartsInPrefix(n: Node, own: string, contacts: seq<Identity>)
    requires contacts != []
    ensures var k := |contacts| - 1;
      forall i: nat :: i < k ==> (Starts(n, own, contacts[..k], i) <==> Starts(n, own, contacts, i))
  {
    var k := |contacts| - 1;
    assert forall j :: 0 <= j < k ==> contacts[..k][j] == contacts[j];
  }

  function IdsAt(contacts: seq<Identity>, places: seq<nat>): (ids: seq<string>) {
    seq(|places|, a requires 0 <= a < |places| =>
      if places[a] < |contacts| then contacts[places[a]].containerID else "")
  }

  /** The places of the contacts that make someone wait, in order. */
  ghost predicate ListsStarts(n: Node, own: string, contacts: seq<Identity>, starts: seq<nat>) {
    && (forall a :: 0 <= a < |starts| ==> Starts(n, own, contacts, starts[a]))
    && (forall i: nat :: Starts(n, own, contacts, i) ==> i in starts)
    && (forall a, b :: 0 <= a < b < |starts| ==> starts[a] < starts[b])
  }

  /** The last contact makes its id wait in the client as it is then, exactly if it does so from the start. */
  lemma LastStarts(n: Node, own: string, contacts: seq<Identity>, times: nat -> int, starts: seq<nat>)
    requires contacts != [] && ListsStarts(n, own, contacts[..|contacts| - 1], starts)
    requires WithContacts(n, own, contacts[..|contacts| - 1], times).waiting
      == n.waiting + IdsAt(contacts[..|contacts| - 1], starts)
    ensures var k := |contacts| - 1;
      var m, x := WithContacts(n, own, contacts[..k], times), contacts[k];
      Starts(n, own, contacts, k) <==>
        && x.containerID != "" && x.name != ""
        && Unknown(m.view.registry, own, x.containerID) && x.containerID !in m.waiting
  {
    var k := |contacts| - 1;
    var m, x := WithContacts(n, own, contacts[..k], times), contacts[k];
    var ids := IdsAt(contacts[..k], starts);
    ContactsExact(n, own, contacts[..k], times, x.containerID);
    FirstNamedInPrefix(contacts, x.containerID);
    if Starts(n, own, contacts, k) {
      forall a | 0 <= a < |ids| ensures ids[a] != x.containerID {
        assert Starts(n, own, contacts[..k], starts[a]) && ids[a] == contacts[starts[a]].containerID;
      }
    } else if x.containerID != "" && x.name != "" && Unknown(n.view.registry, own, x.containerID)
      && x.containerID !in n.waiting {
      var i := FindFirst(contacts, x.containerID, k);
      assert i < k && FirstNamed(contacts[..k], x.containerID, i);
    }
  }

  /** Those who waited keep their places; exactly the others who are unknown follow, in the order of the first
      contacts that name them. */
  lemma {:induction false} WaitingExact(n: Node, own: string, contacts: seq<Identity>, times: nat -> int)
    returns (starts: seq<nat>)
    ensures ListsStarts(n, own, contacts, starts)
    ensures WithContacts(n, own, contacts, times).waiting == n.waiting + IdsAt(contacts, starts)
  {
    hide Starts, ListsStarts, IdsAt, FirstNamed, Unknown, Notified, WithContacts;
    starts := [];
    if contacts == [] {
      NothingStarts(n, own, times);
    } else {
      var k := |contacts| - 1;
      starts := WaitingExact(n, own, contacts[..k], times);
      LastStarts(n, own, contacts, times, starts);
      LastContactWaits(n, own, contacts, times);
      StartsGrow(n, own, contacts, starts);
      OneOrNone(n.waiting, IdsAt(contacts[..k], starts), contacts[k].containerID);
      if Starts(n, own, contacts, k) {
        starts := starts + [k];
      }
    }
  }

  lemma OneOrNone(w: seq<string>, ids: seq<string>, id: string)
    ensures w + ids + [id] == w + (ids + [id]) && w + ids == w + (ids + [])
  {}

  lemma NothingStarts(n: Node, own: string, times: nat -> int)
    ensures ListsStarts(n, own, [], []) && WithContacts(n, own, [], times).waiting == n.waiting + IdsAt([], [])
  {}

  lemma StartsGrow(n: Node, own: string, contacts: seq<Identity>, starts: seq<nat>)
    requires contacts != [] && ListsStarts(n, own, contacts[..|contacts| - 1], starts)
    ensures var k := |contacts| - 1;
      var starts' := if Starts(n, own, contacts, k) then starts + [k] else starts;
      && ListsStarts(n, own, contacts, starts')
      && IdsAt(contacts, starts') == IdsAt(contacts[..k], starts)
        + (if Starts(n, own, contacts, k) then [contacts[k].containerID] else [])
  {
    var k := |contacts| - 1;
    StartsInPrefix(n, own, contacts);
    if Starts(n, own, contacts, k) {
      OneMoreStarts(n, own, contacts, starts);
      IdsGrow(contacts, starts);
    } else {
      NoMoreStart(n, own, contacts, starts);
      assert IdsAt(contacts, starts) == IdsAt(contacts[..k], starts);
    }
  }

  lemma OneMoreStarts(n: Node, own: string, contacts: seq<Identity>, starts: seq<nat>)
    requires contacts != [] && ListsStarts(n, own, contacts[..|contacts| - 1], starts)
    requires Starts(n, own, contacts, |contacts| - 1)
    ensures ListsStarts(n, own, contacts, starts + [|contacts| - 1])
  {
    hide Starts;
    var k := |contacts| - 1;
    var all := starts + [k];
    StartsInPrefix(n, own, contacts);
    StartsInRange(n, own, contacts);
    StartsInRange(n, own, contacts[..k]);
    forall a | 0 <= a < |all| ensures Starts(n, own, contacts, all[a]) {
      if a < |starts| {
        assert Starts(n, own, contacts[..k], starts[a]);
      }
    }
    forall i: nat | Starts(n, own, contacts, i) ensures i in all {
      if i == k {
        assert all[|starts|] == k;
      } else {
        assert Starts(n, own, contacts[..k], i);
        var a :| 0 <= a < |starts| && starts[a] == i;
        assert all[a] == i;
      }
    }
    forall a, b | 0 <= a < b < |all| ensures all[a] < all[b] {
      if b == |starts| {
        assert Starts(n, own, contacts[..k], starts[a]);
      }
    }
  }

  lemma NoMoreStart(n: Node, own: string, contacts: seq<Identity>, starts: seq<nat>)
    requires contacts != [] && ListsStarts(n, own, contacts[..|contacts| - 1], starts)
    requires !Starts(n, own, contacts, |contacts| - 1)
    ensures ListsStarts(n, own, contacts, starts)
  {
    hide Starts;
    var k := |contacts| - 1;
    StartsInPrefix(n, own, contacts);
    StartsInRange(n, own, contacts);
    StartsInRange(n, own, contacts[..k]);
    forall a | 0 <= a < |starts| ensures Starts(n, own, contacts, starts[a]) {
      assert Starts(n, own, contacts[..k], starts[a]);
    }
    forall i: nat | Starts(n, own, contacts, i) ensures i in starts {
      assert Starts(n, own, contacts[..k], i);
    }
  }

  lemma IdsGrow(contacts: seq<Identity>, starts: seq<nat>)
    requires contacts != [] && forall a :: 0 <= a < |starts| ==> starts[a] < |contacts| - 1
    ensures var k := |contacts| - 1;
      IdsAt(contacts, starts + [k]) == IdsAt(contacts[..k], starts) + [contacts[k].containerID]
  {}

  lemma StartsInRange(n: Node, own: string, contacts: seq<Identity>)
    ensures forall i: nat :: Starts(n, own, contacts, i) ==> i < |contacts|
  {}

  /** Contact `i` is counted: its id was unknown, and no contact before it names it. */
  ghost predicate Counts(registry: map<string, Identity>, own: string, contacts: seq<Identity>, i: nat) {
    && i < |contacts| && Unknown(registry, own, contacts[i].containerID)
    && forall j :: 0 <= j < i ==>
      !(contacts[j].containerID == contacts[i].containerID && contacts[i].containerID != "" && contacts[j].name != "")
  }

  ghost function NewPlaces(registry: map<string, Identity>, own: string, contacts: seq<Identity>): (r: set<nat>) {
    set i: nat | i < |contacts| && Counts(registry, own, contacts, i)
  }

  lemma NewPlacesGrow(registry: map<string, Identity>, own: string, contacts: seq<Identity>)
    requires contacts != []
    ensures var k := |contacts| - 1;
      && NewPlaces(registry, own, contacts)
        == NewPlaces(registry, own, contacts[..k]) + (if Counts(registry, own, contacts, k) then {k} else {})
      && k !in NewPlaces(registry, own, contacts[..k])
  {
    var k := |contacts| - 1;
    forall i: nat | i < k ensures Counts(registry, own, contacts[..k], i) <==> Counts(registry, own, contacts, i) {
      assert forall j :: 0 <= j <= i ==> contacts[..k][j] == contacts[j];
    }
  }

  lemma LastCounts(n: Node, own: string, contacts: seq<Identity>, times: nat -> int)
    requires contacts != []
    ensures var k := |contacts| - 1;
      var m := WithContacts(n, own, contacts[..k], times);
      Counts(n.view.registry, own, contacts, k) <==> Unknown(m.view.registry, own, contacts[k].containerID)
  {
    var k := |contacts| - 1;
    var id := contacts[k].containerID;
    ContactsExact(n, own, contacts[..k], times, id);
    FirstNamedInPrefix(contacts, id);
    if j: nat :| j < k && contacts[j].containerID == id && id != "" && contacts[j].name != "" {
      var i := FindFirst(contacts, id, j);
      assert FirstNamed(contacts[..k], id, i);
    }
  }

  lemma NewsCountStep(n: Node, own: string, contacts: seq<Identity>, times: nat -> int)
    requires contacts != []
    ensures var k := |contacts| - 1;
      NewsCount(n, own, contacts, times) == NewsCount(n, own, contacts[..k], times)
        + (if Counts(n.view.registry, own, contacts, k) then 1 else 0)
  {
    LastCounts(n, own, contacts, times);
  }

  /** The reported count is the number of contacts whose id was unknown and is named by none before. */
  lemma {:induction false} NewsCountExact(n: Node, own: string, contacts: seq<Identity>, times: nat -> int)
    ensures NewsCount(n, own, contacts, times) == |NewPlaces(n.view.registry, own, contacts)|
  {
    hide Counts, NewPlaces, NewsCount;
    if contacts == [] {
      NothingCounts(n, own, times);
    } else {
      NewsCountExact(n, own, contacts[..|contacts| - 1], times);
      NewPlacesGrow(n.view.registry, own, contacts);
      NewsCountStep(n, own, contacts, times);
    }
  }

  lemma NothingCounts(n: Node, own: string, times: nat -> int)
    ensures NewsCount(n, own, [], times) == 0 && NewPlaces(n.view.registry, own, []) == {}
  {}

  /** The client after a list of contacts, entry by entry. */
  ghost predicate Received(n: Node, own: string, contacts: seq<Identity>, times: nat -> int, n': Node) {
    && (forall id, i: nat :: FirstNamed(contacts, id, i) && Unknown(n.view.registry, own, id) ==>
      && id in n'.view.registry && n'.view.registry[id] == contacts[i]
      && id in n'.view.queue && n'.view.queue[id] == times(i))
    && (forall id :: !Unknown(n.view.registry, own, id) || (forall i: nat :: !FirstNamed(contacts, id, i)) ==>
      && (id in n'.view.registry <==> id in n.view.registry)
      && (id in n.view.registry ==> n'.view.registry[id] == n.view.registry[id])
      && (id in n'.view.queue <==> id in n.view.queue)
      && (id in n.view.queue ==> n'.view.queue[id] == n.view.queue[id]))
    && exists starts :: ListsStarts(n, own, contacts, starts) && n'.waiting == n.waiting + IdsAt(contacts, starts)
  }

  lemma ContactsReceived(n: Node, own: string, contacts: seq<Identity>, times: nat -> int)
    ensures Received(n, own, contacts, times, WithContacts(n, own, contacts, times))
  {
    hide FirstNamed, Unknown, WithContacts, ListsStarts;
    forall id {
      ContactsExact(n, own, contacts, times, id);
    }
    var starts := WaitingExact(n, own, contacts, times);
  }
}
