/** Whole runs of one gossip client: who gets asked when, and how its queue of contacts relates to its
    membership manager. */
module QueryRuns {
  import opened Common
  import opened Membership
  import opened QueryOrder

  /** `asked` is the contact whose answer is outstanding; one worker asks, so there is at most one. */
  datatype State = State(node: Node, asked: Option<string>)

  datatype Action =
    | Add(identity: Identity, now: int)
    | Remove(id: string)
    | HealthCheck(id: string, started: int, pingOk: bool, answered: int, maxAge: int, minAge: int)
    | Cleanup(calls: seq<Call>, cutoff: int)
    | Receive(contacts: seq<Identity>, times: nat -> int)
    | Clear
    | Ask
    | Answer(response: Option<seq<Identity>>, times: nat -> int)

  ghost predicate Enabled(s: State, a: Action) {
    match a
    case Cleanup(calls, cutoff) => ReportsStale(s.node.view.queue, calls, cutoff)
    case Ask => s.asked.None?
    case Answer(_, _) => s.asked.Some?
    case _ => true
  }

  function Next(s: State, own: string, a: Action): (r: State) {
    var n := s.node;
    match a
    case Add(identity, now) => s.(node := Managed(n, AfterAdd(n.view, identity, now)))
    case Remove(id) => s.(node := Managed(n, AfterRemove(n.view, id)))
    case HealthCheck(id, started, pingOk, answered, maxAge, minAge) =>
      s.(node := Managed(n, AfterHealthCheck(n.view, id, started, pingOk, answered, maxAge, minAge)))
    case Cleanup(calls, cutoff) =>
      s.(node := Managed(n, Outcome(n.view.(queue := FreshEntries(n.view.queue, cutoff)), calls)))
    case Receive(contacts, times) => s.(node := WithContacts(n, own, contacts, times))
    case Clear => s.(node := n.(view := View(map[], map[])))
    case Ask => State(Taken(n), if CanAsk(n) then Some(n.waiting[0]) else None)
    case Answer(response, times) =>
      if s.asked.None? || response.None? then s.(asked := None)
      else State(Answered(n, own, s.asked.value, response.value, times), None)
  }

  function After(s: State, own: string, run: seq<Action>): (r: State) {
    if run == [] then s else Next(After(s, own, run[..|run| - 1]), own, run[|run| - 1])
  }

  ghost predicate IsRun(s: State, own: string, run: seq<Action>) {
    forall i {:trigger run[..i]} :: 0 <= i < |run| ==> Enabled(After(s, own, run[..i]), run[i])
  }

  lemma RunPrefix(s: State, own: string, run: seq<Action>, n: nat)
    requires IsRun(s, own, run) && n <= |run|
    ensures IsRun(s, own, run[..n])
    ensures n < |run| ==> Enabled(After(s, own, run[..n]), run[n])
  {
    forall i | 0 <= i < n ensures run[..n][..i] == run[..i] {}
  }

  lemma AfterNothing(s: State, own: string, run: seq<Action>)
    ensures After(s, own, run[..0]) == s
  {}

  lemma AfterStep(s: State, own: string, run: seq<Action>, n: nat)
    requires n < |run|
    ensures After(s, own, run[..n + 1]) == Next(After(s, own, run[..n]), own, run[n])
  {
    assert run[..n + 1][..n] == run[..n];
  }

  // ----- First in, first out -----

  /** `id` is in the list with at most `r` ids before it. */
  ghost predicate Within(waiting: seq<string>, id: string, r: nat) {
    exists i :: 0 <= i < |waiting| && i <= r && waiting[i] == id
  }

  lemma {:induction false} DropMovesUp(waiting: seq<string>, gone: string, id: string, r: nat)
    requires Within(waiting, id, r) && gone != id
    ensures Within(Drop(waiting, gone), id, r)
  {
    var n := |waiting| - 1;
    var i :| 0 <= i < |waiting| && i <= r && waiting[i] == id;
    if i == n {
      var kept := Drop(waiting[..n], gone);
      assert Drop(waiting, gone)[|kept|] == id;
    } else {
      assert waiting[..n][i] == id;
      DropMovesUp(waiting[..n], gone, id, r);
      var k :| 0 <= k < |Drop(waiting[..n], gone)| && k <= r && Drop(waiting[..n], gone)[k] == id;
      assert Drop(waiting, gone)[k] == id;
    }
  }

  lemma AppendKeepsRank(waiting: seq<string>, x: string, id: string, r: nat)
    requires Within(waiting, id, r)
    ensures Within(waiting + [x], id, r)
  {
    var i :| 0 <= i < |waiting| && i <= r && waiting[i] == id;
    assert (waiting + [x])[i] == id;
  }

  lemma {:induction false} NotifiedKeepsRank(waiting: seq<string>, calls: seq<Call>, id: string, r: nat)
    requires Within(waiting, id, r)
    requires forall i :: 0 <= i < |calls| ==> !(calls[i].Removed? && calls[i].id == id)
    ensures Within(Notified(waiting, calls), id, r)
  {
    if calls != [] {
      var n := |calls| - 1;
      NotifiedKeepsRank(waiting, calls[..n], id, r);
      var w := Notified(waiting, calls[..n]);
      match calls[n]
      case Added(x, _) => AppendKeepsRank(w, x, id, r);
      case Removed(x, _) => DropMovesUp(w, x, id, r);
    }
  }

  lemma {:induction false} ContactsKeepRank(
        n: Node, own: string, contacts: seq<Identity>, times: nat -> int, id: string, r: nat)
    requires Within(n.waiting, id, r)
    ensures Within(WithContacts(n, own, contacts, times).waiting, id, r)
  {
    if contacts != [] {
      var k := |contacts| - 1;
      ContactsKeepRank(n, own, contacts[..k], times, id, r);
      var m := WithContacts(n, own, contacts[..k], times);
      NotifiedKeepsRank(m.waiting, AfterAdd(m.view, contacts[k], times(k)).calls, id, r);
    }
  }

  lemma MentionsLast(calls: seq<Call>, id: string)
    requires calls != []
    ensures Mentions(calls, id) <==> Mentions(calls[..|calls| - 1], id) || calls[|calls| - 1].id == id
  {}

  lemma {:induction false} RemovedForGood(waiting: seq<string>, calls: seq<Call>, id: string)
    requires forall i :: 0 <= i < |calls| ==> calls[i].Removed?
    ensures id in Notified(waiting, calls) <==> id in waiting && !Mentions(calls, id)
  {
    if calls != [] {
      RemovedForGood(waiting, calls[..|calls| - 1], id);
      MentionsLast(calls, id);
    }
  }

  /** Nothing but being asked, being removed, or an outstanding answer costs an id its place. */
  lemma StepKeepsRank(s: State, own: string, a: Action, id: string, r: nat)
    requires Enabled(s, a) && Within(s.node.waiting, id, r) && s.asked != Some(id)
    requires !a.Ask? && id in Next(s, own, a).node.waiting
    ensures Within(Next(s, own, a).node.waiting, id, r) && Next(s, own, a).asked != Some(id)
  {
    var n := s.node;
    match a
    case Add(identity, now) =>
      NotifiedKeepsRank(n.waiting, AfterAdd(n.view, identity, now).calls, id, r);
    case Remove(gone) =>
      RemovedForGood(n.waiting, RemovalCalls(n.view, gone), id);
      NotifiedKeepsRank(n.waiting, RemovalCalls(n.view, gone), id, r);
    case HealthCheck(x, started, pingOk, answered, maxAge, minAge) =>
      var calls := AfterHealthCheck(n.view, x, started, pingOk, answered, maxAge, minAge).calls;
      if calls != [] && calls[0].Removed? {
        RemovedForGood(n.waiting, calls, id);
      }
      NotifiedKeepsRank(n.waiting, calls, id, r);
    case Cleanup(calls, cutoff) =>
      RemovedForGood(n.waiting, calls, id);
      NotifiedKeepsRank(n.waiting, calls, id, r);
    case Receive(contacts, times) => ContactsKeepRank(n, own, contacts, times, id, r);
    case Clear =>
    case Answer(response, times) =>
      if s.asked.Some? && response.Some? {
        var m := WithContacts(n, own, response.value, times);
        ContactsKeepRank(n, own, response.value, times, id, r);
        DropMovesUp(m.waiting, s.asked.value, id, r);
        AppendKeepsRank(Drop(m.waiting, s.asked.value), s.asked.value, id, r);
      }
  }

  function Asks(run: seq<Action>): (r: nat) {
    if run == [] then 0 else Asks(run[..|run| - 1]) + (if run[|run| - 1].Ask? then 1 else 0)
  }

  /** The step `k` asks `id`, or the manager's callback removes it there; it waited until then, and at
      most `r` others were asked before. */
  ghost predicate ServedAt(s: State, own: string, run: seq<Action>, id: string, r: nat, k: nat) {
    && k < |run| && Asks(run[..k]) <= r
    && var before, after := After(s, own, run[..k]).node.waiting, After(s, own, run[..k + 1]).node.waiting;
      if run[k].Ask? then before != [] && before[0] == id else id in before && id !in after
  }

  lemma ServedInPrefix(s: State, own: string, run: seq<Action>, id: string, r: nat, k: nat)
    requires run != [] && ServedAt(s, own, run[..|run| - 1], id, r, k)
    ensures ServedAt(s, own, run, id, r, k)
  {
    assert run[..|run| - 1][..k] == run[..k] && run[..|run| - 1][..k + 1] == run[..k + 1];
  }

  /** First in, first out: a contact with `r` others before it is asked by the (r+1)-th asking at the
      latest, unless the manager removes it first, whatever else happens in between. A contact whose own
      answer is outstanding while it waits is no such contact: module QueryOvertaking. */
  lemma {:induction false} ServedInTurn(s: State, own: string, run: seq<Action>, id: string, r: nat)
    returns (k: Option<nat>)
    requires IsRun(s, own, run) && Within(s.node.waiting, id, r) && s.asked != Some(id)
    ensures k.Some? ==> ServedAt(s, own, run, id, r, k.value)
    ensures k.None? ==> Asks(run) <= r
    ensures k.None? ==>
      var end := After(s, own, run);
      Within(end.node.waiting, id, r - Asks(run)) && end.asked != Some(id)
  {
    if run == [] {
      return None;
    }
    var n := |run| - 1;
    RunPrefix(s, own, run, n);
    k := ServedInTurn(s, own, run[..n], id, r);
    if k.Some? {
      ServedInPrefix(s, own, run, id, r, k.value);
      return;
    }
    assert run[..n + 1] == run;
    var here := After(s, own, run[..n]);
    var rank := r - Asks(run[..n]);
    if run[n].Ask? {
      var i :| 0 <= i < |here.node.waiting| && i <= rank && here.node.waiting[i] == id;
      if here.node.waiting[0] == id {
        return Some(n);
      }
      assert Taken(here.node).waiting[i - 1] == id;
    } else if id !in Next(here, own, run[n]).node.waiting {
      return Some(n);
    } else {
      StepKeepsRank(here, own, run[n], id, rank);
    }
  }

  /** More than `r` askings are enough. */
  lemma AskedOrRemoved(s: State, own: string, run: seq<Action>, id: string, r: nat) returns (k: nat)
    requires IsRun(s, own, run) && Within(s.node.waiting, id, r) && s.asked != Some(id)
    requires Asks(run) > r
    ensures ServedAt(s, own, run, id, r, k)
  {
    var found := ServedInTurn(s, own, run, id, r);
    k := found.value;
  }

  // ----- The queue of contacts and the liveness queue -----

  /** Everyone who waits to be asked is in the manager's liveness queue. */
  ghost predicate Backed(n: Node) {
    forall id :: id in n.waiting ==> id in n.view.queue
  }

  lemma {:induction false} AddedOnly(waiting: seq<string>, calls: seq<Call>, id: string)
    requires id in Notified(waiting, calls) && id !in waiting
    ensures exists i :: 0 <= i < |calls| && calls[i].Added? && calls[i].id == id
  {
    if calls != [] {
      var n := |calls| - 1;
      if !(calls[n].Added? && calls[n].id == id) {
        AddedOnly(waiting, calls[..n], id);
        var i :| 0 <= i < n && calls[..n][i].Added? && calls[..n][i].id == id;
        assert calls[i].Added?;
      }
    }
  }

  lemma ManagerOpKeepsBacked(n: Node, o: Outcome)
    requires Backed(n) && |o.calls| <= 1
    requires forall id :: id in n.view.queue && id !in o.view.queue ==>
      o.calls != [] && o.calls[0].Removed? && o.calls[0].id == id
    requires o.calls != [] && o.calls[0].Added? ==> o.calls[0].id in o.view.queue
    ensures Backed(Managed(n, o))
  {
    forall id | id in Managed(n, o).waiting ensures id in o.view.queue {
      if id !in n.waiting {
        AddedOnly(n.waiting, o.calls, id);
      }
    }
  }

  lemma {:induction false} ContactsKeepBacked(n: Node, own: string, contacts: seq<Identity>, times: nat -> int)
    requires Backed(n)
    ensures Backed(WithContacts(n, own, contacts, times))
    ensures n.view.queue.Keys <= WithContacts(n, own, contacts, times).view.queue.Keys
  {
    if contacts != [] {
      var k := |contacts| - 1;
      ContactsKeepBacked(n, own, contacts[..k], times);
      var m := WithContacts(n, own, contacts[..k], times);
      ManagerOpKeepsBacked(m, AfterAdd(m.view, contacts[k], times(k)));
    }
  }

  /** Among the contacts is one that can be registered under this id, which is not our own. */
  ghost predicate Offers(contacts: seq<Identity>, own: string, id: string) {
    id != own && exists j :: 0 <= j < |contacts| && WellFormed(contacts[j]) && contacts[j].containerID == id
  }

  lemma OffersLast(contacts: seq<Identity>, own: string, id: string)
    requires contacts != []
    ensures var x := contacts[|contacts| - 1];
      Offers(contacts, own, id) <==>
        || Offers(contacts[..|contacts| - 1], own, id)
        || (id != own && WellFormed(x) && x.containerID == id)
  {
    var k := |contacts| - 1;
    if j :| 0 <= j < k && WellFormed(contacts[j]) && contacts[j].containerID == id {
      assert contacts[..k][j] == contacts[j];
    }
  }

  /** What received contacts leave behind, from the state before: an id that is not registered yet is
      registered and queued exactly if they offer it, and it waits then; nothing else changes. */
  lemma {:induction false} AfterContacts(
        n: Node, own: string, contacts: seq<Identity>, times: nat -> int, id: string)
    ensures var m := WithContacts(n, own, contacts, times);
      var added := id !in n.view.registry && Offers(contacts, own, id);
      && (id in m.view.registry <==> id in n.view.registry || added)
      && (id in m.view.queue <==> id in n.view.queue || added)
      && (id in m.waiting <==> id in n.waiting || added)
  {
    if contacts == [] {
      assert !Offers(contacts, own, id);
    } else {
      var k := |contacts| - 1;
      AfterContacts(n, own, contacts[..k], times, id);
      OffersLast(contacts, own, id);
      var m := WithContacts(n, own, contacts[..k], times);
      var calls := AfterAdd(m.view, contacts[k], times(k)).calls;
      assert calls != [] ==> calls[..0] == [] && Notified(m.waiting, []) == m.waiting;
    }
  }

  /** The step loses the backing: the manager is cleared while someone waits, or an answer comes from a
      contact that left the liveness queue and that the answer does not bring back. */
  ghost predicate Unbacks(s: State, own: string, a: Action) {
    match a
    case Clear => s.node.waiting != []
    case Answer(response, _) =>
      && s.asked.Some? && response.Some?
      && s.asked.value !in s.node.view.queue
      && (s.asked.value in s.node.view.registry || !Offers(response.value, own, s.asked.value))
    case _ => false
  }

  lemma AnswerBackedExactly(s: State, own: string, received: seq<Identity>, times: nat -> int)
    requires Backed(s.node) && s.asked.Some?
    ensures var id := s.asked.value;
      Backed(Next(s, own, Answer(Some(received), times)).node) <==>
        id in s.node.view.queue || (id !in s.node.view.registry && Offers(received, own, id))
  {
    var id := s.asked.value;
    ContactsKeepBacked(s.node, own, received, times);
    AfterContacts(s.node, own, received, times, id);
    var m := WithContacts(s.node, own, received, times);
    assert (Drop(m.waiting, id) + [id])[|Drop(m.waiting, id)|] == id;
  }

  /** Exactly those steps lose it. */
  lemma StepBackedExactly(s: State, own: string, a: Action)
    requires Enabled(s, a) && Backed(s.node)
    ensures Backed(Next(s, own, a).node) <==> !Unbacks(s, own, a)
  {
    var n := s.node;
    match a
    case Add(identity, now) => ManagerOpKeepsBacked(n, AfterAdd(n.view, identity, now));
    case Remove(gone) => ManagerOpKeepsBacked(n, AfterRemove(n.view, gone));
    case HealthCheck(x, started, pingOk, answered, maxAge, minAge) =>
      ManagerOpKeepsBacked(n, AfterHealthCheck(n.view, x, started, pingOk, answered, maxAge, minAge));
    case Cleanup(calls, cutoff) =>
      forall id | id in Notified(n.waiting, calls) ensures id in FreshEntries(n.view.queue, cutoff) {
        RemovedForGood(n.waiting, calls, id);
      }
    case Receive(contacts, times) => ContactsKeepBacked(n, own, contacts, times);
    case Clear =>
      if n.waiting != [] {
        assert n.waiting[0] in n.waiting;
      }
    case Ask =>
    case Answer(response, times) =>
      if response.Some? {
        AnswerBackedExactly(s, own, response.value, times);
      }
  }

  lemma {:induction false} BackedUntilLost(s: State, own: string, run: seq<Action>, n: nat)
    requires IsRun(s, own, run) && Backed(s.node) && n <= |run|
    requires forall i :: 0 <= i < n ==> !Unbacks(After(s, own, run[..i]), own, run[i])
    ensures Backed(After(s, own, run[..n]).node)
  {
    if n > 0 {
      BackedUntilLost(s, own, run, n - 1);
      assert run[..n][..n - 1] == run[..n - 1];
      StepBackedExactly(After(s, own, run[..n - 1]), own, run[n - 1]);
    }
  }

  /** Over any run: everyone waiting is in the liveness queue all along, exactly if no step loses that. */
  lemma RunsStayBacked(s: State, own: string, run: seq<Action>)
    requires IsRun(s, own, run) && Backed(s.node)
    ensures (forall n :: 0 <= n <= |run| ==> Backed(After(s, own, run[..n]).node))
      <==> (forall i :: 0 <= i < |run| ==> !Unbacks(After(s, own, run[..i]), own, run[i]))
  {
    if forall n :: 0 <= n <= |run| ==> Backed(After(s, own, run[..n]).node) {
      forall i | 0 <= i < |run| ensures !Unbacks(After(s, own, run[..i]), own, run[i]) {
        assert Backed(After(s, own, run[..i + 1]).node);
        assert run[..i + 1][..i] == run[..i];
        StepBackedExactly(After(s, own, run[..i]), own, run[i]);
      }
    } else {
      var n :| 0 <= n <= |run| && !Backed(After(s, own, run[..n]).node);
      if forall i :: 0 <= i < |run| ==> !Unbacks(After(s, own, run[..i]), own, run[i]) {
        BackedUntilLost(s, own, run, n);
      }
    }
  }

  /** A contact is removed while its answer is outstanding: it waits again, and is not in the liveness
      queue. */
  lemma UnbackedReachable() returns (start: State, own: string, run: seq<Action>)
    ensures IsRun(start, own, run) && Backed(start.node) && start.asked.None? && !Backed(After(start, own, run).node)
    ensures forall i :: 0 <= i < |run| ==> !run[i].Clear?
  {
    var x := Identity("x", "x", "x");
    start, own := State(Node(View(map[], map[]), []), None), "me";
    run := [];
    run := Extend(start, own, run, Add(x, 0));
    assert After(start, own, run) == State(Node(View(map["x" := x], map["x" := 0]), ["x"]), None);
    run := Extend(start, own, run, Ask);
    assert After(start, own, run) == State(Node(View(map["x" := x], map["x" := 0]), []), Some("x"));
    run := Extend(start, own, run, Remove("x"));
    assert After(start, own, run) == State(Node(View(map[], map[]), []), Some("x"));
    run := Extend(start, own, run, Answer(Some([]), _ => 0));
    assert After(start, own, run).node.waiting == ["x"];
    assert "x" in After(start, own, run).node.waiting;
  }

  lemma Extend(s: State, own: string, run: seq<Action>, a: Action) returns (run': seq<Action>)
    requires IsRun(s, own, run) && Enabled(After(s, own, run), a)
    ensures run' == run + [a] && IsRun(s, own, run') && After(s, own, run') == Next(After(s, own, run), own, a)
  {
    run' := run + [a];
    assert run'[..|run|] == run;
    forall i | 0 <= i < |run| ensures run'[..i] == run[..i] {}
  }

  /** An exchange that nothing interrupts keeps them in step. */
  lemma ExchangeKeepsBacked(s: State, own: string, response: Option<seq<Identity>>, times: nat -> int)
    requires Backed(s.node) && s.asked.None?
    ensures Backed(Next(Next(s, own, Ask), own, Answer(response, times)).node)
  {
    StepBackedExactly(s, own, Ask);
    var asked := Next(s, own, Ask);
    if asked.asked.Some? {
      StepBackedExactly(asked, own, Answer(response, times));
    }
  }

  // ----- Ids that are not registered, as after a clear -----

  /** An id that is not registered is dropped at its turn, unasked. */
  lemma UnregisteredDropped(s: State, own: string)
    requires s.node.waiting != [] && s.node.waiting[0] !in s.node.view.registry
    ensures Next(s, own, Ask).node == s.node.(waiting := s.node.waiting[1..])
    ensures Next(s, own, Ask).asked.None?
  {}

  /** The action tells the client about `id`, in a form that it can register. */
  ghost predicate Brings(own: string, a: Action, id: string) {
    match a
    case Add(identity, _) => WellFormed(identity) && identity.containerID == id
    case Receive(contacts, _) => Offers(contacts, own, id)
    case Answer(response, _) => response.Some? && Offers(response.value, own, id)
    case _ => false
  }

  ghost predicate NobodyBrings(own: string, run: seq<Action>, id: string) {
    forall i :: 0 <= i < |run| ==> !Brings(own, run[i], id)
  }

  /** Not registered, not waiting, and not being asked. */
  ghost predicate Out(s: State, id: string) {
    id !in s.node.view.registry && id !in s.node.waiting && s.asked != Some(id)
  }

  lemma NotAddedBy(waiting: seq<string>, calls: seq<Call>, id: string)
    requires forall i :: 0 <= i < |calls| ==> !(calls[i].Added? && calls[i].id == id)
    ensures id in Notified(waiting, calls) ==> id in waiting
  {
    if id in Notified(waiting, calls) && id !in waiting {
      AddedOnly(waiting, calls, id);
    }
  }

  /** One step: unless someone brings the id, it is not registered, it is not asked anew, and only its
      own outstanding answer puts it back into the queue. */
  lemma UnregisteredStep(s: State, own: string, a: Action, id: string)
    requires Enabled(s, a) && id !in s.node.view.registry && !Brings(own, a, id)
    ensures var s' := Next(s, own, a);
      && id !in s'.node.view.registry
      && (s'.asked == Some(id) <==> s.asked == Some(id) && !a.Answer?)
      && (id in s'.node.waiting ==>
        id in s.node.waiting || (a.Answer? && a.response.Some? && s.asked == Some(id)))
  {
    var n := s.node;
    match a
    case Add(identity, now) => NotAddedBy(n.waiting, AfterAdd(n.view, identity, now).calls, id);
    case Remove(gone) => NotAddedBy(n.waiting, RemovalCalls(n.view, gone), id);
    case HealthCheck(x, started, pingOk, answered, maxAge, minAge) =>
      NotAddedBy(n.waiting, AfterHealthCheck(n.view, x, started, pingOk, answered, maxAge, minAge).calls, id);
    case Cleanup(calls, cutoff) => NotAddedBy(n.waiting, calls, id);
    case Receive(contacts, times) => AfterContacts(n, own, contacts, times, id);
    case Clear =>
    case Ask =>
    case Answer(response, times) =>
      if response.Some? {
        AfterContacts(n, own, response.value, times, id);
      }
  }

  /** Over any run in which nobody brings the id: it is never registered, and it is being asked only as
      long as an answer from before is outstanding. */
  lemma {:induction false} UnregisteredRun(s: State, own: string, run: seq<Action>, id: string, n: nat)
    requires IsRun(s, own, run) && NobodyBrings(own, run, id) && id !in s.node.view.registry && n <= |run|
    ensures var s' := After(s, own, run[..n]);
      && id !in s'.node.view.registry
      && (s'.asked == Some(id) <==> s.asked == Some(id) && forall i :: 0 <= i < n ==> !run[i].Answer?)
  {
    hide Next, After, Enabled, Brings;
    AfterNothing(s, own, run);
    if n > 0 {
      UnregisteredRun(s, own, run, id, n - 1);
      AfterStep(s, own, run, n - 1);
      UnregisteredStep(After(s, own, run[..n - 1]), own, run[n - 1], id);
    }
  }

  /** Over any run in which nobody brings the id: once it is out, it stays out. */
  lemma {:induction false} UnregisteredStaysOut(s: State, own: string, run: seq<Action>, id: string, a: nat, b: nat)
    requires IsRun(s, own, run) && NobodyBrings(own, run, id)
    requires a <= b <= |run| && Out(After(s, own, run[..a]), id)
    ensures Out(After(s, own, run[..b]), id)
    decreases b
  {
    hide Next, After, Enabled, Brings;
    if a < b {
      UnregisteredStaysOut(s, own, run, id, a, b - 1);
      AfterStep(s, own, run, b - 1);
      UnregisteredStep(After(s, own, run[..b - 1]), own, run[b - 1], id);
    }
  }

  lemma {:induction false} DropDistinct(order: seq<string>, id: string)
    requires Distinct(order)
    ensures Distinct(Drop(order, id))
  {
    if order != [] {
      var n := |order| - 1;
      DropDistinct(order[..n], id);
      var kept := Drop(order[..n], id);
      forall k | 0 <= k < |kept| ensures kept[k] != order[n] {
        assert kept[k] in kept;
      }
    }
  }

  lemma {:induction false} NotifiedDistinct(waiting: seq<string>, calls: seq<Call>)
    requires Distinct(waiting)
    ensures Distinct(Notified(waiting, calls))
  {
    if calls != [] {
      var n := |calls| - 1;
      NotifiedDistinct(waiting, calls[..n]);
      var w := Notified(waiting, calls[..n]);
      if calls[n].Removed? {
        DropDistinct(w, calls[n].id);
      }
    }
  }

  lemma {:induction false} ContactsDistinct(n: Node, own: string, contacts: seq<Identity>, times: nat -> int)
    requires Distinct(n.waiting)
    ensures Distinct(WithContacts(n, own, contacts, times).waiting)
  {
    if contacts != [] {
      var k := |contacts| - 1;
      ContactsDistinct(n, own, contacts[..k], times);
      var m := WithContacts(n, own, contacts[..k], times);
      NotifiedDistinct(m.waiting, AfterAdd(m.view, contacts[k], times(k)).calls);
    }
  }

  lemma StepDistinct(s: State, own: string, a: Action)
    requires Distinct(s.node.waiting)
    ensures Distinct(Next(s, own, a).node.waiting)
  {
    var n := s.node;
    match a
    case Add(identity, now) => NotifiedDistinct(n.waiting, AfterAdd(n.view, identity, now).calls);
    case Remove(gone) => NotifiedDistinct(n.waiting, RemovalCalls(n.view, gone));
    case HealthCheck(x, started, pingOk, answered, maxAge, minAge) =>
      NotifiedDistinct(n.waiting, AfterHealthCheck(n.view, x, started, pingOk, answered, maxAge, minAge).calls);
    case Cleanup(calls, cutoff) => NotifiedDistinct(n.waiting, calls);
    case Receive(contacts, times) => ContactsDistinct(n, own, contacts, times);
    case Clear =>
    case Ask =>
    case Answer(response, times) =>
      if s.asked.Some? && response.Some? {
        ContactsDistinct(n, own, response.value, times);
        var m := WithContacts(n, own, response.value, times);
        DropDistinct(m.waiting, s.asked.value);
        assert forall x :: x in Drop(m.waiting, s.asked.value) ==> x != s.asked.value;
      }
  }

  /** Nobody waits twice. */
  lemma {:induction false} WaitingStaysDistinct(s: State, own: string, run: seq<Action>)
    requires Distinct(s.node.waiting)
    ensures Distinct(After(s, own, run).node.waiting)
  {
    if run != [] {
      WaitingStaysDistinct(s, own, run[..|run| - 1]);
      StepDistinct(After(s, own, run[..|run| - 1]), own, run[|run| - 1]);
    }
  }

  /** Over any run in which nobody brings the id: if it is not registered it is dropped, unasked, by the
      (r+1)-th asking at the latest, and never registered, waiting or asked from then on. */
  lemma UnregisteredDropsOut(s: State, own: string, run: seq<Action>, id: string, r: nat)
    requires IsRun(s, own, run) && NobodyBrings(own, run, id) && Distinct(s.node.waiting)
    requires id !in s.node.view.registry && s.asked != Some(id)
    requires id in s.node.waiting ==> Within(s.node.waiting, id, r)
    requires Asks(run) > r
    ensures Out(After(s, own, run), id)
    ensures forall n :: 0 <= n <= |run| ==> After(s, own, run[..n]).asked != Some(id)
  {
    forall n | 0 <= n <= |run| ensures After(s, own, run[..n]).asked != Some(id) {
      UnregisteredRun(s, own, run, id, n);
    }
    var gone := 0;
    if id in s.node.waiting {
      var k := AskedOrRemoved(s, own, run, id, r);
      var here := After(s, own, run[..k]);
      WaitingStaysDistinct(s, own, run[..k]);
      assert run[..k + 1][..k] == run[..k];
      UnregisteredRun(s, own, run, id, k + 1);
      gone := k + 1;
    }
    UnregisteredStaysOut(s, own, run, id, gone, |run|);
    assert run[..|run|] == run;
  }

  lemma {:induction false} RunSplit(s: State, own: string, run: seq<Action>, m: nat)
    requires m <= |run|
    ensures After(s, own, run) == After(After(s, own, run[..m]), own, run[m..])
  {
    hide Next;
    if m == |run| {
      assert run[..m] == run;
    } else {
      var n := |run| - 1;
      RunSplit(s, own, run[..n], m);
      assert run[..n][..m] == run[..m] && run[..n][m..] == run[m..][..n - m];
    }
  }

  lemma RunSuffix(s: State, own: string, run: seq<Action>, m: nat)
    requires IsRun(s, own, run) && m <= |run|
    ensures IsRun(After(s, own, run[..m]), own, run[m..])
  {
    forall i | 0 <= i < |run| - m
      ensures Enabled(After(After(s, own, run[..m]), own, run[m..][..i]), run[m..][i])
    {
      RunSplit(s, own, run[..m + i], m);
      assert run[..m + i][..m] == run[..m] && run[..m + i][m..] == run[m..][..i];
    }
  }

  /** After a clear, in any run in which nobody brings the id: it is never registered, and it is being
      asked only as long as an answer from before the clear is outstanding. */
  lemma ClearedStaysForgotten(s: State, own: string, run: seq<Action>, id: string)
    requires IsRun(Next(s, own, Clear), own, run) && NobodyBrings(own, run, id)
    ensures var start := Next(s, own, Clear);
      forall n :: 0 <= n <= |run| ==>
        var s' := After(start, own, run[..n]);
        && id !in s'.node.view.registry
        && (s'.asked == Some(id) <==> s.asked == Some(id) && forall i :: 0 <= i < n ==> !run[i].Answer?)
  {
    var start := Next(s, own, Clear);
    forall n | 0 <= n <= |run|
      ensures var s' := After(start, own, run[..n]);
        && id !in s'.node.view.registry
        && (s'.asked == Some(id) <==> s.asked == Some(id) && forall i :: 0 <= i < n ==> !run[i].Answer?)
    {
      UnregisteredRun(start, own, run, id, n);
    }
  }

  /** ... and unless such an answer is outstanding, it is gone for good after as many askings as there
      were ids waiting. */
  lemma ClearedQueueDrains(s: State, own: string, run: seq<Action>, id: string)
    requires IsRun(Next(s, own, Clear), own, run) && NobodyBrings(own, run, id) && Distinct(s.node.waiting)
    ensures s.asked != Some(id) && Asks(run) >= |s.node.waiting| ==> Out(After(Next(s, own, Clear), own, run), id)
  {
    if s.asked != Some(id) && Asks(run) >= |s.node.waiting| {
      DrainsWithin(Next(s, own, Clear), own, run, id);
    }
  }

  lemma DrainsWithin(s: State, own: string, run: seq<Action>, id: string)
    requires IsRun(s, own, run) && NobodyBrings(own, run, id) && Distinct(s.node.waiting)
    requires id !in s.node.view.registry && s.asked != Some(id) && Asks(run) >= |s.node.waiting|
    ensures Out(After(s, own, run), id)
  {
    if id in s.node.waiting {
      UnregisteredDropsOut(s, own, run, id, |s.node.waiting| - 1);
    } else {
      UnregisteredStaysOut(s, own, run, id, 0, |run|);
      assert run[..|run|] == run;
    }
  }

  lemma OnlyItsAnswerRequeues(s: State, own: string, run: seq<Action>, id: string, m: nat, n: nat)
    requires IsRun(s, own, run) && NobodyBrings(own, run, id) && id !in s.node.view.registry
    requires m < |run| && run[m].Answer? && n < |run| && n != m
    requires s.asked == Some(id) ==> forall i :: 0 <= i < m ==> !run[i].Answer?
    requires id in After(s, own, run[..n + 1]).node.waiting
    ensures id in After(s, own, run[..n]).node.waiting
  {
    assert run[..n + 1][..n] == run[..n];
    UnregisteredRun(s, own, run, id, n);
    UnregisteredStep(After(s, own, run[..n]), own, run[n], id);
  }

  /** What an answer that was outstanding at the clear does, `m` being its step: the id is asked until
      then; if the answer arrives, the id goes to the back, and no other step puts it into the queue; it
      is dropped at its next turn, after as many askings as were waiting then, and never asked again. */
  lemma OutstandingQueuesOnce(s: State, own: string, run: seq<Action>, id: string, m: nat)
    requires IsRun(s, own, run) && NobodyBrings(own, run, id) && Distinct(s.node.waiting)
    requires id !in s.node.view.registry && s.asked == Some(id)
    requires m < |run| && run[m].Answer? && forall i :: 0 <= i < m ==> !run[i].Answer?
    ensures forall n :: 0 <= n <= |run| ==> (After(s, own, run[..n]).asked == Some(id) <==> n <= m)
    ensures forall n :: 0 <= n < |run| && n != m ==>
      id in After(s, own, run[..n + 1]).node.waiting ==> id in After(s, own, run[..n]).node.waiting
    ensures var before, after := After(s, own, run[..m]).node.waiting, After(s, own, run[..m + 1]).node.waiting;
      && (run[m].response.None? ==> after == before)
      && (run[m].response.Some? ==> after != [] && after[|after| - 1] == id)
      && (Asks(run[m + 1..]) >= |after| ==> Out(After(s, own, run), id))
  {
    forall n | 0 <= n <= |run| ensures After(s, own, run[..n]).asked == Some(id) <==> n <= m {
      UnregisteredRun(s, own, run, id, n);
    }
    forall n | 0 <= n < |run| && n != m && id in After(s, own, run[..n + 1]).node.waiting
      ensures id in After(s, own, run[..n]).node.waiting
    {
      OnlyItsAnswerRequeues(s, own, run, id, m, n);
    }
    assert run[..m + 1][..m] == run[..m];
    DrainsAfterAnswer(s, own, run, id, m);
  }

  lemma DrainsAfterAnswer(s: State, own: string, run: seq<Action>, id: string, m: nat)
    requires IsRun(s, own, run) && NobodyBrings(own, run, id) && Distinct(s.node.waiting)
    requires id !in s.node.view.registry && m < |run| && run[m].Answer?
    ensures Asks(run[m + 1..]) >= |After(s, own, run[..m + 1]).node.waiting| ==> Out(After(s, own, run), id)
  {
    var after := After(s, own, run[..m + 1]);
    UnregisteredRun(s, own, run, id, m + 1);
    WaitingStaysDistinct(s, own, run[..m + 1]);
    RunSuffix(s, own, run, m + 1);
    RunSplit(s, own, run, m + 1);
    if Asks(run[m + 1..]) >= |after.node.waiting| {
      DrainsWithin(after, own, run[m + 1..], id);
    }
  }

  // ----- The count of new contacts -----

  /** Whether contact `i` is neither known nor ours when its turn comes, yet cannot be registered. */
  ghost predicate Ignored(registry: map<string, Identity>, own: string, contacts: seq<Identity>, i: nat)
    requires i < |contacts|
  {
    && IsNews(registry, own, contacts[i]) && !WellFormed(contacts[i])
    && forall j :: 0 <= j < i && WellFormed(contacts[j]) ==> contacts[j].containerID != contacts[i].containerID
  }

  /** The reported count is the registry's growth exactly when no contact is ignored; otherwise it is
      too high. */
  lemma {:induction false} CountIsGrowthExactly(n: Node, own: string, contacts: seq<Identity>, times: nat -> int)
    ensures var growth := |WithContacts(n, own, contacts, times).view.registry| - |n.view.registry|;
      && NewsCount(n, own, contacts, times) >= growth
      && (NewsCount(n, own, contacts, times) == growth <==>
          forall i :: 0 <= i < |contacts| ==> !Ignored(n.view.registry, own, contacts, i))
  {
    if contacts != [] {
      var k := |contacts| - 1;
      CountIsGrowthExactly(n, own, contacts[..k], times);
      forall i | 0 <= i < k
        ensures Ignored(n.view.registry, own, contacts[..k], i) <==> Ignored(n.view.registry, own, contacts, i)
      {
        assert forall j :: 0 <= j <= i ==> contacts[..k][j] == contacts[j];
      }
      IgnoredAtItsTurn(n, own, contacts, times);
      LastContact(n, own, contacts, times);
    }
  }

  lemma IgnoredAtItsTurn(n: Node, own: string, contacts: seq<Identity>, times: nat -> int)
    requires contacts != []
    ensures var k := |contacts| - 1;
      var m := WithContacts(n, own, contacts[..k], times);
      var news := IsNews(m.view.registry, own, contacts[k]) && !WellFormed(contacts[k]);
      Ignored(n.view.registry, own, contacts, k) <==> news
  {
    var k := |contacts| - 1;
    AfterContacts(n, own, contacts[..k], times, contacts[k].containerID);
    if j :| 0 <= j < k && WellFormed(contacts[j]) && contacts[j].containerID == contacts[k].containerID {
      assert contacts[..k][j] == contacts[j];
    }
  }

  lemma LastContact(n: Node, own: string, contacts: seq<Identity>, times: nat -> int)
    requires contacts != []
    ensures var k := |contacts| - 1;
      var m := WithContacts(n, own, contacts[..k], times);
      |WithContacts(n, own, contacts, times).view.registry| - |m.view.registry|
        == (if IsNews(m.view.registry, own, contacts[k]) && WellFormed(contacts[k]) then 1 else 0)
  {}

  /** One contact with an id and no name is counted, and nothing is registered. */
  lemma IgnoredContactIsCounted() returns (n: Node, contacts: seq<Identity>)
    ensures contacts == [Identity("", "x", "x")] && n == Node(View(map[], map[]), [])
    ensures NewsCount(n, "me", contacts, _ => 0) == 1
    ensures |WithContacts(n, "me", contacts, _ => 0).view.registry| == |n.view.registry|
  {
    n, contacts := Node(View(map[], map[]), []), [Identity("", "x", "x")];
    assert contacts[..0] == [];
  }

  /** So is one with a name and no id. */
  lemma EmptyIdIsCounted() returns (n: Node, contacts: seq<Identity>)
    ensures contacts == [Identity("x", "", "x")] && n == Node(View(map[], map[]), [])
    ensures NewsCount(n, "me", contacts, _ => 0) == 1
    ensures WithContacts(n, "me", contacts, _ => 0) == n
  {
    n, contacts := Node(View(map[], map[]), []), [Identity("x", "", "x")];
    assert contacts[..0] == [];
  }
}
