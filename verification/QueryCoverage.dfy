/** Whether everyone in the liveness queue gets asked sooner or later: whoever is there waits to be
    asked, or is being asked, until an asking goes unanswered. */
module QueryCoverage {
  import opened Common
  import opened Membership
  import opened QueryOrder
  import opened QueryRuns

  /** Everyone in the liveness queue waits to be asked, or is being asked. */
  ghost predicate Covered(s: State) {
    forall id :: id in s.node.view.queue ==> id in s.node.waiting || s.asked == Some(id)
  }

  /** The step loses someone: an asking takes a contact that is in the liveness queue and cannot be asked,
      or no answer comes from one that is there and does not wait again. */
  predicate Uncovers(s: State, a: Action) {
    match a
    case Ask => s.node.waiting != [] && s.node.waiting[0] in s.node.view.queue && !CanAsk(s.node)
    case Answer(None, _) => s.asked.Some? && s.asked.value in s.node.view.queue && s.asked.value !in s.node.waiting
    case _ => false
  }

  lemma AddedWaits(waiting: seq<string>, id: string, p: int)
    ensures var w := Notified(waiting, [Added(id, p)]);
      id in w && forall x :: x in waiting ==> x in w
  {
    assert [Added(id, p)][..0] == [] && Notified(waiting, []) == waiting;
    if id !in waiting {
      assert (waiting + [id])[|waiting|] == id;
    }
  }

  lemma RemovedAlone(waiting: seq<string>, id: string, p: int)
    ensures forall x :: x in Notified(waiting, [Removed(id, p)]) <==> x in waiting && x != id
  {
    assert [Removed(id, p)][..0] == [] && Notified(waiting, []) == waiting;
  }

  /** An operation of the manager tells the client about each id that enters or leaves. */
  lemma ManagerOpCovers(s: State, o: Outcome)
    requires Covered(s) && |o.calls| <= 1
    requires forall id :: id in o.view.queue && id !in s.node.view.queue ==>
      o.calls != [] && o.calls[0].Added? && o.calls[0].id == id
    requires o.calls != [] && o.calls[0].Removed? ==> o.calls[0].id !in o.view.queue
    ensures Covered(s.(node := Managed(s.node, o)))
  {
    if o.calls != [] {
      match o.calls[0]
      case Added(id, p) =>
        assert o.calls == [Added(id, p)];
        AddedWaits(s.node.waiting, id, p);
      case Removed(id, p) =>
        assert o.calls == [Removed(id, p)];
        RemovedAlone(s.node.waiting, id, p);
    }
  }

  lemma ContactsCover(s: State, own: string, contacts: seq<Identity>, times: nat -> int)
    requires Covered(s)
    ensures Covered(s.(node := WithContacts(s.node, own, contacts, times)))
  {
    var m := WithContacts(s.node, own, contacts, times);
    forall id | id in m.view.queue ensures id in m.waiting || s.asked == Some(id) {
      AfterContacts(s.node, own, contacts, times, id);
    }
  }

  lemma AskCovers(s: State, own: string)
    requires Covered(s) && s.asked.None? && Distinct(s.node.waiting)
    ensures Covered(Next(s, own, Ask)) <==> !Uncovers(s, Ask)
  {
    if s.node.waiting != [] {
      var first, rest := s.node.waiting[0], s.node.waiting[1..];
      assert s.node.waiting == [first] + rest;
      assert first !in rest;
    }
  }

  lemma AnswerCovers(s: State, own: string, response: Option<seq<Identity>>, times: nat -> int)
    requires Covered(s) && s.asked.Some?
    ensures Covered(Next(s, own, Answer(response, times))) <==> !Uncovers(s, Answer(response, times))
  {
    if response.Some? {
      ContactsCover(s, own, response.value, times);
      var m := WithContacts(s.node, own, response.value, times);
      var id := s.asked.value;
      assert (Drop(m.waiting, id) + [id])[|Drop(m.waiting, id)|] == id;
    }
  }

  /** Exactly those steps lose someone. */
  lemma StepCoversExactly(s: State, own: string, a: Action)
    requires Enabled(s, a) && Covered(s) && Distinct(s.node.waiting)
    ensures Covered(Next(s, own, a)) <==> !Uncovers(s, a)
  {
    var n := s.node;
    match a
    case Add(identity, now) => ManagerOpCovers(s, AfterAdd(n.view, identity, now));
    case Remove(gone) => ManagerOpCovers(s, AfterRemove(n.view, gone));
    case HealthCheck(x, started, pingOk, answered, maxAge, minAge) =>
      ManagerOpCovers(s, AfterHealthCheck(n.view, x, started, pingOk, answered, maxAge, minAge));
    case Cleanup(calls, cutoff) =>
      forall id | id in FreshEntries(n.view.queue, cutoff)
        ensures id in Notified(n.waiting, calls) || s.asked == Some(id)
      {
        RemovedForGood(n.waiting, calls, id);
      }
    case Receive(contacts, times) => ContactsCover(s, own, contacts, times);
    case Clear =>
    case Ask => AskCovers(s, own);
    case Answer(response, times) => AnswerCovers(s, own, response, times);
  }

  lemma {:induction false} CoveredUntilLost(s: State, own: string, run: seq<Action>, n: nat)
    requires IsRun(s, own, run) && Covered(s) && Distinct(s.node.waiting) && n <= |run|
    requires forall i :: 0 <= i < n ==> !Uncovers(After(s, own, run[..i]), run[i])
    ensures Covered(After(s, own, run[..n]))
  {
    hide Next, After, Enabled, Covered, Uncovers, Distinct;
    AfterNothing(s, own, run);
    if n > 0 {
      CoveredUntilLost(s, own, run, n - 1);
      AfterStep(s, own, run, n - 1);
      WaitingStaysDistinct(s, own, run[..n - 1]);
      StepCoversExactly(After(s, own, run[..n - 1]), own, run[n - 1]);
    }
  }

  /** Over any run: everyone in the liveness queue waits or is being asked all along, exactly if no step
      loses someone. */
  lemma RunsStayCovered(s: State, own: string, run: seq<Action>)
    requires IsRun(s, own, run) && Covered(s) && Distinct(s.node.waiting)
    ensures (forall n :: 0 <= n <= |run| ==> Covered(After(s, own, run[..n])))
      <==> (forall i :: 0 <= i < |run| ==> !Uncovers(After(s, own, run[..i]), run[i]))
  {
    hide Next, After, Enabled, Covered, Uncovers, Distinct;
    if forall n :: 0 <= n <= |run| ==> Covered(After(s, own, run[..n])) {
      forall i | 0 <= i < |run| ensures !Uncovers(After(s, own, run[..i]), run[i]) {
        assert Covered(After(s, own, run[..i])) && Covered(After(s, own, run[..i + 1]));
        AfterStep(s, own, run, i);
        WaitingStaysDistinct(s, own, run[..i]);
        StepCoversExactly(After(s, own, run[..i]), own, run[i]);
      }
    } else {
      var n :| 0 <= n <= |run| && !Covered(After(s, own, run[..n]));
      if forall i :: 0 <= i < |run| ==> !Uncovers(After(s, own, run[..i]), run[i]) {
        CoveredUntilLost(s, own, run, n);
      }
    }
  }

  /** A contact is added and asked, and does not answer: it is in the liveness queue, and neither waits
      nor is being asked. */
  lemma UncoveredReachable() returns (own: string, start: State, run: seq<Action>)
    ensures start == State(Node(View(map[], map[]), []), None) && IsRun(start, own, run)
    ensures !Covered(After(start, own, run))
  {
    var x := Identity("x", "x", "x");
    own, start, run := "me", State(Node(View(map[], map[]), []), None), [];
    run := Extend(start, own, run, Add(x, 0));
    assert After(start, own, run) == State(Node(View(map["x" := x], map["x" := 0]), ["x"]), None);
    run := Extend(start, own, run, Ask);
    assert After(start, own, run) == State(Node(View(map["x" := x], map["x" := 0]), []), Some("x"));
    run := Extend(start, own, run, Answer(None, _ => 0));
    assert "x" in After(start, own, run).node.view.queue;
  }
}
