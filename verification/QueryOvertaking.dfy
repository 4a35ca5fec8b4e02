/** When first in, first out fails: a contact that waits again while its own answer is outstanding is
    put behind newer contacts by that answer. Exactly then. */
module QueryOvertaking {
  import opened Common
  import opened Membership
  import opened QueryOrder
  import opened QueryRuns

  /** The id waits all along, and no step of the run asks it. */
  ghost predicate PassedOver(s: State, own: string, run: seq<Action>, id: string) {
    forall k {:trigger run[..k]} :: 0 <= k <= |run| ==>
      var waiting := After(s, own, run[..k]).node.waiting;
      id in waiting && (k < |run| && run[k].Ask? ==> waiting[0] != id)
  }

  lemma PassedOverNotServed(s: State, own: string, run: seq<Action>, id: string, r: nat, k: nat)
    requires PassedOver(s, own, run, id)
    ensures !ServedAt(s, own, run, id, r, k)
  {
    if k < |run| {
      assert run[..k] == run[..k] && run[..k + 1] == run[..k + 1];
    }
  }

  /** `id` waits, and at least `m` others wait before it. */
  ghost predicate Behind(waiting: seq<string>, id: string, m: nat) {
    id in waiting && m <= |waiting| && id !in waiting[..m]
  }

  /** A run so far that passes over `id`, and brings no news of it, and where it stands. */
  ghost predicate Passing(s: State, own: string, run: seq<Action>, id: string, m: nat) {
    && IsRun(s, own, run) && PassedOver(s, own, run, id) && NobodyBrings(own, run, id)
    && Behind(After(s, own, run).node.waiting, id, m)
  }

  lemma PassingExtends(s: State, own: string, run: seq<Action>, id: string, m: nat, a: Action, m': nat)
    returns (run': seq<Action>)
    requires Passing(s, own, run, id, m) && Enabled(After(s, own, run), a) && !Brings(own, a, id)
    requires a.Ask? ==> var waiting := After(s, own, run).node.waiting; waiting != [] && waiting[0] != id
    requires Behind(Next(After(s, own, run), own, a).node.waiting, id, m')
    ensures run' == run + [a] && Passing(s, own, run', id, m')
    ensures After(s, own, run') == Next(After(s, own, run), own, a)
    ensures Asks(run') == Asks(run) + (if a.Ask? then 1 else 0)
  {
    hide Next, Enabled, Brings, Behind, After, IsRun, PassedOver;
    run' := Extend(s, own, run, a);
    BehindWaits(After(s, own, run').node.waiting, id, m');
    PassedOverExtends(s, own, run, id, a);
    assert run'[..|run|] == run;
  }

  lemma PassedOverExtends(s: State, own: string, run: seq<Action>, id: string, a: Action)
    requires PassedOver(s, own, run, id) && id in After(s, own, run + [a]).node.waiting
    requires a.Ask? ==> var waiting := After(s, own, run).node.waiting; waiting != [] && waiting[0] != id
    ensures PassedOver(s, own, run + [a], id)
  {
    hide After;
    var run' := run + [a];
    assert run'[..|run'|] == run' && run[..|run|] == run;
    forall k | 0 <= k <= |run| ensures run'[..k] == run[..k] {}
  }

  lemma BehindWaits(waiting: seq<string>, id: string, m: nat)
    requires Behind(waiting, id, m)
    ensures id in waiting
  {}

  lemma OneFewerBefore(waiting: seq<string>, id: string, m: nat)
    requires Behind(waiting, id, m) && m > 0
    ensures waiting[0] != id && Behind(waiting[1..], id, m - 1)
  {
    assert waiting[0] in waiting[..m];
    assert waiting[..m] == [waiting[0]] + waiting[1..][..m - 1];
    assert waiting == [waiting[0]] + waiting[1..];
  }

  /** One more asking takes someone else; an answer that is outstanding before it may stay away. */
  lemma AskAnother(s: State, own: string, run: seq<Action>, id: string, m: nat) returns (run': seq<Action>)
    requires Passing(s, own, run, id, m) && m > 0
    ensures Passing(s, own, run', id, m - 1) && Asks(run') == Asks(run) + 1
  {
    hide IsRun, After, PassedOver, NobodyBrings;
    run' := run;
    if After(s, own, run).asked.Some? {
      run' := PassingExtends(s, own, run', id, m, Answer(None, _ => 0), m);
    }
    OneFewerBefore(After(s, own, run').node.waiting, id, m);
    run' := PassingExtends(s, own, run', id, m, Ask, m - 1);
  }

  lemma {:induction false} AskOthers(s: State, own: string, run: seq<Action>, id: string, m: nat)
    returns (run': seq<Action>)
    requires Passing(s, own, run, id, m)
    ensures Passing(s, own, run', id, 0) && Asks(run') == Asks(run) + m
    decreases m
  {
    hide Passing;
    run' := run;
    if m > 0 {
      run' := AskAnother(s, own, run, id, m);
      run' := AskOthers(s, own, run', id, m - 1);
    }
  }

  lemma {:induction false} LongerThanAll(ids: set<string>) returns (n: nat)
    ensures forall x :: x in ids ==> |x| < n
  {
    if ids == {} {
      n := 0;
    } else {
      var x :| x in ids;
      n := LongerThanAll(ids - {x});
      n := Max(n, |x| + 1);
    }
  }

  /** There is always a contact that the client has not heard of. */
  lemma SomeoneNew(s: State, own: string) returns (y: Identity)
    ensures WellFormed(y) && y.containerID != own
    ensures y.containerID !in s.node.view.registry && y.containerID !in s.node.waiting
  {
    var ids := s.node.view.registry.Keys + (set x | x in s.node.waiting) + {own};
    var n := LongerThanAll(ids);
    var id := seq(n + 1, _ => 'y');
    y := Identity("y", id, "y");
    assert |id| > n && id !in ids;
  }

  lemma OneNewContact(n: Node, own: string, y: Identity, times: nat -> int)
    requires WellFormed(y) && IsNews(n.view.registry, own, y) && y.containerID !in n.waiting
    ensures WithContacts(n, own, [y], times).waiting == n.waiting + [y.containerID]
  {
    var o := AfterAdd(n.view, y, times(0));
    assert [y][..0] == [] && WithContacts(n, own, [y][..0], times) == n;
    assert WithContacts(n, own, [y], times) == Managed(n, o);
    assert o.calls[..0] == [] && Notified(n.waiting, o.calls[..0]) == n.waiting;
  }

  /** The answer of a contact that waits again already: it brings a new contact, and the one that
      answered waits behind all others, the new one included. */
  lemma AnswerMovesBack(s: State, own: string, id: string, y: Identity, times: nat -> int)
    requires id in s.node.waiting && s.asked == Some(id)
    requires WellFormed(y) && y.containerID != own && y.containerID != id
    requires y.containerID !in s.node.view.registry && y.containerID !in s.node.waiting
    requires Distinct(s.node.waiting)
    ensures Behind(Next(s, own, Answer(Some([y]), times)).node.waiting, id, |s.node.waiting|)
  {
    OneNewContact(s.node, own, y, times);
    LastOfAll(s.node.waiting, y.containerID, id);
  }

  lemma LastOfAll(w: seq<string>, y: string, id: string)
    requires Distinct(w) && id in w && y != id
    ensures Behind(Drop(w + [y], id) + [id], id, |w|)
  {
    DropOne(w, id);
    var kept := Drop(w + [y], id);
    assert (w + [y])[..|w + [y]| - 1] == w;
    assert |kept| == |w|;
    assert (kept + [id])[..|w|] == kept && (kept + [id])[|w|] == id;
  }

  lemma {:induction false} DropOne(order: seq<string>, id: string)
    requires Distinct(order) && id in order
    ensures |Drop(order, id)| == |order| - 1
  {
    var n := |order| - 1;
    assert order == order[..n] + [order[n]];
    if order[n] == id {
      DropAbsent(order[..n], id);
    } else {
      DropOne(order[..n], id);
    }
  }

  lemma BringsOther(own: string, y: Identity, times: nat -> int, id: string)
    requires y.containerID != id
    ensures !Brings(own, Answer(Some([y]), times), id)
  {}

  lemma PassingStarts(s: State, own: string, id: string)
    requires id in s.node.waiting
    ensures Passing(s, own, [], id, 0) && Asks([]) == 0 && After(s, own, []) == s
  {}

  /** So there is a run in which more than `r` askings take others while it waits. */
  lemma Overtaken(s: State, own: string, id: string, r: nat) returns (run: seq<Action>)
    requires Distinct(s.node.waiting) && r < |s.node.waiting| && s.node.waiting[r] == id && s.asked == Some(id)
    ensures IsRun(s, own, run) && PassedOver(s, own, run, id) && NobodyBrings(own, run, id) && Asks(run) > r
    ensures id in After(s, own, run).node.waiting
  {
    var y := SomeoneNew(s, own);
    assert s.node.waiting[r] in s.node.waiting;
    var times := _ => 0;
    AnswerMovesBack(s, own, id, y, times);
    PassingStarts(s, own, id);
    BringsOther(own, y, times, id);
    run := PassingExtends(s, own, [], id, 0, Answer(Some([y]), times), |s.node.waiting|);
    run := AskOthers(s, own, run, id, |s.node.waiting|);
  }

  /** Whatever happens, by the (r+1)-th asking the id is asked or removed. */
  ghost predicate InTime(s: State, own: string, id: string, r: nat) {
    forall run: seq<Action> :: IsRun(s, own, run) && Asks(run) > r ==>
      exists k: nat :: ServedAt(s, own, run, id, r, k)
  }

  /** First in, first out, exactly: a contact with `r` others before it is always served in time, unless
      its own answer is outstanding while it waits. */
  lemma ServedInTimeExactly(s: State, own: string, id: string, r: nat)
    requires Distinct(s.node.waiting) && r < |s.node.waiting| && s.node.waiting[r] == id
    ensures InTime(s, own, id, r) <==> s.asked != Some(id)
  {
    if s.asked == Some(id) {
      var run := Overtaken(s, own, id, r);
      forall k: nat ensures !ServedAt(s, own, run, id, r, k) {
        PassedOverNotServed(s, own, run, id, r, k);
      }
    } else {
      forall run: seq<Action> | IsRun(s, own, run) && Asks(run) > r
        ensures exists k: nat :: ServedAt(s, own, run, id, r, k)
      {
        var k := AskedOrRemoved(s, own, run, id, r);
      }
    }
  }

  /** Whatever happens, by the (r+1)-th asking the id is gone, unless someone brings it. */
  ghost predicate DropsOut(s: State, own: string, id: string, r: nat) {
    forall run: seq<Action> :: IsRun(s, own, run) && NobodyBrings(own, run, id) && Asks(run) > r ==>
      Out(After(s, own, run), id)
  }

  /** The same for ids that are not registered, as after a clear. */
  lemma DropsOutExactly(s: State, own: string, id: string, r: nat)
    requires Distinct(s.node.waiting) && r < |s.node.waiting| && s.node.waiting[r] == id
    requires id !in s.node.view.registry
    ensures DropsOut(s, own, id, r) <==> s.asked != Some(id)
  {
    if s.asked == Some(id) {
      var run := Overtaken(s, own, id, r);
      assert !Out(After(s, own, run), id);
    } else {
      forall run: seq<Action> | IsRun(s, own, run) && NobodyBrings(own, run, id) && Asks(run) > r
        ensures Out(After(s, own, run), id)
      {
        UnregisteredDropsOut(s, own, run, id, r);
      }
    }
  }

  /** From an empty client: a contact is asked, and a health check makes it wait again, alone, before it
      has answered. */
  lemma WaitsWhileAsked() returns (own: string, start: State, before: seq<Action>)
    ensures own == "me" && start == State(Node(View(map[], map[]), []), None) && IsRun(start, own, before)
    ensures var x := Identity("x", "x", "x");
      After(start, own, before) == State(Node(View(map["x" := x], map["x" := 6]), ["x"]), Some("x"))
  {
    var x := Identity("x", "x", "x");
    own, start, before := "me", State(Node(View(map[], map[]), []), None), [];
    before := Extend(start, own, before, Add(x, 0));
    assert After(start, own, before) == State(Node(View(map["x" := x], map["x" := 0]), ["x"]), None);
    before := Extend(start, own, before, Ask);
    assert After(start, own, before) == State(Node(View(map["x" := x], map["x" := 0]), []), Some("x"));
    before := Extend(start, own, before, HealthCheck("x", 5, true, 6, 10, 2));
  }

  /** ... and then its answer brings another contact, and that one is asked first. */
  lemma OvertakenReachable() returns (own: string, start: State, before: seq<Action>, run: seq<Action>)
    ensures start == State(Node(View(map[], map[]), []), None) && IsRun(start, own, before)
    ensures var s := After(start, own, before);
      && s.node.waiting == ["x"]
      && IsRun(s, own, run) && Asks(run) == 1
      && forall k: nat :: !ServedAt(s, own, run, "x", 0, k)
  {
    hide After, IsRun, ServedAt, Next, Asks;
    own, start, before := WaitsWhileAsked();
    var s := After(start, own, before);
    run := OvertakenByOne(s, own, "x", Identity("y", "y", "y"));
    forall k: nat ensures !ServedAt(s, own, run, "x", 0, k) {
      PassedOverNotServed(s, own, run, "x", 0, k);
    }
  }

  lemma OvertakenByOne(s: State, own: string, id: string, y: Identity) returns (run: seq<Action>)
    requires s.node.waiting == [id] && s.asked == Some(id)
    requires WellFormed(y) && y.containerID != own && y.containerID != id && y.containerID !in s.node.view.registry
    ensures IsRun(s, own, run) && PassedOver(s, own, run, id) && Asks(run) == 1
    ensures |run| == 2 && run[0].Answer? && run[0].response == Some([y]) && run[1].Ask?
  {
    hide IsRun, After, PassedOver, NobodyBrings, Asks;
    var times := _ => 0;
    AnswerMovesBack(s, own, id, y, times);
    PassingStarts(s, own, id);
    BringsOther(own, y, times, id);
    run := PassingExtends(s, own, [], id, 0, Answer(Some([y]), times), 1);
    OneFewerBefore(After(s, own, run).node.waiting, id, 1);
    run := PassingExtends(s, own, run, id, 1, Ask, 0);
  }
}
