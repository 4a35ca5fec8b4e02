/** The manager's callbacks under overlap. An operation that changed the liveness queue makes its callback
    in a step of its own, and goes on only after that; callbacks of different operations run in any order.
    Here the client's queue of contacts is changed by callbacks alone. */
module CallbackOrder {
  import opened Common
  import I = Interleaving
  import opened Listings
  import opened Membership
  import opened QueryOrder

  /** `pending` are the callbacks that operations still have to make. */
  datatype State = State(base: I.State, waiting: seq<string>, pending: map<nat, Call>)

  datatype Event = Base(e: I.Event) | Deliver(t: nat)

  /** The callback that a step of an operation is followed by. */
  function Emitted(sh: I.Shared, th: I.Thread, c: I.Choice): (r: Option<Call>) {
    match th
    case AddInsert(id, stamp) => Some(Added(id, stamp))
    case CheckInsert(id, stamp) => Some(Added(id, stamp))
    case RemoveQueued(id) => Removal(sh.queue, id)
    case Evict(id) => Removal(sh.queue, id)
    case DropQueued(id) => Removal(sh.queue, id)
    case CleanExtract(_) => Removal(sh.queue, c.pick)
    case _ => None
  }

  function Removal(queue: map<string, int>, id: string): (r: Option<Call>) {
    if id in queue then Some(Removed(id, queue[id])) else None
  }

  ghost predicate Enabled(s: State, e: Event) {
    match e
    case Base(b) => I.Enabled(s.base, b) && (b.Start? || b.Move? ==> b.t !in s.pending)
    case Deliver(t) => t in s.pending
  }

  ghost function Exec(s: State, e: Event): (r: State)
    requires Enabled(s, e)
  {
    match e
    case Base(b) =>
      var call := if b.Move? then Emitted(s.base.shared, s.base.threads[b.t], b.choice) else None;
      s.(base := I.Exec(s.base, b), pending := if call.Some? then s.pending[b.t := call.value] else s.pending)
    case Deliver(t) => s.(waiting := Notified(s.waiting, [s.pending[t]]), pending := s.pending - {t})
  }

  ghost predicate Step(s: State, e: Event, s': State) {
    Enabled(s, e) && s' == Exec(s, e)
  }

  ghost predicate IsRun(states: seq<State>, events: seq<Event>) {
    && |states| == |events| + 1
    && forall i :: 0 <= i < |events| ==> Step(states[i], events[i], states[i + 1])
  }

  ghost predicate Initial(s: State) {
    I.Initial(s.base) && s.waiting == [] && s.pending == map[]
  }

  lemma Extend(states: seq<State>, events: seq<Event>, e: Event) returns (states': seq<State>, events': seq<Event>)
    requires IsRun(states, events) && Enabled(states[|states| - 1], e)
    ensures states' == states + [Exec(states[|states| - 1], e)] && events' == events + [e]
    ensures IsRun(states', events')
  {
    states', events' := states + [Exec(states[|states| - 1], e)], events + [e];
  }

  // ----- Made at once, the callbacks have the effect of the atomic operations -----

  ghost function NodeOf(s: State): (n: Node) {
    Node(I.ViewOf(s.base.shared), s.waiting)
  }

  /** An add is complete except for its callback. */
  lemma UnreportedAdd(states0: seq<State>, events0: seq<Event>, x: Identity, t: nat)
    returns (states: seq<State>, events: seq<Event>)
    requires IsRun(states0, events0) && WellFormed(x)
    requires var s := states0[|states0| - 1]; t !in s.base.threads && t !in s.pending
    ensures IsRun(states, events) && states[0] == states0[0]
    ensures var s, id := states0[|states0| - 1], x.containerID;
      var sh := s.base.shared;
      states[|states| - 1] == State(
        I.State(sh.(registry := sh.registry[id := x], queue := sh.queue[id := sh.now]), s.base.threads),
        s.waiting, s.pending[t := Added(id, sh.now)])
  {
    var go := I.Choice(true, "", []);
    states, events := Extend(states0, events0, Base(I.Start(t, I.AddPut(x))));
    states, events := Extend(states, events, Base(I.Move(t, go)));
    states, events := Extend(states, events, Base(I.Move(t, go)));
    states, events := Extend(states, events, Base(I.Move(t, go)));
    var before := states0[|states0| - 1].base.threads;
    assert before[t := I.AddPut(x)][t := I.AddStamp(x.containerID)] - {t} == before;
  }

  /** A removal is complete except for its callback, if it makes one. */
  lemma UnreportedRemoval(states0: seq<State>, events0: seq<Event>, id: string, t: nat)
    returns (states: seq<State>, events: seq<Event>)
    requires IsRun(states0, events0)
    requires var s := states0[|states0| - 1]; t !in s.base.threads && t !in s.pending
    ensures IsRun(states, events) && states[0] == states0[0]
    ensures var s := states0[|states0| - 1];
      var sh := s.base.shared;
      states[|states| - 1] == State(
        I.State(sh.(registry := sh.registry - {id}, queue := sh.queue - {id}), s.base.threads),
        s.waiting, if id in sh.queue then s.pending[t := Removed(id, sh.queue[id])] else s.pending)
  {
    var go := I.Choice(true, "", []);
    states, events := Extend(states0, events0, Base(I.Start(t, I.RemoveRegistered(id))));
    states, events := Extend(states, events, Base(I.Move(t, go)));
    states, events := Extend(states, events, Base(I.Move(t, go)));
  }

  lemma AddDeliveredAtOnce(s: State, x: Identity, t: nat) returns (states: seq<State>, events: seq<Event>)
    requires WellFormed(x) && t !in s.base.threads && t !in s.pending
    ensures IsRun(states, events) && states[0] == s
    ensures var end := states[|states| - 1];
      && end.base.threads == s.base.threads && end.pending == s.pending
      && NodeOf(end) == Managed(NodeOf(s), AfterAdd(NodeOf(s).view, x, s.base.shared.now))
  {
    states, events := UnreportedAdd([s], [], x, t);
    states, events := Extend(states, events, Deliver(t));
  }

  lemma RemovalDeliveredAtOnce(s: State, id: string, t: nat) returns (states: seq<State>, events: seq<Event>)
    requires t !in s.base.threads && t !in s.pending
    ensures IsRun(states, events) && states[0] == s
    ensures var end := states[|states| - 1];
      && end.base.threads == s.base.threads && end.pending == s.pending
      && NodeOf(end) == Managed(NodeOf(s), AfterRemove(NodeOf(s).view, id))
  {
    states, events := UnreportedRemoval([s], [], id, t);
    if id in s.base.shared.queue {
      states, events := Extend(states, events, Deliver(t));
    }
  }

  // ----- Queued, but not waiting -----

  ghost predicate Coming(s: State, id: string) {
    exists t :: t in s.pending && s.pending[t].Added? && s.pending[t].id == id
  }

  ghost predicate Going(s: State, id: string) {
    exists t :: t in s.pending && s.pending[t].Removed? && s.pending[t].id == id
  }

  /** If the id is in the liveness queue, it waits to be asked, or the callback that makes it wait is
      still to come. */
  ghost predicate Informed(s: State, id: string) {
    id in s.base.shared.queue ==> id in s.waiting || Coming(s, id)
  }

  /** The callback of a removal runs when the id is in the liveness queue again, and no callback that makes
      it wait is still to come. */
  ghost predicate Misinforms(s: State, e: Event, id: string) {
    && e.Deliver? && e.t in s.pending && s.pending[e.t].Removed? && s.pending[e.t].id == id
    && id in s.base.shared.queue && !Coming(s, id)
  }

  lemma Delivered(waiting: seq<string>, call: Call, id: string)
    ensures id in Notified(waiting, [call]) <==>
      if call.id == id then call.Added? else id in waiting
  {
    assert [call][..0] == [] && Notified(waiting, []) == waiting;
    if call.Added? && call.id !in waiting {
      assert (waiting + [call.id])[|waiting|] == call.id;
    }
  }

  lemma PendingGrows(s: State, b: I.Event, s': State)
    requires Step(s, Base(b), s')
    ensures forall t :: t in s.pending ==> t in s'.pending && s'.pending[t] == s.pending[t]
    ensures forall t :: t in s'.pending && t !in s.pending ==>
      && b.Move? && t == b.t && b.t in s.base.threads
      && Emitted(s.base.shared, s.base.threads[t], b.choice) == Some(s'.pending[t])
  {}

  lemma DeliveryKeepsOthers(s: State, t: nat, s': State, id: string)
    requires Step(s, Deliver(t), s')
    ensures Coming(s', id) ==> Coming(s, id)
    ensures Going(s', id) ==> Going(s, id)
    ensures Coming(s, id) && !(s.pending[t].Added? && s.pending[t].id == id) ==> Coming(s', id)
    ensures Going(s, id) && !(s.pending[t].Removed? && s.pending[t].id == id) ==> Going(s', id)
  {
    if u :| u in s'.pending && s'.pending[u].Added? && s'.pending[u].id == id {
      assert u in s.pending && s.pending[u].Added? && s.pending[u].id == id;
    }
    if u :| u in s'.pending && s'.pending[u].Removed? && s'.pending[u].id == id {
      assert u in s.pending && s.pending[u].Removed? && s.pending[u].id == id;
    }
    if Coming(s, id) && !(s.pending[t].Added? && s.pending[t].id == id) {
      var u :| u in s.pending && s.pending[u].Added? && s.pending[u].id == id;
      assert u in s'.pending && s'.pending[u].Added?;
    }
    if Going(s, id) && !(s.pending[t].Removed? && s.pending[t].id == id) {
      var u :| u in s.pending && s.pending[u].Removed? && s.pending[u].id == id;
      assert u in s'.pending && s'.pending[u].Removed?;
    }
  }

  lemma ChangeIsEmitted(sh: I.Shared, th: I.Thread, c: I.Choice, id: string)
    ensures var queue, call := I.Act(sh, th, c).0.queue, Emitted(sh, th, c);
      && (id in queue && id !in sh.queue ==> call.Some? && call.value.Added? && call.value.id == id)
      && (id in sh.queue && id !in queue && !th.ClearQueue? ==>
        call.Some? && call.value.Removed? && call.value.id == id)
      && (call.Some? && call.value.Removed? && call.value.id == id ==> id in sh.queue)
      && (th.ClearQueue? ==> queue == map[] && call.None?)
  {}

  /** An id that enters the liveness queue has its callback coming, and one that leaves has it coming
      unless the queue was cleared. */
  lemma QueueChangeIsPending(s: State, b: I.Event, s': State, id: string)
    requires Step(s, Base(b), s')
    ensures id in s'.base.shared.queue && id !in s.base.shared.queue ==> Coming(s', id)
    ensures id in s.base.shared.queue && id !in s'.base.shared.queue && !Clears(s, b) ==> Going(s', id)
    ensures Coming(s, id) ==> Coming(s', id)
    ensures Going(s, id) ==> Going(s', id)
    ensures Going(s', id) && !Going(s, id) ==> id in s.base.shared.queue
    ensures Clears(s, b) ==> s'.base.shared.queue == map[] && s'.pending == s.pending
  {
    hide Emitted, I.Act;
    PendingGrows(s, b, s');
    if b.Move? {
      ChangeIsEmitted(s.base.shared, s.base.threads[b.t], b.choice, id);
      if Emitted(s.base.shared, s.base.threads[b.t], b.choice).Some? {
        assert b.t in s'.pending;
      }
    }
    if t :| t in s.pending && s.pending[t].Added? && s.pending[t].id == id {
      assert t in s'.pending && s'.pending[t].Added?;
    }
    if t :| t in s.pending && s.pending[t].Removed? && s.pending[t].id == id {
      assert t in s'.pending && s'.pending[t].Removed?;
    }
  }

  ghost predicate Clears(s: State, b: I.Event) {
    b.Move? && b.t in s.base.threads && s.base.threads[b.t].ClearQueue?
  }

  /** Exactly such a callback leaves a queued id that does not wait. */
  lemma InformedExactly(s: State, e: Event, s': State, id: string)
    requires Step(s, e, s') && Informed(s, id)
    ensures Informed(s', id) <==> !Misinforms(s, e, id)
  {
    match e
    case Base(b) => QueueChangeIsPending(s, b, s', id);
    case Deliver(t) =>
      DeliveryKeepsOthers(s, t, s', id);
      Delivered(s.waiting, s.pending[t], id);
  }

  lemma {:induction false} InformedUntil(states: seq<State>, events: seq<Event>, id: string, n: nat)
    requires IsRun(states, events) && Initial(states[0]) && n < |states|
    requires forall i :: 0 <= i < n ==> !Misinforms(states[i], events[i], id)
    ensures Informed(states[n], id)
  {
    hide Step, Misinforms;
    if n > 0 {
      InformedUntil(states, events, id, n - 1);
      InformedExactly(states[n - 1], events[n - 1], states[n], id);
    }
  }

  /** Over every run: a queued id waits, or will when its callback comes, all along, exactly if no removal's
      callback comes too late. */
  lemma RunsInformExactly(states: seq<State>, events: seq<Event>, id: string)
    requires IsRun(states, events) && Initial(states[0])
    ensures (forall n :: 0 <= n < |states| ==> Informed(states[n], id))
      <==> (forall i :: 0 <= i < |events| ==> !Misinforms(states[i], events[i], id))
  {
    hide Step, Misinforms, Informed, Initial;
    if forall n :: 0 <= n < |states| ==> Informed(states[n], id) {
      forall i | 0 <= i < |events| ensures !Misinforms(states[i], events[i], id) {
        assert Informed(states[i], id) && Informed(states[i + 1], id);
        InformedExactly(states[i], events[i], states[i + 1], id);
      }
    } else {
      var n :| 0 <= n < |states| && !Informed(states[n], id);
      if forall i :: 0 <= i < |events| ==> !Misinforms(states[i], events[i], id) {
        InformedUntil(states, events, id, n);
      }
    }
  }

  // ----- Waiting, but not queued -----

  /** If the id waits, it is in the liveness queue, or the callback that ends its waiting is to come. */
  ghost predicate Justified(s: State, id: string) {
    id in s.waiting ==> id in s.base.shared.queue || Going(s, id)
  }

  /** The callback of an add runs when the id has left the liveness queue and no callback that ends its
      waiting is to come; or the queue is cleared while the id waits. */
  ghost predicate Misleads(s: State, e: Event, id: string) {
    match e
    case Base(b) => Clears(s, b) && id in s.waiting && !Going(s, id)
    case Deliver(t) =>
      && t in s.pending && s.pending[t].Added? && s.pending[t].id == id
      && id !in s.base.shared.queue && !Going(s, id)
  }

  /** Exactly such steps leave a waiting id that is not queued. */
  lemma JustifiedExactly(s: State, e: Event, s': State, id: string)
    requires Step(s, e, s') && Justified(s, id)
    ensures Justified(s', id) <==> !Misleads(s, e, id)
  {
    match e
    case Base(b) => QueueChangeIsPending(s, b, s', id);
    case Deliver(t) =>
      DeliveryKeepsOthers(s, t, s', id);
      Delivered(s.waiting, s.pending[t], id);
  }

  lemma {:induction false} JustifiedUntil(states: seq<State>, events: seq<Event>, id: string, n: nat)
    requires IsRun(states, events) && Initial(states[0]) && n < |states|
    requires forall i :: 0 <= i < n ==> !Misleads(states[i], events[i], id)
    ensures Justified(states[n], id)
  {
    hide Step, Misleads;
    if n > 0 {
      JustifiedUntil(states, events, id, n - 1);
      JustifiedExactly(states[n - 1], events[n - 1], states[n], id);
    }
  }

  /** Over every run: a waiting id is queued, or will stop waiting when its callback comes, all along,
      exactly if no add's callback comes too late and the manager is not cleared while the id waits. */
  lemma RunsJustifyExactly(states: seq<State>, events: seq<Event>, id: string)
    requires IsRun(states, events) && Initial(states[0])
    ensures (forall n :: 0 <= n < |states| ==> Justified(states[n], id))
      <==> (forall i :: 0 <= i < |events| ==> !Misleads(states[i], events[i], id))
  {
    hide Step, Misleads, Justified, Initial;
    if forall n :: 0 <= n < |states| ==> Justified(states[n], id) {
      forall i | 0 <= i < |events| ensures !Misleads(states[i], events[i], id) {
        assert Justified(states[i], id) && Justified(states[i + 1], id);
        JustifiedExactly(states[i], events[i], states[i + 1], id);
      }
    } else {
      var n :| 0 <= n < |states| && !Justified(states[n], id);
      if forall i :: 0 <= i < |events| ==> !Misleads(states[i], events[i], id) {
        JustifiedUntil(states, events, id, n);
      }
    }
  }

  // ----- Both happen -----

  ghost predicate AtRest(s: State) {
    s.base.threads == map[] && s.pending == map[]
  }

  lemma EmptyStart() returns (s: State)
    ensures Initial(s) && AtRest(s) && s.base.shared == I.Shared(map[], map[], 0, 5, 1)
  {
    s := State(I.State(I.Shared(map[], map[], 0, 5, 1), map[]), [], map[]);
  }

  /** A removal and a new add of the same client overlap, and the add's callback runs first: when all is
      done, the client is registered and queued, and does not wait to be asked. */
  lemma QueuedNotWaiting() returns (states: seq<State>, events: seq<Event>)
    ensures IsRun(states, events) && Initial(states[0])
    ensures var s := states[|states| - 1];
      AtRest(s) && "x" in s.base.shared.registry && "x" in s.base.shared.queue && "x" !in s.waiting
  {
    var x := Identity("x", "x", "x");
    var start := EmptyStart();
    states, events := UnreportedAdd([start], [], x, 0);
    Delivered([], Added("x", 0), "x");
    states, events := Extend(states, events, Deliver(0));
    states, events := UnreportedRemoval(states, events, "x", 1);
    states, events := UnreportedAdd(states, events, x, 2);
    states, events := Extend(states, events, Deliver(2));
    Delivered(states[|states| - 1].waiting, Removed("x", 0), "x");
    states, events := Extend(states, events, Deliver(1));
    assert states[|states| - 1].pending == map[];
  }

  /** An add and a removal of the same client overlap, and the removal's callback runs first: when all is
      done, the client waits to be asked, and is neither registered nor queued. */
  lemma WaitingNotQueued() returns (states: seq<State>, events: seq<Event>)
    ensures IsRun(states, events) && Initial(states[0])
    ensures var s := states[|states| - 1];
      AtRest(s) && "x" !in s.base.shared.registry && "x" !in s.base.shared.queue && "x" in s.waiting
  {
    var x := Identity("x", "x", "x");
    var start := EmptyStart();
    states, events := UnreportedAdd([start], [], x, 0);
    states, events := UnreportedRemoval(states, events, "x", 1);
    states, events := Extend(states, events, Deliver(1));
    Delivered(states[|states| - 1].waiting, Added("x", 0), "x");
    states, events := Extend(states, events, Deliver(0));
    assert states[|states| - 1].pending == map[];
  }
}
