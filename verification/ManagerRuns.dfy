/** Whole runs of the membership manager whose operations do not overlap: where queue entries come
    from, and how old they can get. */
module ManagerRuns {
  import opened Common
  import opened Membership

  datatype Action =
    | Tick(delay: nat)
    | Add(identity: Identity)
    | Remove(id: string)
    | Clear
    | HealthCheck(id: string, pingOk: bool, delay: nat)
    | Cleanup
    | Configure(maxAge: int, minAge: int)

  datatype State = State(view: View, now: int, maxAge: int, minAge: int)

  function Next(s: State, a: Action): (r: State) {
    match a
    case Tick(d) => s.(now := s.now + d)
    case Add(identity) => s.(view := AfterAdd(s.view, identity, s.now).view)
    case Remove(id) => s.(view := AfterRemove(s.view, id).view)
    case Clear => s.(view := View(map[], map[]))
    case HealthCheck(id, pingOk, d) =>
      s.(view := AfterHealthCheck(s.view, id, s.now, pingOk, s.now + d, s.maxAge, s.minAge).view, now := s.now + d)
    case Cleanup => s.(view := s.view.(queue := FreshEntries(s.view.queue, s.now - s.maxAge)))
    case Configure(maxAge, minAge) => s.(maxAge := maxAge, minAge := minAge)
  }

  function After(s: State, run: seq<Action>): (r: State) {
    if run == [] then s else Next(After(s, run[..|run| - 1]), run[|run| - 1])
  }

  /** A manager as it starts: any registry from disk, an empty liveness queue. */
  ghost predicate Initial(s: State) {
    s.view.queue == map[] && KeyedById(s.view.registry)
  }

  /** The action shows at time `p` that the client was there: it was added, or it answered. */
  ghost predicate Confirms(s: State, a: Action, id: string, p: int) {
    match a
    case Add(identity) => WellFormed(identity) && identity.containerID == id && p == s.now
    case HealthCheck(checked, pingOk, d) =>
      && checked == id && p == s.now + d && IsAlive(s.view, id, pingOk)
      && (id in s.view.queue ==> s.minAge <= s.now - s.view.queue[id] <= s.maxAge)
    case _ => false
  }

  /** The step `k` of the run is the latest one that confirmed `id`, and it did so at time `p`. */
  ghost predicate LastConfirmed(s: State, run: seq<Action>, id: string, p: int, k: nat) {
    && k < |run| && Confirms(After(s, run[..k]), run[k], id, p)
    && forall j, q :: k < j < |run| ==> !Confirms(After(s, run[..j]), run[j], id, q)
  }

  /** What every state of every run keeps. */
  ghost predicate Sound(s: State) {
    && s.view.queue.Keys <= s.view.registry.Keys
    && KeyedById(s.view.registry)
    && forall id :: id in s.view.queue ==> s.view.queue[id] <= s.now
  }

  lemma NextKeepsSound(s: State, a: Action)
    requires Sound(s)
    ensures Sound(Next(s, a)) && s.now <= Next(s, a).now
  {}

  lemma {:induction false} RunsAreSound(s: State, run: seq<Action>)
    requires Sound(s)
    ensures Sound(After(s, run)) && s.now <= After(s, run).now
  {
    if run != [] {
      RunsAreSound(s, run[..|run| - 1]);
      NextKeepsSound(After(s, run[..|run| - 1]), run[|run| - 1]);
    }
  }

  /** Every queue entry carries the time of the latest evidence that its client was there. */
  lemma {:induction false} EntriesAreEvidence(s: State, run: seq<Action>, id: string) returns (k: nat)
    requires Initial(s) && id in After(s, run).view.queue
    ensures LastConfirmed(s, run, id, After(s, run).view.queue[id], k)
  {
    var n := |run| - 1;
    var before := After(s, run[..n]);
    var p := After(s, run).view.queue[id];
    if Confirms(before, run[n], id, p) {
      k := n;
    } else {
      assert id in before.view.queue && before.view.queue[id] == p;
      k := EntriesAreEvidence(s, run[..n], id);
      forall j | 0 <= j < n ensures run[..n][..j] == run[..j] && run[..n][j] == run[j] {}
      assert forall q :: !Confirms(before, run[n], id, q);
    }
  }

  /** An entry is kept, or it is as new as the step itself. */
  lemma NextKeepsOrRenews(s: State, a: Action, id: string)
    requires id in Next(s, a).view.queue
    ensures var p := Next(s, a).view.queue[id];
      (id in s.view.queue && s.view.queue[id] == p) || p >= s.now
  {}

  lemma {:induction false} ClockAdvances(s: State, run: seq<Action>, k: nat)
    requires k <= |run|
    ensures After(s, run[..k]).now <= After(s, run).now
  {
    if k == |run| {
      assert run[..k] == run;
    } else {
      assert run[..|run| - 1][..k] == run[..k];
      ClockAdvances(s, run[..|run| - 1], k);
    }
  }

  /** The staleness bound: however the run went on after a cleanup at time L with maximum age M,
      no entry is older than M plus the time since L. */
  lemma {:induction false} StalenessBound(s: State, run: seq<Action>, k: nat, id: string)
    requires k < |run| && run[k] == Cleanup
    requires id in After(s, run).view.queue
    ensures var swept, end := After(s, run[..k]), After(s, run);
      end.now - end.view.queue[id] <= Max(swept.maxAge, 0) + (end.now - swept.now)
  {
    var n := |run| - 1;
    if k < n {
      var before := After(s, run[..n]);
      assert run[..n][..k] == run[..k] && run[..n][k] == run[k];
      ClockAdvances(s, run[..n], k);
      NextKeepsOrRenews(before, run[n], id);
      if id in before.view.queue && before.view.queue[id] == After(s, run).view.queue[id] {
        StalenessBound(s, run[..n], k, id);
      }
    }
  }

  /** A cleaned-up entry does not come back on its own: only evidence puts an id into the queue. */
  lemma {:induction false} NoEntryWithoutEvidence(s: State, run: seq<Action>, id: string)
    requires id !in s.view.queue
    requires forall j, q :: 0 <= j < |run| ==> !Confirms(After(s, run[..j]), run[j], id, q)
    ensures id !in After(s, run).view.queue
  {
    if run != [] {
      var n := |run| - 1;
      forall j, q | 0 <= j < n ensures !Confirms(After(s, run[..n][..j]), run[..n][j], id, q) {
        assert run[..n][..j] == run[..j];
      }
      NoEntryWithoutEvidence(s, run[..n], id);
      var before := After(s, run[..n]);
      if id in After(s, run).view.queue {
        assert Confirms(before, run[n], id, After(s, run).view.queue[id]);
        assert false;
      }
    }
  }

  // ----- Entry by entry -----

  /** Evidence puts the id into the queue with the time of that evidence, at once. */
  lemma ConfirmedIsQueued(s: State, a: Action, id: string, p: int)
    requires Confirms(s, a, id, p)
    ensures id in Next(s, a).view.queue && Next(s, a).view.queue[id] == p
  {}

  /** Exactly when an id leaves the queue: it is removed, the manager is cleared, a cleanup or a health
      check finds it older than the limit, measured when they start, or a health check of an entry that is
      due does not find it registered, with a host name, and answering. */
  lemma LeavesQueueExactly(s: State, a: Action, id: string)
    requires id in s.view.queue
    ensures var age := s.now - s.view.queue[id];
      id !in Next(s, a).view.queue <==>
        match a
        case Remove(x) => x == id
        case Clear => true
        case Cleanup => age > s.maxAge
        case HealthCheck(x, pingOk, _) =>
          x == id && (age > s.maxAge || (age >= s.minAge
            && !(id in s.view.registry && s.view.registry[id].hostname != "" && pingOk)))
        case _ => false
  {}

  /** Exactly when an entry changes or appears: by an add, or by a health check, of an entry that is due or
      missing, that finds the client registered, with a host name, and answering; the new priority is the
      time of the add, or of the answer. */
  lemma QueuedExactly(s: State, a: Action, id: string, p: int)
    requires id in s.view.queue ==> s.view.queue[id] != p
    ensures id in Next(s, a).view.queue && Next(s, a).view.queue[id] == p <==>
      match a
      case Add(x) => x.containerID == id && id != "" && x.name != "" && p == s.now
      case HealthCheck(x, pingOk, d) =>
        && x == id && p == s.now + d && pingOk
        && id in s.view.registry && s.view.registry[id].hostname != ""
        && (id in s.view.queue ==> s.minAge <= s.now - s.view.queue[id] <= s.maxAge)
      case _ => false
  {}

  /** Exactly when an id leaves the registry: it is removed, the manager is cleared, or a health check, of an
      entry that is due or missing, does not find it with a host name and answering. */
  lemma LeavesRegistryExactly(s: State, a: Action, id: string)
    requires id in s.view.registry
    ensures id !in Next(s, a).view.registry <==>
      match a
      case Remove(x) => x == id
      case Clear => true
      case HealthCheck(x, pingOk, _) =>
        && x == id && !(s.view.registry[id].hostname != "" && pingOk)
        && (id in s.view.queue ==> s.minAge <= s.now - s.view.queue[id] <= s.maxAge)
      case _ => false
  {}

  /** Exactly when an identity enters the registry: it is added, with an id and a name. */
  lemma RegisteredExactly(s: State, a: Action, id: string, x: Identity)
    requires id in s.view.registry ==> s.view.registry[id] != x
    ensures id in Next(s, a).view.registry && Next(s, a).view.registry[id] == x
      <==> a == Add(x) && x.containerID == id && id != "" && x.name != ""
  {}

  /** Everyone is registered under an id and with a name, and everyone queued has an id. */
  ghost predicate Named(v: View) {
    && (forall id :: id in v.registry ==> id != "" && v.registry[id].name != "")
    && "" !in v.queue
  }

  lemma {:induction false} RunsStayNamed(s: State, run: seq<Action>)
    requires Named(s.view)
    ensures Named(After(s, run).view)
  {
    if run != [] {
      RunsStayNamed(s, run[..|run| - 1]);
    }
  }

  /** No run registers or queues the empty id, whatever the registry file held otherwise. */
  lemma {:induction false} EmptyIdNeverEnters(s: State, run: seq<Action>)
    requires "" !in s.view.registry
    ensures "" !in After(s, run).view.registry
    ensures "" !in s.view.queue ==> "" !in After(s, run).view.queue
  {
    if run != [] {
      EmptyIdNeverEnters(s, run[..|run| - 1]);
    }
  }
}
