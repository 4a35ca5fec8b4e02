/** What each operation of the membership manager does to the pair (registry, liveness queue), with
    the callbacks it makes. Times are microseconds since the manager started. */
module Membership {
  import opened Common
  import opened Sampling

  datatype Identity = Identity(name: string, containerID: string, hostname: string)

  predicate WellFormed(identity: Identity) {
    identity.containerID != "" && identity.name != ""
  }

  datatype View = View(registry: map<string, Identity>, queue: map<string, int>)

  /** A callback invocation: an id entered or left the liveness queue with this priority. */
  datatype Call = Added(id: string, priority: int) | Removed(id: string, priority: int)

  datatype Outcome = Outcome(view: View, calls: seq<Call>)

  function AfterAdd(v: View, identity: Identity, now: int): (r: Outcome) {
    var id := identity.containerID;
    if WellFormed(identity) then Outcome(View(v.registry[id := identity], v.queue[id := now]), [Added(id, now)])
    else Outcome(v, [])
  }

  function RemovalCalls(v: View, id: string): (r: seq<Call>) {
    if id in v.queue then [Removed(id, v.queue[id])] else []
  }

  function AfterRemove(v: View, id: string): (r: Outcome) {
    Outcome(View(v.registry - {id}, v.queue - {id}), RemovalCalls(v, id))
  }

  /** Whether the alive check can succeed: registered, with a host name, and the ping is answered. */
  predicate IsAlive(v: View, id: string, pingOk: bool) {
    id in v.registry && v.registry[id].hostname != "" && pingOk
  }

  function AfterProbe(v: View, id: string, pingOk: bool, answered: int): (r: Outcome) {
    if IsAlive(v, id, pingOk) then Outcome(v.(queue := v.queue[id := answered]), [Added(id, answered)])
    else AfterRemove(v, id)
  }

  /** A health check that reads the clock at `started` and again at `answered`. */
  function AfterHealthCheck(v: View, id: string, started: int, pingOk: bool, answered: int, maxAge: int, minAge: int)
    : (r: Outcome)
  {
    if id in v.queue && started - v.queue[id] > maxAge then
      Outcome(v.(queue := v.queue - {id}), RemovalCalls(v, id))
    else if id in v.queue && started - v.queue[id] < minAge then
      Outcome(v, [])
    else
      AfterProbe(v, id, pingOk, answered)
  }

  /** The three outcomes of a health check: too old, too new, and due, which is refreshed or dropped. */
  lemma HealthCheckMeans(v: View, id: string, started: int, pingOk: bool, answered: int, maxAge: int, minAge: int)
    ensures var r := AfterHealthCheck(v, id, started, pingOk, answered, maxAge, minAge);
      var tooOld := id in v.queue && started - v.queue[id] > maxAge;
      var tooNew := id in v.queue && !tooOld && started - v.queue[id] < minAge;
      var alive := id in v.registry && v.registry[id].hostname != "" && pingOk;
      && (tooOld ==> r == Outcome(View(v.registry, v.queue - {id}), [Removed(id, v.queue[id])]))
      && (tooNew ==> r == Outcome(v, []))
      && (!tooOld && !tooNew && alive ==>
        r == Outcome(View(v.registry, v.queue[id := answered]), [Added(id, answered)]))
      && (!tooOld && !tooNew && !alive ==>
        r == Outcome(View(v.registry - {id}, v.queue - {id}),
                     if id in v.queue then [Removed(id, v.queue[id])] else []))
  {}

  function FreshEntries(queue: map<string, int>, cutoff: int): (r: map<string, int>) {
    map id | id in queue && queue[id] >= cutoff :: queue[id]
  }

  ghost predicate Mentions(calls: seq<Call>, id: string) {
    exists i :: 0 <= i < |calls| && calls[i].id == id
  }

  /** The callbacks of a cleanup pass report exactly the stale ids. */
  ghost predicate ReportsStale(queue: map<string, int>, calls: seq<Call>, cutoff: int) {
    && (forall i :: 0 <= i < |calls| ==> calls[i].Removed? && calls[i].id in queue && queue[calls[i].id] < cutoff)
    && (forall id :: id in queue && queue[id] < cutoff ==> Mentions(calls, id))
  }

  /** Every registry key is the container id of its identity. */
  ghost predicate KeyedById(registry: map<string, Identity>) {
    forall id :: id in registry ==> registry[id].containerID == id
  }

  /** The identities of the ids that are registered, in order. */
  function Lookups(registry: map<string, Identity>, ids: seq<string>): (r: seq<Identity>)
    ensures |r| <= |ids|
  {
    if ids == [] then []
    else
      var n := |ids| - 1;
      Lookups(registry, ids[..n]) + (if ids[n] in registry then [registry[ids[n]]] else [])
  }

  /** A random subset of the manager: a sample of the queued ids, of which the registered ones count. */
  function Subset(registry: map<string, Identity>, queued: seq<string>, size: int, draws: seq<nat>)
    : (r: Option<seq<Identity>>)
  {
    var ids := Sample(queued, size, draws);
    if ids.None? then None else Some(Lookups(registry, ids.value))
  }

  ghost predicate DistinctIds(identities: seq<Identity>) {
    forall i, j :: 0 <= i < j < |identities| ==> identities[i].containerID != identities[j].containerID
  }

  lemma {:induction false} LookupsSound(registry: map<string, Identity>, ids: seq<string>)
    requires KeyedById(registry) && Distinct(ids)
    ensures var r := Lookups(registry, ids);
      && DistinctIds(r)
      && (forall x :: x in r ==> x.containerID in registry && registry[x.containerID] == x && x.containerID in ids)
      && (forall id :: id in ids && id in registry ==> registry[id] in r)
  {
    if ids != [] {
      var n := |ids| - 1;
      LookupsSound(registry, ids[..n]);
      assert ids == ids[..n] + [ids[n]];
      var before := Lookups(registry, ids[..n]);
      forall i | 0 <= i < |before| ensures before[i].containerID != ids[n] {
        assert before[i] in before;
      }
    }
  }

  /** An answer to a request for `n` clients: the registered identities, and all of them, of exactly `n`
      different queued ids, or of all if there are fewer. */
  ghost predicate IsAnswer(v: View, n: int, answer: seq<Identity>, ids: seq<string>) {
    && |ids| == Min(Max(n, 0), |v.queue|) && Distinct(ids) && (forall id :: id in ids ==> id in v.queue)
    && DistinctIds(answer)
    && forall x :: x in answer <==>
      x.containerID in ids && x.containerID in v.registry && v.registry[x.containerID] == x
  }

  lemma {:induction false} LookupsComplete(registry: map<string, Identity>, ids: seq<string>)
    requires forall id :: id in ids ==> id in registry
    ensures |Lookups(registry, ids)| == |ids|
  {
    if ids != [] {
      LookupsComplete(registry, ids[..|ids| - 1]);
    }
  }

  lemma LookupsAnswer(v: View, n: int, ids: seq<string>)
    requires |ids| == Min(Max(n, 0), |v.queue|) && Distinct(ids) && forall id :: id in ids ==> id in v.queue
    ensures KeyedById(v.registry) ==> IsAnswer(v, n, Lookups(v.registry, ids), ids)
    ensures v.queue.Keys <= v.registry.Keys ==> |Lookups(v.registry, ids)| == Min(Max(n, 0), |v.queue|)
  {
    if KeyedById(v.registry) {
      LookupsSound(v.registry, ids);
    }
    if v.queue.Keys <= v.registry.Keys {
      LookupsComplete(v.registry, ids);
    }
  }
}
