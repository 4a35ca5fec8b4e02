/** The membership manager with overlapping operations. Each call into the hash map or the priority
    queue, each clock reading and each ping is a step of its own, and any number of operations are
    under way at once. */
module Interleaving {
  import opened Common
  import opened Listings
  import opened Membership

  /** Where an operation stands. */
  datatype Thread =
    | AddPut(identity: Identity) | AddStamp(id: string) | AddInsert(id: string, stamp: int)
    | RemoveRegistered(id: string) | RemoveQueued(id: string)
    | ClearRegistry | ClearQueue
    | CheckStart(id: string) | CheckContains(id: string, started: int) | CheckAge(id: string, started: int)
    | CheckLimits(id: string, started: int, priority: int)
    | Evict(id: string) | Lookup(id: string) | Ping(id: string)
    | CheckStamp(id: string) | CheckInsert(id: string, stamp: int)
    | DropQueued(id: string) | DropRegistered(id: string)
    | CleanPeek(cutoff: int) | CleanExtract(cutoff: int)
    | SubsetDraw(size: int) | SubsetLookup(size: int, todo: seq<string>, found: seq<Identity>)
    | SubsetDone(size: int, found: seq<Identity>)

  datatype Shared = Shared(registry: map<string, Identity>, queue: map<string, int>, now: int, maxAge: int, minAge: int)

  datatype State = State(shared: Shared, threads: map<nat, Thread>)

  /** What a step leaves open: a ping's answer, which of several minimal entries is extracted, which
      ids are drawn. */
  datatype Choice = Choice(pingOk: bool, pick: string, ids: seq<string>)

  datatype Event =
    | Tick(delay: nat)
    | Configure(maxAge: int, minAge: int)
    | Start(t: nat, thread: Thread)
    | Move(t: nat, choice: Choice)

  /** How an operation can begin. A health check begins with an id picked from the registry. A cleanup
      pass reads the age limit and the clock at different times, so its cutoff may be anything. */
  ghost predicate CanStart(sh: Shared, th: Thread) {
    match th
    case AddPut(identity) => WellFormed(identity)
    case RemoveRegistered(_) => true
    case ClearRegistry => true
    case CheckStart(id) => id in sh.registry
    case CleanPeek(_) => true
    case SubsetDraw(_) => true
    case _ => false
  }

  ghost predicate Possible(sh: Shared, th: Thread, c: Choice) {
    match th
    case CleanExtract(_) => sh.queue != map[] ==> IsMinimal(sh.queue, c.pick)
    case SubsetDraw(size) =>
      && |c.ids| == Min(Max(size, 0), |sh.queue|) && Distinct(c.ids)
      && forall id :: id in c.ids ==> id in sh.queue
    case SubsetDone(_, _) => false
    case _ => true
  }

  /** The peek that ends a cleanup pass: nothing stale is left. */
  ghost predicate NothingStale(queue: map<string, int>, cutoff: int) {
    forall id :: id in queue ==> queue[id] >= cutoff
  }

  /** One step of an operation: the new shared state, and where the operation stands then. */
  ghost function Act(sh: Shared, th: Thread, c: Choice): (r: (Shared, Option<Thread>)) {
    match th
    case AddPut(identity) =>
      (sh.(registry := sh.registry[identity.containerID := identity]), Some(AddStamp(identity.containerID)))
    case AddStamp(id) => (sh, Some(AddInsert(id, sh.now)))
    case AddInsert(id, stamp) => (sh.(queue := sh.queue[id := stamp]), None)
    case RemoveRegistered(id) => (sh.(registry := sh.registry - {id}), Some(RemoveQueued(id)))
    case RemoveQueued(id) => (sh.(queue := sh.queue - {id}), None)
    case ClearRegistry => (sh.(registry := map[]), Some(ClearQueue))
    case ClearQueue => (sh.(queue := map[]), None)
    case CheckStart(id) => (sh, Some(CheckContains(id, sh.now)))
    case CheckContains(id, started) => (sh, Some(if id in sh.queue then CheckAge(id, started) else Lookup(id)))
    case CheckAge(id, started) =>
      (sh, Some(if id in sh.queue then CheckLimits(id, started, sh.queue[id]) else Lookup(id)))
    case CheckLimits(id, started, priority) =>
      if started - priority > sh.maxAge then (sh, Some(Evict(id)))
      else if started - priority < sh.minAge then (sh, None)
      else (sh, Some(Lookup(id)))
    case Evict(id) => (sh.(queue := sh.queue - {id}), None)
    case Lookup(id) => (sh, Some(if IsAlive(View(sh.registry, sh.queue), id, true) then Ping(id) else DropQueued(id)))
    case Ping(id) => (sh, Some(if c.pingOk then CheckStamp(id) else DropQueued(id)))
    case CheckStamp(id) => (sh, Some(CheckInsert(id, sh.now)))
    case CheckInsert(id, stamp) => (sh.(queue := sh.queue[id := stamp]), None)
    case DropQueued(id) => (sh.(queue := sh.queue - {id}), Some(DropRegistered(id)))
    case DropRegistered(id) => (sh.(registry := sh.registry - {id}), None)
    case CleanPeek(cutoff) => (sh, if NothingStale(sh.queue, cutoff) then None else Some(CleanExtract(cutoff)))
    case CleanExtract(cutoff) => (sh.(queue := sh.queue - {c.pick}), Some(CleanPeek(cutoff)))
    case SubsetDraw(size) => (sh, Some(SubsetLookup(size, c.ids, [])))
    case SubsetLookup(size, todo, found) =>
      if todo == [] then (sh, Some(SubsetDone(size, found)))
      else
        var more := if todo[0] in sh.registry then [sh.registry[todo[0]]] else [];
        (sh, Some(SubsetLookup(size, todo[1..], found + more)))
    case SubsetDone(_, _) => (sh, Some(th))
  }

  ghost predicate Enabled(s: State, e: Event) {
    match e
    case Tick(_) => true
    case Configure(_, _) => true
    case Start(t, th) => t !in s.threads && CanStart(s.shared, th)
    case Move(t, c) => t in s.threads && Possible(s.shared, s.threads[t], c)
  }

  ghost function Exec(s: State, e: Event): (r: State)
    requires Enabled(s, e)
  {
    match e
    case Tick(d) => s.(shared := s.shared.(now := s.shared.now + d))
    case Configure(maxAge, minAge) => s.(shared := s.shared.(maxAge := maxAge, minAge := minAge))
    case Start(t, th) => s.(threads := s.threads[t := th])
    case Move(t, c) =>
      var (sh, next) := Act(s.shared, s.threads[t], c);
      State(sh, if next.Some? then s.threads[t := next.value] else s.threads - {t})
  }

  ghost predicate Step(s: State, e: Event, s': State) {
    Enabled(s, e) && s' == Exec(s, e)
  }

  ghost predicate IsRun(states: seq<State>, events: seq<Event>) {
    && |states| == |events| + 1
    && forall i :: 0 <= i < |events| ==> Step(states[i], events[i], states[i + 1])
  }

  ghost predicate Initial(s: State) {
    s.threads == map[] && s.shared.queue == map[] && KeyedById(s.shared.registry)
  }

  // ----- Without interference the steps add up to the atomic operations -----

  /** At most `n` steps of one operation with nothing in between, except that `wait` passes while it waits
      for a ping. */
  ghost function Alone(sh: Shared, th: Option<Thread>, c: Choice, wait: nat, n: nat): (r: (Shared, Option<Thread>))
    decreases n
  {
    if th.None? || n == 0 then (sh, th)
    else
      var (sh', th') := Act(sh, th.value, c);
      Alone(if th.value.Ping? then sh'.(now := sh'.now + wait) else sh', th', c, wait, n - 1)
  }

  function ViewOf(sh: Shared): (r: View) {
    View(sh.registry, sh.queue)
  }

  lemma AddAlone(sh: Shared, identity: Identity, c: Choice, wait: nat)
    requires WellFormed(identity)
    ensures var (sh', th') := Alone(sh, Some(AddPut(identity)), c, wait, 3);
      th'.None? && ViewOf(sh') == AfterAdd(ViewOf(sh), identity, sh.now).view
  {}

  lemma RemoveAlone(sh: Shared, id: string, c: Choice, wait: nat)
    ensures var (sh', th') := Alone(sh, Some(RemoveRegistered(id)), c, wait, 2);
      th'.None? && ViewOf(sh') == AfterRemove(ViewOf(sh), id).view
  {}

  lemma ClearAlone(sh: Shared, c: Choice, wait: nat)
    ensures var (sh', th') := Alone(sh, Some(ClearRegistry), c, wait, 2);
      th'.None? && ViewOf(sh') == View(map[], map[])
  {}

  lemma DropAlone(sh: Shared, id: string, c: Choice, wait: nat, n: nat)
    requires n >= 2
    ensures Alone(sh, Some(DropQueued(id)), c, wait, n)
      == (sh.(registry := sh.registry - {id}, queue := sh.queue - {id}), None)
  {
    var queued := sh.(queue := sh.queue - {id});
    assert Alone(queued, Some(DropRegistered(id)), c, wait, n - 1)
      == Alone(queued.(registry := sh.registry - {id}), None, c, wait, n - 2);
  }

  lemma RefreshAlone(sh: Shared, id: string, c: Choice, wait: nat)
    ensures Alone(sh, Some(CheckStamp(id)), c, wait, 2) == (sh.(queue := sh.queue[id := sh.now]), None)
  {}

  lemma ProbeAlone(sh: Shared, id: string, c: Choice, wait: nat)
    ensures var (sh', th') := Alone(sh, Some(Lookup(id)), c, wait, 4);
      th'.None? && ViewOf(sh') == AfterProbe(ViewOf(sh), id, c.pingOk, sh.now + wait).view
  {
    var next := if IsAlive(ViewOf(sh), id, true) then Ping(id) else DropQueued(id);
    var waited := sh.(now := sh.now + wait);
    assert Alone(sh, Some(Lookup(id)), c, wait, 4) == Alone(sh, Some(next), c, wait, 3);
    if next.DropQueued? {
      DropAlone(sh, id, c, wait, 3);
    } else if c.pingOk {
      assert Alone(sh, Some(next), c, wait, 3) == Alone(waited, Some(CheckStamp(id)), c, wait, 2);
      RefreshAlone(waited, id, c, wait);
    } else {
      assert Alone(sh, Some(next), c, wait, 3) == Alone(waited, Some(DropQueued(id)), c, wait, 2);
      DropAlone(waited, id, c, wait, 2);
    }
  }

  /** The age is measured when the check starts, and a refreshed entry carries the time of the answer. */
  lemma HealthCheckAlone(sh: Shared, id: string, c: Choice, wait: nat) returns (n: nat)
    ensures var (sh', th') := Alone(sh, Some(CheckStart(id)), c, wait, n);
      && th'.None?
      && ViewOf(sh')
        == AfterHealthCheck(ViewOf(sh), id, sh.now, c.pingOk, sh.now + wait, sh.maxAge, sh.minAge).view
  {
    hide Alone, AfterProbe;
    n := if id in sh.queue then 8 else 6;
    AloneStep(sh, CheckStart(id), c, wait, n);
    AloneStep(sh, CheckContains(id, sh.now), c, wait, n - 1);
    ProbeAlone(sh, id, c, wait);
    if id in sh.queue {
      AloneStep(sh, CheckAge(id, sh.now), c, wait, 6);
      AloneStep(sh, CheckLimits(id, sh.now, sh.queue[id]), c, wait, 5);
      AloneStep(sh, Evict(id), c, wait, 4);
      AloneDone(sh, c, wait, 4);
      AloneDone(sh.(queue := sh.queue - {id}), c, wait, 3);
    }
  }

  lemma AloneStep(sh: Shared, th: Thread, c: Choice, wait: nat, n: nat)
    requires n > 0 && !th.Ping?
    ensures Alone(sh, Some(th), c, wait, n) == Alone(Act(sh, th, c).0, Act(sh, th, c).1, c, wait, n - 1)
  {}

  lemma AloneDone(sh: Shared, c: Choice, wait: nat, n: nat)
    ensures Alone(sh, None, c, wait, n) == (sh, None)
  {}

  /** The steps of one operation with nothing in between, one choice for each step. */
  ghost function Steps(sh: Shared, th: Option<Thread>, choices: seq<Choice>): (r: (Shared, Option<Thread>))
    decreases |choices|
  {
    if th.None? || choices == [] then (sh, th)
    else
      var (sh', th') := Act(sh, th.value, choices[0]);
      Steps(sh', th', choices[1..])
  }

  ghost predicate PossibleSteps(sh: Shared, th: Option<Thread>, choices: seq<Choice>)
    decreases |choices|
  {
    th.Some? && choices != [] ==>
      && Possible(sh, th.value, choices[0])
      && var (sh', th') := Act(sh, th.value, choices[0]);
        PossibleSteps(sh', th', choices[1..])
  }

  /** A cleanup pass leaves the fresh entries to come: a peek does not touch the queue, and an
      extraction after a peek that found a stale entry takes out a stale one. */
  lemma PassStep(sh: Shared, th: Thread, cutoff: int, c: Choice)
    requires th == CleanPeek(cutoff) || (th == CleanExtract(cutoff) && !NothingStale(sh.queue, cutoff))
    requires Possible(sh, th, c)
    ensures var (sh', next) := Act(sh, th, c);
      && sh' == sh.(queue := sh'.queue)
      && FreshEntries(sh'.queue, cutoff) == FreshEntries(sh.queue, cutoff)
      && (next.None? ==> sh'.queue == FreshEntries(sh.queue, cutoff))
      && (next.Some? ==>
        next.value == CleanPeek(cutoff) || (next.value == CleanExtract(cutoff) && !NothingStale(sh'.queue, cutoff)))
      && |sh'.queue| == |sh.queue| - (if th.CleanExtract? then 1 else 0)
  {}

  /** Whatever minimal entries it takes out, an uninterrupted pass that has ended did what the atomic
      one does. */
  lemma {:induction false} CleanupAlone(sh: Shared, th: Thread, cutoff: int, choices: seq<Choice>)
    requires th == CleanPeek(cutoff) || (th == CleanExtract(cutoff) && !NothingStale(sh.queue, cutoff))
    requires PossibleSteps(sh, Some(th), choices) && Steps(sh, Some(th), choices).1.None?
    ensures Steps(sh, Some(th), choices).0 == sh.(queue := FreshEntries(sh.queue, cutoff))
    decreases |choices|
  {
    PassStep(sh, th, cutoff, choices[0]);
    var (sh', next) := Act(sh, th, choices[0]);
    if next.Some? {
      CleanupAlone(sh', next.value, cutoff, choices[1..]);
    }
  }

  /** ... and it does end. */
  lemma {:induction false} CleanupAloneEnds(sh: Shared, cutoff: int) returns (choices: seq<Choice>)
    ensures PossibleSteps(sh, Some(CleanPeek(cutoff)), choices)
    ensures Steps(sh, Some(CleanPeek(cutoff)), choices).1.None?
    decreases |sh.queue|
  {
    var peek := Choice(true, "", []);
    PassStep(sh, CleanPeek(cutoff), cutoff, peek);
    choices := [peek];
    if !NothingStale(sh.queue, cutoff) {
      var pick := MinimalEntry(sh.queue);
      var extract := peek.(pick := pick);
      PassStep(sh, CleanExtract(cutoff), cutoff, extract);
      var sh' := Act(sh, CleanExtract(cutoff), extract).0;
      var rest := CleanupAloneEnds(sh', cutoff);
      choices := [peek] + ([extract] + rest);
      assert choices[1..] == [extract] + rest && ([extract] + rest)[1..] == rest;
    }
  }

  lemma MinimalEntry(m: map<string, int>) returns (id: string)
    requires m != map[]
    ensures IsMinimal(m, id)
    decreases |m|
  {
    id :| id in m;
    if w :| w in m && m[w] < m[id] {
      var others := m - {id};
      assert w in others && |others| < |m|;
      var x := MinimalEntry(others);
      assert m[x] <= m[w] && forall v :: v in m ==> v == id || v in others;
      id := x;
    }
  }

  // ----- Random subsets under interference -----

  /** A subset operation so far: nothing found twice, nothing found will be looked up again, and the
      requested size is not exceeded. */
  ghost predicate SubsetSound(th: Thread) {
    match th
    case SubsetLookup(size, todo, found) =>
      && Distinct(todo) && DistinctIds(found) && |todo| + |found| <= Max(size, 0)
      && forall x :: x in found ==> x.containerID !in todo
    case SubsetDone(size, found) => DistinctIds(found) && |found| <= Max(size, 0)
    case _ => true
  }

  ghost predicate Sound(s: State) {
    && KeyedById(s.shared.registry)
    && forall t :: t in s.threads ==> SubsetSound(s.threads[t])
  }

  lemma LookupKeepsSubsetSound(sh: Shared, th: Thread, c: Choice)
    requires KeyedById(sh.registry) && th.SubsetLookup? && SubsetSound(th)
    ensures SubsetSound(Act(sh, th, c).1.value)
  {}

  lemma ActKeepsSound(sh: Shared, th: Thread, c: Choice)
    requires KeyedById(sh.registry) && SubsetSound(th) && Possible(sh, th, c)
    ensures var (sh', next) := Act(sh, th, c);
      KeyedById(sh'.registry) && (next.Some? ==> SubsetSound(next.value))
  {
    if th.SubsetLookup? {
      LookupKeepsSubsetSound(sh, th, c);
    }
  }

  lemma StepKeepsSound(s: State, e: Event, s': State)
    requires Sound(s) && Step(s, e, s')
    ensures Sound(s')
  {
    if e.Move? {
      ActKeepsSound(s.shared, s.threads[e.t], e.choice);
    }
  }

  lemma {:induction false} RunsAreSound(states: seq<State>, events: seq<Event>, n: nat)
    requires IsRun(states, events) && Initial(states[0]) && n < |states|
    ensures Sound(states[n])
  {
    if n > 0 {
      RunsAreSound(states, events, n - 1);
      StepKeepsSound(states[n - 1], events[n - 1], states[n]);
    }
  }

  function FoundBy(th: Thread): (r: seq<Identity>) {
    match th
    case SubsetLookup(_, _, found) => found
    case SubsetDone(_, found) => found
    case _ => []
  }

  lemma FoundByLookup(s: State, e: Event, s': State, t: nat, x: Identity)
    requires Step(s, e, s') && KeyedById(s.shared.registry)
    requires t in s'.threads && x in FoundBy(s'.threads[t])
    requires !(t in s.threads && x in FoundBy(s.threads[t]))
    ensures e.Move? && e.t == t && t in s.threads && s.threads[t].SubsetLookup? && s.threads[t].todo != []
    ensures x.containerID == s.threads[t].todo[0]
    ensures x.containerID in s.shared.registry && s.shared.registry[x.containerID] == x
  {}

  /** Whatever a subset operation hands out was in the registry, under its own id, at the moment of
      its lookup. */
  lemma {:induction false} FoundWasRegistered(states: seq<State>, events: seq<Event>, n: nat, t: nat, x: Identity)
    returns (k: nat)
    requires IsRun(states, events) && Initial(states[0]) && n < |states|
    requires t in states[n].threads && x in FoundBy(states[n].threads[t])
    ensures k < n && x.containerID in states[k].shared.registry && states[k].shared.registry[x.containerID] == x
    ensures events[k].Move? && events[k].t == t && t in states[k].threads
    ensures states[k].threads[t].SubsetLookup? && states[k].threads[t].todo != []
    ensures x.containerID == states[k].threads[t].todo[0]
  {
    hide Step, FoundBy, Sound;
    RunsAreSound(states, events, n - 1);
    k := n - 1;
    var s := states[n - 1];
    assert Step(s, events[n - 1], states[n]);
    if t in s.threads && x in FoundBy(s.threads[t]) {
      k := FoundWasRegistered(states, events, n - 1, t, x);
    } else {
      FoundByLookup(s, events[n - 1], states[n], t, x);
    }
  }

  /** The ids that a subset operation has still to look up. */
  function Todo(th: Thread): (r: seq<string>) {
    match th
    case SubsetLookup(_, todo, _) => todo
    case _ => []
  }

  /** A step leaves a subset operation in its lookups: what it found it keeps, and an id goes off its list
      only by being looked up; if it is registered then, its identity is found. */
  lemma SubsetStep(s: State, e: Event, s': State, t: nat)
    requires Step(s, e, s') && t in s.threads && (s.threads[t].SubsetLookup? || s.threads[t].SubsetDone?)
    ensures t in s'.threads && (s'.threads[t].SubsetLookup? || s'.threads[t].SubsetDone?)
    ensures forall x :: x in FoundBy(s.threads[t]) ==> x in FoundBy(s'.threads[t])
    ensures forall id :: id in Todo(s.threads[t]) && id !in Todo(s'.threads[t]) ==>
      && e.Move? && e.t == t && Todo(s.threads[t])[0] == id
      && (id in s.shared.registry ==> s.shared.registry[id] in FoundBy(s'.threads[t]))
    ensures forall id :: id in Todo(s'.threads[t]) ==> id in Todo(s.threads[t])
  {
    var todo := Todo(s.threads[t]);
    if todo != [] {
      assert todo == [todo[0]] + todo[1..];
    }
  }

  /** Whatever is drawn is looked up before the subset is handed out, and is in it if it is registered then. */
  lemma DrawnIsLookedUp(states: seq<State>, events: seq<Event>, a: nat, b: nat, t: nat, id: string)
    returns (k: nat)
    requires IsRun(states, events) && a < b < |states|
    requires events[a].Move? && events[a].t == t && t in states[a].threads && states[a].threads[t].SubsetDraw?
    requires id in events[a].choice.ids
    requires t in states[b].threads && states[b].threads[t].SubsetDone?
    ensures a < k < b && events[k].Move? && events[k].t == t && t in states[k].threads
    ensures states[k].threads[t].SubsetLookup? && states[k].threads[t].todo != []
    ensures states[k].threads[t].todo[0] == id
    ensures id in states[k].shared.registry ==> states[k].shared.registry[id] in states[b].threads[t].found
    ensures |events[a].choice.ids| == Min(Max(states[a].threads[t].size, 0), |states[a].shared.queue|)
    ensures Distinct(events[a].choice.ids) && forall x :: x in events[a].choice.ids ==> x in states[a].shared.queue
  {
    assert Step(states[a], events[a], states[a + 1]);
    k := LookedUpBy(states, events, a, b, t, id);
  }

  lemma {:induction false} StillLookingUp(states: seq<State>, events: seq<Event>, a: nat, b: nat, t: nat)
    requires IsRun(states, events) && a < b < |states|
    requires events[a].Move? && events[a].t == t && t in states[a].threads && states[a].threads[t].SubsetDraw?
    ensures t in states[b].threads && (states[b].threads[t].SubsetLookup? || states[b].threads[t].SubsetDone?)
    ensures b == a + 1 ==> Todo(states[b].threads[t]) == events[a].choice.ids
    decreases b
  {
    if b == a + 1 {
      assert Step(states[a], events[a], states[b]);
    } else {
      hide Step;
      StillLookingUp(states, events, a, b - 1, t);
      SubsetStep(states[b - 1], events[b - 1], states[b], t);
    }
  }

  lemma {:induction false} LookedUpBy(states: seq<State>, events: seq<Event>, a: nat, b: nat, t: nat, id: string)
    returns (k: nat)
    requires IsRun(states, events) && a < b < |states|
    requires events[a].Move? && events[a].t == t && t in states[a].threads && states[a].threads[t].SubsetDraw?
    requires id in events[a].choice.ids
    requires t in states[b].threads && id !in Todo(states[b].threads[t])
    ensures a < k < b && events[k].Move? && events[k].t == t && t in states[k].threads
    ensures states[k].threads[t].SubsetLookup? && states[k].threads[t].todo != []
    ensures states[k].threads[t].todo[0] == id
    ensures id in states[k].shared.registry ==> states[k].shared.registry[id] in FoundBy(states[b].threads[t])
    decreases b
  {
    hide Step, FoundBy;
    k := b - 1;
    StillLookingUp(states, events, a, b, t);
    if k > a {
      StillLookingUp(states, events, a, k, t);
      SubsetStep(states[k], events[k], states[b], t);
      if id !in Todo(states[k].threads[t]) {
        k := LookedUpBy(states, events, a, k, t, id);
      }
    }
  }

  // ----- Ids that left the registry -----

  /** The operation may still put `id` into the registry or the queue. */
  predicate Holds(th: Thread, id: string) {
    match th
    case AddPut(identity) => identity.containerID == id
    case AddStamp(i) => i == id
    case AddInsert(i, _) => i == id
    case Ping(i) => i == id
    case CheckStamp(i) => i == id
    case CheckInsert(i, _) => i == id
    case _ => false
  }

  /** `id` is not registered, and no operation under way will bring it back. */
  ghost predicate Settled(s: State, id: string) {
    id !in s.shared.registry && forall t :: t in s.threads ==> !Holds(s.threads[t], id)
  }

  predicate Readds(e: Event, id: string) {
    e.Start? && e.thread.AddPut? && e.thread.identity.containerID == id
  }

  lemma SettledAct(sh: Shared, th: Thread, c: Choice, id: string)
    requires id !in sh.registry && !Holds(th, id)
    ensures var (sh', next) := Act(sh, th, c);
      && id !in sh'.registry
      && (next.Some? ==> !Holds(next.value, id))
      && (id in sh'.queue ==> id in sh.queue && sh'.queue[id] == sh.queue[id])
  {}

  /** An id that is settled stays so until someone adds it again, and until then its queue entry,
      if it has one, is never refreshed and never appears anew. */
  lemma SettledStep(s: State, e: Event, s': State, id: string)
    requires Step(s, e, s') && Settled(s, id) && !Readds(e, id)
    ensures Settled(s', id)
    ensures id in s'.shared.queue ==> id in s.shared.queue && s'.shared.queue[id] == s.shared.queue[id]
  {
    if e.Move? {
      SettledAct(s.shared, s.threads[e.t], e.choice, id);
    }
  }

  lemma {:induction false} SettledRun(states: seq<State>, events: seq<Event>, a: nat, b: nat, id: string)
    requires IsRun(states, events) && a <= b < |states|
    requires Settled(states[a], id) && forall i :: a <= i < b ==> !Readds(events[i], id)
    ensures Settled(states[b], id)
    ensures id in states[b].shared.queue ==>
      id in states[a].shared.queue && states[b].shared.queue[id] == states[a].shared.queue[id]
    decreases b
  {
    hide Step, Settled, Readds;
    if a < b {
      SettledRun(states, events, a, b - 1, id);
      SettledStep(states[b - 1], events[b - 1], states[b], id);
    }
  }

  /** A settled id is gone from the queue at the peek that ends any cleanup pass whose cutoff lies
      above its priority, and it stays gone. */
  lemma GoneAfterCleanup(states: seq<State>, events: seq<Event>, a: nat, c: nat, b: nat, id: string, t: nat)
    requires IsRun(states, events) && a <= c <= b < |states|
    requires Settled(states[a], id) && forall i :: a <= i < b ==> !Readds(events[i], id)
    requires t in states[c].threads && states[c].threads[t].CleanPeek?
    requires id in states[a].shared.queue ==> states[a].shared.queue[id] < states[c].threads[t].cutoff
    requires c < |events| && events[c].Move? && events[c].t == t && t !in states[c + 1].threads
    ensures id !in states[c].shared.queue && id !in states[b].shared.queue
  {
    assert Step(states[c], events[c], states[c + 1]);
    SettledRun(states, events, a, c, id);
    SettledRun(states, events, c, b, id);
  }

  /** In no interleaving is the empty id registered or queued, unless the registry file held it. */
  lemma {:induction false} EmptyIdNeverEnters(states: seq<State>, events: seq<Event>, n: nat)
    requires IsRun(states, events) && Initial(states[0]) && "" !in states[0].shared.registry && n < |states|
    ensures "" !in states[n].shared.registry && "" !in states[n].shared.queue
  {
    forall i | 0 <= i < n ensures !Readds(events[i], "") {
      assert Step(states[i], events[i], states[i + 1]);
    }
    SettledRun(states, events, 0, n, "");
  }

  // ----- What interference breaks -----

  ghost predicate Deletes(s: State, e: Event, id: string) {
    e.Move? && e.t in s.threads && DeletesId(s.threads[e.t], id)
  }

  /** The id is queued, or an operation that already saw it registered will queue it. */
  ghost predicate Wanted(s: State, id: string) {
    || id in s.shared.queue
    || exists t :: t in s.threads && WillQueue(s.threads[t], id)
  }

  /** The operation already saw the id registered, and may queue it. */
  predicate WillQueue(th: Thread, id: string) {
    Holds(th, id) && !th.AddPut?
  }

  predicate DeletesId(th: Thread, id: string) {
    match th
    case RemoveRegistered(i) => i == id
    case DropRegistered(i) => i == id
    case ClearRegistry => true
    case _ => false
  }

  lemma BackedAct(sh: Shared, th: Thread, c: Choice, id: string)
    requires id in sh.queue || WillQueue(th, id) ==> id in sh.registry
    ensures var (sh', next) := Act(sh, th, c);
      && (!DeletesId(th, id) && id in sh.registry ==> id in sh'.registry)
      && (DeletesId(th, id) ==> id !in sh'.registry)
      && (!DeletesId(th, id) && (id in sh'.queue || (next.Some? && WillQueue(next.value, id))) ==> id in sh'.registry)
  {}

  /** If the id is wanted, it is registered. */
  ghost predicate Backed(s: State, id: string) {
    Wanted(s, id) ==> id in s.shared.registry
  }

  /** The step deletes the registry entry of an id that is queued or about to be. */
  ghost predicate Unbacks(s: State, e: Event, id: string) {
    Deletes(s, e, id) && Wanted(s, id)
  }

  /** Exactly such a step loses the backing. */
  lemma BackingLostExactlyByDeletion(s: State, e: Event, s': State, id: string)
    requires Step(s, e, s') && Backed(s, id)
    ensures Backed(s', id) <==> !Unbacks(s, e, id)
  {
    if e.Move? {
      BackedAct(s.shared, s.threads[e.t], e.choice, id);
      if Wanted(s', id) && id !in s'.shared.queue {
        var t :| t in s'.threads && WillQueue(s'.threads[t], id);
        if t != e.t {
          assert s.threads[t] == s'.threads[t];
        }
      }
      if Unbacks(s, e, id) && id !in s.shared.queue {
        var t :| t in s.threads && WillQueue(s.threads[t], id);
        assert s'.threads[t] == s.threads[t];
      }
    }
  }

  lemma {:induction false} BackedUntilDeleted(states: seq<State>, events: seq<Event>, id: string, n: nat)
    requires IsRun(states, events) && Initial(states[0]) && n < |states|
    requires forall i :: 0 <= i < n ==> !Unbacks(states[i], events[i], id)
    ensures Backed(states[n], id)
  {
    if n > 0 {
      BackedUntilDeleted(states, events, id, n - 1);
      BackingLostExactlyByDeletion(states[n - 1], events[n - 1], states[n], id);
    }
  }

  /** Over every run: an id is backed by the registry all along, exactly if it is never deleted from it
      while it is queued or about to be. */
  lemma BackedExactlyWithoutDeletion(states: seq<State>, events: seq<Event>, id: string)
    requires IsRun(states, events) && Initial(states[0])
    ensures (forall n :: 0 <= n < |states| ==> Backed(states[n], id))
      <==> (forall i :: 0 <= i < |events| ==> !Unbacks(states[i], events[i], id))
  {
    if forall n :: 0 <= n < |states| ==> Backed(states[n], id) {
      forall i | 0 <= i < |events| ensures !Unbacks(states[i], events[i], id) {
        assert Backed(states[i], id) && Backed(states[i + 1], id);
        BackingLostExactlyByDeletion(states[i], events[i], states[i + 1], id);
      }
    } else {
      var n :| 0 <= n < |states| && !Backed(states[n], id);
      if forall i :: 0 <= i < |events| ==> !Unbacks(states[i], events[i], id) {
        BackedUntilDeleted(states, events, id, n);
      }
    }
  }

  /** The operation has read the clock before `cutoff`, and will put an entry of that age in. */
  predicate HoldsStale(th: Thread, cutoff: int) {
    match th
    case AddInsert(_, stamp) => stamp < cutoff
    case CheckInsert(_, stamp) => stamp < cutoff
    case _ => false
  }

  /** Exactly the inserting steps of such operations make an entry older than the cutoff appear. */
  lemma StaleExactlyByLateInsert(s: State, e: Event, s': State, cutoff: int)
    requires Step(s, e, s') && NothingStale(s.shared.queue, cutoff)
    ensures NothingStale(s'.shared.queue, cutoff) <==> !BringsStale(s, e, cutoff)
  {
    if BringsStale(s, e, cutoff) {
      assert s.threads[e.t].id in s'.shared.queue;
    }
  }

  ghost predicate BringsStale(s: State, e: Event, cutoff: int) {
    e.Move? && e.t in s.threads && HoldsStale(s.threads[e.t], cutoff)
  }

  /** No entry but that of `id` is stale. */
  ghost predicate OnlyStale(queue: map<string, int>, cutoff: int, id: string) {
    forall x :: x in queue && queue[x] < cutoff ==> x == id
  }

  /** The step takes away, or renews, the only stale entry there is, or takes away all entries. */
  ghost predicate TakesLastStale(s: State, e: Event, cutoff: int) {
    e.Move? && e.t in s.threads &&
      match s.threads[e.t]
      case RemoveQueued(id) => OnlyStale(s.shared.queue, cutoff, id)
      case Evict(id) => OnlyStale(s.shared.queue, cutoff, id)
      case DropQueued(id) => OnlyStale(s.shared.queue, cutoff, id)
      case CleanExtract(_) => OnlyStale(s.shared.queue, cutoff, e.choice.pick)
      case AddInsert(id, stamp) => stamp >= cutoff && OnlyStale(s.shared.queue, cutoff, id)
      case CheckInsert(id, stamp) => stamp >= cutoff && OnlyStale(s.shared.queue, cutoff, id)
      case ClearQueue => true
      case _ => false
  }

  lemma RenewedOnlyStale(queue: map<string, int>, cutoff: int, id: string, stamp: int)
    requires !NothingStale(queue, cutoff)
    ensures NothingStale(queue[id := stamp], cutoff) <==> stamp >= cutoff && OnlyStale(queue, cutoff, id)
    ensures NothingStale(queue - {id}, cutoff) <==> OnlyStale(queue, cutoff, id)
  {
    var q := queue[id := stamp];
    assert id in q && q[id] == stamp;
    forall x | x in queue && x != id ensures x in q && q[x] == queue[x] && x in queue - {id} {}
  }

  /** Exactly such steps leave nothing stale. */
  lemma NothingStaleExactlyByTakingLast(s: State, e: Event, s': State, cutoff: int)
    requires Step(s, e, s') && !NothingStale(s.shared.queue, cutoff)
    ensures NothingStale(s'.shared.queue, cutoff) <==> TakesLastStale(s, e, cutoff)
  {
    if e.Move? {
      match s.threads[e.t] {
        case RemoveQueued(id) => RenewedOnlyStale(s.shared.queue, cutoff, id, 0);
        case Evict(id) => RenewedOnlyStale(s.shared.queue, cutoff, id, 0);
        case DropQueued(id) => RenewedOnlyStale(s.shared.queue, cutoff, id, 0);
        case CleanExtract(_) => RenewedOnlyStale(s.shared.queue, cutoff, e.choice.pick, 0);
        case AddInsert(id, stamp) => RenewedOnlyStale(s.shared.queue, cutoff, id, stamp);
        case CheckInsert(id, stamp) => RenewedOnlyStale(s.shared.queue, cutoff, id, stamp);
        case _ =>
      }
    }
  }

  /** Between `a` and `b` the last stale entry was taken, and no stale one was brought in after that. */
  ghost predicate RanOutOfStale(states: seq<State>, events: seq<Event>, a: nat, b: nat, cutoff: int)
    requires |states| == |events| + 1 && b < |states|
  {
    exists i :: a <= i < b && TakesLastStale(states[i], events[i], cutoff)
      && !NothingStale(states[i].shared.queue, cutoff)
      && forall j :: i < j < b ==> !BringsStale(states[j], events[j], cutoff)
  }

  lemma {:induction false} NothingStaleLater(
        states: seq<State>, events: seq<Event>, a: nat, b: nat, cutoff: int)
    requires IsRun(states, events) && a <= b < |states| && !NothingStale(states[a].shared.queue, cutoff)
    ensures NothingStale(states[b].shared.queue, cutoff) <==> RanOutOfStale(states, events, a, b, cutoff)
    decreases b
  {
    hide Step, NothingStale, TakesLastStale, BringsStale;
    if a < b {
      var n := b - 1;
      NothingStaleLater(states, events, a, n, cutoff);
      if NothingStale(states[n].shared.queue, cutoff) {
        StaleExactlyByLateInsert(states[n], events[n], states[b], cutoff);
        RanOutBefore(states, events, a, b, cutoff);
      } else {
        NothingStaleExactlyByTakingLast(states[n], events[n], states[b], cutoff);
        RanOutNow(states, events, a, b, cutoff);
      }
    }
  }

  lemma RanOutNow(states: seq<State>, events: seq<Event>, a: nat, b: nat, cutoff: int)
    requires IsRun(states, events) && a < b < |states| && !NothingStale(states[b - 1].shared.queue, cutoff)
    requires !RanOutOfStale(states, events, a, b - 1, cutoff)
    ensures RanOutOfStale(states, events, a, b, cutoff) <==> TakesLastStale(states[b - 1], events[b - 1], cutoff)
  {}

  lemma RanOutBefore(states: seq<State>, events: seq<Event>, a: nat, b: nat, cutoff: int)
    requires IsRun(states, events) && a < b < |states| && NothingStale(states[b - 1].shared.queue, cutoff)
    requires RanOutOfStale(states, events, a, b - 1, cutoff)
    ensures RanOutOfStale(states, events, a, b, cutoff) <==> !BringsStale(states[b - 1], events[b - 1], cutoff)
  {}

  lemma {:induction false} StillExtracting(
        states: seq<State>, events: seq<Event>, a: nat, b: nat, t: nat, cutoff: int)
    requires IsRun(states, events) && a <= b < |states|
    requires t in states[a].threads && states[a].threads[t] == CleanExtract(cutoff)
    requires forall i :: a <= i < b ==> !(events[i].Move? && events[i].t == t)
    ensures t in states[b].threads && states[b].threads[t] == CleanExtract(cutoff)
    decreases b
  {
    if a < b {
      StillExtracting(states, events, a, b - 1, t, cutoff);
      assert Step(states[b - 1], events[b - 1], states[b]);
    }
  }

  /** The entry with a minimal priority is fresh exactly if none is stale. */
  lemma MinimalIsFresh(queue: map<string, int>, pick: string, cutoff: int)
    requires IsMinimal(queue, pick)
    ensures queue[pick] >= cutoff <==> NothingStale(queue, cutoff)
  {}

  /** A cleanup pass peeks in step `a`, finds something stale, and its next step, `b`, extracts. What it
      takes out is fresh exactly if there is something to take and, in between, the last stale entry was
      taken away or renewed and no stale one was brought in after that. */
  lemma EvictsFreshExactly(states: seq<State>, events: seq<Event>, a: nat, b: nat, t: nat, cutoff: int)
    requires IsRun(states, events) && a < b < |events|
    requires events[a].Move? && events[a].t == t
    requires t in states[a].threads && states[a].threads[t] == CleanPeek(cutoff)
    requires t in states[a + 1].threads
    requires forall i :: a < i < b ==> !(events[i].Move? && events[i].t == t)
    requires events[b].Move? && events[b].t == t
    ensures EvictsFresh(states[b], events[b], cutoff) <==>
      states[b].shared.queue != map[] && RanOutOfStale(states, events, a + 1, b, cutoff)
  {
    assert Step(states[a], events[a], states[a + 1]) && Step(states[b], events[b], states[b + 1]);
    assert states[a + 1].threads[t] == CleanExtract(cutoff);
    StillExtracting(states, events, a + 1, b, t, cutoff);
    NothingStaleLater(states, events, a + 1, b, cutoff);
    if states[b].shared.queue != map[] {
      MinimalIsFresh(states[b].shared.queue, events[b].choice.pick, cutoff);
    }
  }

  /** The step is a cleanup pass's extraction of an entry that is not stale. */
  ghost predicate EvictsFresh(s: State, e: Event, cutoff: int) {
    && e.Move? && e.t in s.threads && s.threads[e.t] == CleanExtract(cutoff)
    && e.choice.pick in s.shared.queue && s.shared.queue[e.choice.pick] >= cutoff
  }

  /** Nothing is older than the cutoff, and no operation is about to put in something that is. */
  ghost predicate FreshFor(s: State, cutoff: int) {
    && cutoff <= s.shared.now && NothingStale(s.shared.queue, cutoff)
    && forall t :: t in s.threads ==> !HoldsStale(s.threads[t], cutoff)
  }

  lemma StepKeepsFreshFor(s: State, e: Event, s': State, cutoff: int)
    requires Step(s, e, s') && FreshFor(s, cutoff)
    ensures FreshFor(s', cutoff)
  {
    StaleExactlyByLateInsert(s, e, s', cutoff);
    forall t | t in s'.threads ensures !HoldsStale(s'.threads[t], cutoff) {
      if t in s.threads && s'.threads[t] == s.threads[t] {
        assert !HoldsStale(s.threads[t], cutoff);
      }
    }
  }

  lemma {:induction false} RunStaysFreshFor(states: seq<State>, events: seq<Event>, n: nat, cutoff: int)
    requires IsRun(states, events) && FreshFor(states[0], cutoff) && n < |states|
    ensures FreshFor(states[n], cutoff)
  {
    if n > 0 {
      RunStaysFreshFor(states, events, n - 1, cutoff);
      StepKeepsFreshFor(states[n - 1], events[n - 1], states[n], cutoff);
    }
  }

  /** However the operations go on from here, no entry older than the cutoff appears. */
  ghost predicate StaysFresh(s: State, cutoff: int) {
    forall states: seq<State>, events: seq<Event>, n ::
      IsRun(states, events) && states[0] == s && 0 <= n < |states| ==> NothingStale(states[n].shared.queue, cutoff)
  }

  /** The staleness bound under overlap. When a cleanup pass has ended and nothing stale is left, the
      bound holds from then on whatever happens, exactly if no operation that is under way by then read
      the clock before the cutoff. */
  lemma StaysFreshExactly(s: State, cutoff: int)
    requires cutoff <= s.shared.now && NothingStale(s.shared.queue, cutoff)
    ensures StaysFresh(s, cutoff) <==> forall t :: t in s.threads ==> !HoldsStale(s.threads[t], cutoff)
  {
    if t :| t in s.threads && HoldsStale(s.threads[t], cutoff) {
      var e := Move(t, Choice(true, "", []));
      var states, events := Extend([s], [], e);
      StaleExactlyByLateInsert(s, e, Exec(s, e), cutoff);
      assert !NothingStale(states[1].shared.queue, cutoff);
    } else {
      forall states: seq<State>, events: seq<Event>, n |
        IsRun(states, events) && states[0] == s && 0 <= n < |states|
        ensures NothingStale(states[n].shared.queue, cutoff)
      {
        RunStaysFreshFor(states, events, n, cutoff);
      }
    }
  }

  lemma Extend(states: seq<State>, events: seq<Event>, e: Event) returns (states': seq<State>, events': seq<Event>)
    requires IsRun(states, events) && Enabled(states[|states| - 1], e)
    ensures states' == states + [Exec(states[|states| - 1], e)] && events' == events + [e]
    ensures IsRun(states', events')
  {
    states', events' := states + [Exec(states[|states| - 1], e)], events + [e];
  }

  /** A run that leaves one add between its clock reading and its insertion. */
  lemma HalfAddRun(x: Identity) returns (states: seq<State>, events: seq<Event>)
    requires WellFormed(x)
    ensures IsRun(states, events) && Initial(states[0])
    ensures states[|states| - 1]
      == State(Shared(map[x.containerID := x], map[], 0, 5, 1), map[0 := AddInsert(x.containerID, 0)])
  {
    var go := Choice(true, "", []);
    states, events := [State(Shared(map[], map[], 0, 5, 1), map[])], [];
    states, events := Extend(states, events, Start(0, AddPut(x)));
    states, events := Extend(states, events, Move(0, go));
    states, events := Extend(states, events, Move(0, go));
  }

  /** With overlapping operations "every queued id is registered" is false even when nothing is under
      way any more: a removal that runs between the two halves of an add leaves an orphan. */
  lemma OrphanReachable() returns (states: seq<State>, events: seq<Event>)
    ensures IsRun(states, events) && Initial(states[0])
    ensures var s := states[|states| - 1];
      s.threads == map[] && exists id :: id in s.shared.queue && id !in s.shared.registry
  {
    var x := Identity("x", "x", "x");
    var go := Choice(true, "x", []);
    states, events := HalfAddRun(x);
    states, events := Extend(states, events, Start(1, RemoveRegistered("x")));
    states, events := Extend(states, events, Move(1, go));
    states, events := Extend(states, events, Move(1, go));
    states, events := Extend(states, events, Move(0, go));
    var s := states[|states| - 1];
    assert s.threads == map[];
    assert "x" in s.shared.queue && "x" !in s.shared.registry;
  }

  /** A run after which one client has been queued for ten ticks and nothing is under way. */
  lemma OldEntryRun(x: Identity) returns (states: seq<State>, events: seq<Event>)
    requires WellFormed(x)
    ensures IsRun(states, events) && Initial(states[0])
    ensures states[|states| - 1] == State(Shared(map[x.containerID := x], map[x.containerID := 0], 10, 5, 1), map[])
  {
    var go := Choice(true, "", []);
    states, events := HalfAddRun(x);
    states, events := Extend(states, events, Move(0, go));
    states, events := Extend(states, events, Tick(10));
    assert states[|states| - 1].threads == map[];
  }

  /** ... continued: a cleanup pass has seen it stale, and the same client is being added again. */
  lemma StalePeekRun(x: Identity) returns (states: seq<State>, events: seq<Event>)
    requires WellFormed(x)
    ensures IsRun(states, events) && Initial(states[0])
    ensures states[|states| - 1]
      == State(Shared(map[x.containerID := x], map[x.containerID := 0], 10, 5, 1),
               map[0 := AddPut(x), 1 := CleanExtract(5)])
  {
    states, events := OldEntryRun(x);
    states, events := Extend(states, events, Start(1, CleanPeek(5)));
    states, events := Extend(states, events, Start(0, AddPut(x)));
    assert states[|states| - 1].shared.queue[x.containerID] < 5;
    states, events := Extend(states, events, Move(1, Choice(true, "", [])));
  }

  /** ... continued: the client was added before the pass goes on. */
  lemma RenewedEntryRun(x: Identity) returns (states: seq<State>, events: seq<Event>)
    requires WellFormed(x)
    ensures IsRun(states, events) && Initial(states[0])
    ensures states[|states| - 1]
      == State(Shared(map[x.containerID := x], map[x.containerID := 10], 10, 5, 1), map[1 := CleanExtract(5)])
  {
    var go := Choice(true, "", []);
    states, events := StalePeekRun(x);
    states, events := Extend(states, events, Move(0, go));
    states, events := Extend(states, events, Move(0, go));
    states, events := Extend(states, events, Move(0, go));
  }

  /** A cleanup pass can evict an entry that is not stale: one that was renewed between the peek that
      found it stale and the extraction that follows. */
  lemma FreshEntryEvicted() returns (states: seq<State>, events: seq<Event>)
    ensures IsRun(states, events) && Initial(states[0]) && |events| > 0
    ensures EvictsFresh(states[|states| - 2], events[|events| - 1], 5)
    ensures events[|events| - 1].choice.pick !in states[|states| - 1].shared.queue
  {
    var x := Identity("x", "x", "x");
    states, events := RenewedEntryRun(x);
    states, events := Extend(states, events, Move(1, Choice(true, "x", [])));
  }

  /** An add reads the clock, ten ticks later a cleanup pass finds nothing stale and ends, and then the
      add puts in its entry, which is older than the pass allows. */
  lemma StaleEntryAfterCleanup() returns (states: seq<State>, events: seq<Event>)
    ensures IsRun(states, events) && Initial(states[0]) && |events| > 1
    ensures var peek, pass := states[|states| - 3], events[|events| - 2];
      var end := states[|states| - 1];
      && pass.Move? && pass.t in peek.threads && peek.threads[pass.t] == CleanPeek(end.shared.now - end.shared.maxAge)
      && pass.t !in states[|states| - 2].threads
      && exists id :: id in end.shared.queue && end.shared.now - end.shared.queue[id] > end.shared.maxAge
  {
    var x := Identity("x", "x", "x");
    var go := Choice(true, "x", []);
    states, events := HalfAddRun(x);
    states, events := Extend(states, events, Tick(10));
    states, events := Extend(states, events, Start(1, CleanPeek(5)));
    states, events := Extend(states, events, Move(1, go));
    states, events := Extend(states, events, Move(0, go));
    assert states[|states| - 1].shared.queue == map["x" := 0];
    assert "x" in states[|states| - 1].shared.queue;
  }
}
