/** The network: clients that exchange contacts, and the bootstrap server they announce themselves to.
    A message, once sent, may be delivered at any later time, any number of times, or never, and to
    any client. */
module Gossip {
  import opened Common
  import opened Membership
  import opened QueryOrder
  import QueryRuns

  type Registry = map<string, Identity>

  datatype Message =
    | Announce(identity: Identity)                     // to the bootstrap server
    | Request(contacts: seq<Identity>)                 // to a client
    | Reply(to: string, contacts: seq<Identity>)       // to the client that asked

  datatype Net = Net(registries: map<string, Registry>, bootstrap: Registry, sent: set<Message>)

  datatype Event =
    | Connect(n: string)                                           // a client announces itself
    | Welcome(m: Message, replyTo: string, picked: seq<Identity>)  // the server adds it and answers
    | Ask(n: string, picked: seq<Identity>)                        // a client asks a contact
    | Serve(m: Message, at: string, replyTo: string, picked: seq<Identity>)  // a client is asked
    | Learn(m: Message)                                            // an answer arrives
    | Forget(n: string, id: string)                                // a client drops an id
    | ServerForget(id: string)

  /** What adding contacts does to the registry alone. */
  function Grown(registry: Registry, own: string, contacts: seq<Identity>): (r: Registry) {
    if contacts == [] then registry
    else
      var k := |contacts| - 1;
      var before := Grown(registry, own, contacts[..k]);
      var x := contacts[k];
      if IsNews(before, own, x) && WellFormed(x) then before[x.containerID := x] else before
  }

  lemma {:induction false} GrownIsRegistryPart(n: Node, own: string, contacts: seq<Identity>, times: nat -> int)
    ensures WithContacts(n, own, contacts, times).view.registry == Grown(n.view.registry, own, contacts)
  {
    if contacts != [] {
      GrownIsRegistryPart(n, own, contacts[..|contacts| - 1], times);
    }
  }

  /** A random subset: identities from the registry. */
  ghost predicate PickedFrom(registry: Registry, picked: seq<Identity>) {
    forall x :: x in picked ==> x.containerID in registry && registry[x.containerID] == x
  }

  ghost predicate Enabled(names: Registry, net: Net, e: Event) {
    match e
    case Connect(n) => n in names
    case Welcome(m, replyTo, picked) =>
      && m in net.sent && m.Announce? && replyTo in names
      && PickedFrom(Registered(net.bootstrap, m.identity), picked)
    case Ask(n, picked) => n in names && n in net.registries && PickedFrom(net.registries[n], picked)
    case Serve(m, at, replyTo, picked) =>
      && m in net.sent && m.Request? && at in net.registries && replyTo in names
      && PickedFrom(Grown(net.registries[at], at, m.contacts), picked)
    case Learn(m) => m in net.sent && m.Reply? && m.to in net.registries
    case Forget(n, id) => n in net.registries
    case ServerForget(_) => true
  }

  /** The server registers whoever connects, if name and id are not empty. */
  function Registered(registry: Registry, x: Identity): (r: Registry) {
    if WellFormed(x) then registry[x.containerID := x] else registry
  }

  function Next(names: Registry, net: Net, e: Event): (r: Net) {
    match e
    case Connect(n) =>
      if n in names then net.(sent := net.sent + {Announce(names[n])}) else net
    case Welcome(m, replyTo, picked) =>
      if m.Announce? then
        net.(bootstrap := Registered(net.bootstrap, m.identity), sent := net.sent + {Reply(replyTo, picked)})
      else net
    case Ask(n, picked) =>
      if n in names then net.(sent := net.sent + {Request(picked + [names[n]])}) else net
    case Serve(m, at, replyTo, picked) =>
      if m.Request? && at in net.registries then
        net.(registries := net.registries[at := Grown(net.registries[at], at, m.contacts)],
             sent := net.sent + {Reply(replyTo, picked)})
      else net
    case Learn(m) =>
      if m.Reply? && m.to in net.registries then
        net.(registries := net.registries[m.to := Grown(net.registries[m.to], m.to, m.contacts)])
      else net
    case Forget(n, id) =>
      if n in net.registries then net.(registries := net.registries[n := net.registries[n] - {id}]) else net
    case ServerForget(id) => net.(bootstrap := net.bootstrap - {id})
  }

  function After(names: Registry, start: Net, run: seq<Event>): (r: Net) {
    if run == [] then start else Next(names, After(names, start, run[..|run| - 1]), run[|run| - 1])
  }

  ghost predicate IsRun(names: Registry, start: Net, run: seq<Event>) {
    forall i {:trigger run[..i]} :: 0 <= i < |run| ==> Enabled(names, After(names, start, run[..i]), run[i])
  }

  lemma RunPrefix(names: Registry, start: Net, run: seq<Event>, n: nat)
    requires IsRun(names, start, run) && n <= |run|
    ensures IsRun(names, start, run[..n])
    ensures n < |run| ==> Enabled(names, After(names, start, run[..n]), run[n])
  {
    forall i | 0 <= i < n ensures run[..n][..i] == run[..i] {}
  }

  // ----- Nobody is misrepresented -----

  /** Each client announces one valid identity, under its own id. */
  ghost predicate Announced(names: Registry) {
    forall n :: n in names ==> names[n].containerID == n && WellFormed(names[n])
  }

  /** Every entry is exactly what the client with that id announces. */
  ghost predicate Honest(names: Registry, registry: Registry) {
    forall id :: id in registry ==> id in names && registry[id] == names[id]
  }

  ghost predicate AllAnnounced(names: Registry, contacts: seq<Identity>) {
    forall x :: x in contacts ==> x.containerID in names && names[x.containerID] == x
  }

  ghost predicate HonestMessage(names: Registry, m: Message) {
    match m
    case Announce(x) => x.containerID in names && names[x.containerID] == x
    case Request(contacts) => AllAnnounced(names, contacts)
    case Reply(_, contacts) => AllAnnounced(names, contacts)
  }

  ghost predicate HonestNet(names: Registry, net: Net) {
    && net.registries.Keys == names.Keys
    && (forall n :: n in net.registries ==> Honest(names, net.registries[n]))
    && Honest(names, net.bootstrap)
    && (forall m :: m in net.sent ==> HonestMessage(names, m))
  }

  lemma {:induction false} GrownHonest(names: Registry, registry: Registry, own: string, contacts: seq<Identity>)
    requires Announced(names) && Honest(names, registry) && AllAnnounced(names, contacts)
    ensures Honest(names, Grown(registry, own, contacts))
    ensures registry.Keys <= Grown(registry, own, contacts).Keys
    ensures own in Grown(registry, own, contacts) ==> own in registry
  {
    if contacts != [] {
      GrownHonest(names, registry, own, contacts[..|contacts| - 1]);
    }
  }

  lemma PickedHonest(names: Registry, registry: Registry, picked: seq<Identity>)
    requires Honest(names, registry) && PickedFrom(registry, picked)
    ensures AllAnnounced(names, picked)
  {}

  /** A client's registry is replaced by an honest one, and an honest message is sent. */
  lemma HonestUpdate(names: Registry, net: Net, n: string, registry: Registry, out: set<Message>)
    requires HonestNet(names, net) && n in names && Honest(names, registry)
    requires forall m :: m in out ==> HonestMessage(names, m)
    ensures HonestNet(names, net.(registries := net.registries[n := registry], sent := net.sent + out))
  {}

  /** The server's registry is replaced by an honest one, and an honest message is sent. */
  lemma HonestServer(names: Registry, net: Net, registry: Registry, out: set<Message>)
    requires HonestNet(names, net) && Honest(names, registry)
    requires forall m :: m in out ==> HonestMessage(names, m)
    ensures HonestNet(names, net.(bootstrap := registry, sent := net.sent + out))
  {}

  lemma StepKeepsHonest(names: Registry, net: Net, e: Event)
    requires Announced(names) && HonestNet(names, net) && Enabled(names, net, e)
    ensures HonestNet(names, Next(names, net, e))
  {
    match e
    case Connect(n) =>
      HonestServer(names, net, net.bootstrap, {Announce(names[n])});
    case Welcome(m, replyTo, picked) =>
      var registry := Registered(net.bootstrap, m.identity);
      assert HonestMessage(names, m);
      PickedHonest(names, registry, picked);
      HonestServer(names, net, registry, {Reply(replyTo, picked)});
    case Ask(n, picked) =>
      PickedHonest(names, net.registries[n], picked);
      HonestServer(names, net, net.bootstrap, {Request(picked + [names[n]])});
    case Serve(m, at, replyTo, picked) =>
      ContactsKeepHonest(names, net, m, at, m.contacts);
      PickedHonest(names, Grown(net.registries[at], at, m.contacts), picked);
      HonestUpdate(names, net, at, Grown(net.registries[at], at, m.contacts), {Reply(replyTo, picked)});
    case Learn(m) =>
      ContactsKeepHonest(names, net, m, m.to, m.contacts);
      HonestUpdate(names, net, m.to, Grown(net.registries[m.to], m.to, m.contacts), {});
      assert net.sent + {} == net.sent;
    case Forget(n, id) =>
      HonestUpdate(names, net, n, net.registries[n] - {id}, {});
      assert net.sent + {} == net.sent;
    case ServerForget(id) =>
      HonestServer(names, net, net.bootstrap - {id}, {});
      assert net.sent + {} == net.sent;
  }

  lemma ContactsKeepHonest(names: Registry, net: Net, m: Message, n: string, contacts: seq<Identity>)
    requires Announced(names) && HonestNet(names, net) && n in net.registries
    requires m in net.sent && (m == Request(contacts) || m == Reply(n, contacts))
    ensures Honest(names, Grown(net.registries[n], n, contacts))
  {
    assert HonestMessage(names, m);
    GrownHonest(names, net.registries[n], n, contacts);
  }

  /** Over every run, every identity in any registry and in any message is the one its client announced. */
  lemma {:induction false} RunsStayHonest(names: Registry, start: Net, run: seq<Event>)
    requires Announced(names) && HonestNet(names, start) && IsRun(names, start, run)
    ensures HonestNet(names, After(names, start, run))
  {
    if run != [] {
      var n := |run| - 1;
      RunPrefix(names, start, run, n);
      RunsStayHonest(names, start, run[..n]);
      StepKeepsHonest(names, After(names, start, run[..n]), run[n]);
    }
  }

  lemma StepAddsNoOwnId(names: Registry, net: Net, e: Event, n: string)
    requires Announced(names) && HonestNet(names, net) && Enabled(names, net, e)
    requires n in net.registries && n !in net.registries[n]
    ensures n in Next(names, net, e).registries && n !in Next(names, net, e).registries[n]
  {
    match e
    case Serve(m, at, _, _) =>
      assert HonestMessage(names, m);
      GrownHonest(names, net.registries[at], at, m.contacts);
    case Learn(m) =>
      assert HonestMessage(names, m);
      GrownHonest(names, net.registries[m.to], m.to, m.contacts);
    case _ =>
  }

  /** No client ever registers itself. */
  lemma {:induction false} NeverOwnId(names: Registry, start: Net, run: seq<Event>, n: string)
    requires Announced(names) && HonestNet(names, start) && IsRun(names, start, run)
    requires n in start.registries && n !in start.registries[n]
    ensures n in After(names, start, run).registries && n !in After(names, start, run).registries[n]
  {
    if run != [] {
      var k := |run| - 1;
      RunPrefix(names, start, run, k);
      NeverOwnId(names, start, run[..k], n);
      RunsStayHonest(names, start, run[..k]);
      StepAddsNoOwnId(names, After(names, start, run[..k]), run[k], n);
    }
  }

  // ----- What messages teach -----

  lemma {:induction false} GrownKnowsAll(registry: Registry, own: string, contacts: seq<Identity>, x: Identity)
    requires x in contacts && x.containerID != "" && x.name != "" && x.containerID != own
    ensures x.containerID in Grown(registry, own, contacts)
  {
    var k := |contacts| - 1;
    if x in contacts[..k] {
      GrownKnowsAll(registry, own, contacts[..k], x);
    } else {
      assert contacts == contacts[..k] + [contacts[k]];
    }
  }

  /** Once a message is delivered, its receiver knows everyone in it but itself, as they announce themselves. */
  lemma ReceiverKnowsAll(names: Registry, net: Net, e: Event, x: Identity)
    requires Announced(names) && HonestNet(names, net) && Enabled(names, net, e)
    requires (e.Serve? || e.Learn?) && x in e.m.contacts
    requires x.containerID != if e.Serve? then e.at else e.m.to
    ensures var n := if e.Serve? then e.at else e.m.to;
      var registry := Next(names, net, e).registries[n];
      x.containerID in registry && registry[x.containerID] == names[x.containerID]
  {
    var n := if e.Serve? then e.at else e.m.to;
    assert HonestMessage(names, e.m);
    GrownKnowsAll(net.registries[n], n, e.m.contacts, x);
    GrownHonest(names, net.registries[n], n, e.m.contacts);
  }

  /** Exactly what a step sends: an announcement of itself, a request with its own identity last, a reply. */
  lemma SendsExactly(names: Registry, net: Net, e: Event, m: Message)
    requires Enabled(names, net, e)
    ensures var sends :=
        match e
        case Connect(n) => m == Announce(names[n])
        case Ask(n, picked) => m == Request(picked + [names[n]])
        case Welcome(_, replyTo, picked) => m == Reply(replyTo, picked)
        case Serve(_, _, replyTo, picked) => m == Reply(replyTo, picked)
        case _ => false;
      m in Next(names, net, e).sent <==> m in net.sent || sends
  {}

  /** Exactly when a client no longer knows an id: it drops it. */
  lemma ForgetsExactly(names: Registry, net: Net, e: Event, n: string, id: string)
    requires Announced(names) && HonestNet(names, net) && Enabled(names, net, e)
    requires n in net.registries && id in net.registries[n]
    ensures n in Next(names, net, e).registries
    ensures id !in Next(names, net, e).registries[n] <==> e == Forget(n, id)
  {
    match e
    case Serve(m, at, _, _) =>
      assert HonestMessage(names, m);
      GrownHonest(names, net.registries[at], at, m.contacts);
    case Learn(m) =>
      assert HonestMessage(names, m);
      GrownHonest(names, net.registries[m.to], m.to, m.contacts);
    case _ =>
  }

  /** When a request is delivered, whoever is asked knows the client that asks. */
  lemma AskedKnowsAsker(names: Registry, net: Net, n: string, picked: seq<Identity>, e: Event)
    requires Announced(names) && HonestNet(names, net) && n in names
    requires Enabled(names, net, e) && e.Serve? && e.m == Request(picked + [names[n]]) && e.at != n
    ensures var registries := Next(names, net, e).registries;
      n in registries[e.at] && registries[e.at][n] == names[n]
  {
    assert names[n] == e.m.contacts[|picked|];
    ReceiverKnowsAll(names, net, e, names[n]);
  }

  /** The bootstrap server knows whoever announced itself, when it answers. */
  lemma ServerKnowsAnnounced(names: Registry, net: Net, e: Event)
    requires Announced(names) && HonestNet(names, net) && Enabled(names, net, e) && e.Welcome?
    ensures var id, bootstrap := e.m.identity.containerID, Next(names, net, e).bootstrap;
      id in bootstrap && bootstrap[id] == names[id]
  {
    assert HonestMessage(names, e.m);
  }

  // ----- How much there is to learn -----

  /** The pairs (client, other client it has registered). */
  ghost function Known(net: Net): (r: set<(string, string)>) {
    set n, m | n in net.registries && m in net.registries[n] && m != n :: (n, m)
  }

  ghost function Pairs(s: set<string>): (r: set<(string, string)>) {
    set n, m | n in s && m in s && n != m :: (n, m)
  }

  lemma PairsWith(x: string, s: set<string>)
    ensures |set m | m in s :: (x, m)| == |s| && |set m | m in s :: (m, x)| == |s|
  {
    if s != {} {
      var y :| y in s;
      PairsWith(x, s - {y});
      assert (set m | m in s :: (x, m)) == (set m | m in s - {y} :: (x, m)) + {(x, y)};
      assert (set m | m in s :: (m, x)) == (set m | m in s - {y} :: (m, x)) + {(y, x)};
    }
  }

  lemma PairsSplit(s: set<string>, x: string)
    requires x in s
    ensures var t := s - {x};
      var out, back := (set m | m in t :: (x, m)), (set m | m in t :: (m, x));
      && Pairs(s) == Pairs(t) + out + back
      && Pairs(t) !! out && (Pairs(t) + out) !! back
  {}

  /** The number of ordered pairs of different elements, counted one element at a time. */
  function PairNumber(k: nat): (r: nat) {
    if k == 0 then 0 else PairNumber(k - 1) + 2 * (k - 1)
  }

  lemma {:induction false} PairNumberIsProduct(k: nat)
    ensures PairNumber(k) == k * (k - 1)
  {
    if k > 0 {
      PairNumberIsProduct(k - 1);
      assert k * (k - 1) == (k - 1) * (k - 2) + 2 * (k - 1);
    }
  }

  lemma UnionCount<T>(a: set<T>, b: set<T>, c: set<T>)
    requires a !! b && (a + b) !! c
    ensures |a + b + c| == |a| + |b| + |c|
  {}

  lemma PairsCountSplit(s: set<string>, x: string)
    requires x in s
    ensures |Pairs(s)| == |Pairs(s - {x})| + 2 * (|s| - 1)
  {
    var t := s - {x};
    var out, back := (set m | m in t :: (x, m)), (set m | m in t :: (m, x));
    PairsWith(x, t);
    PairsSplit(s, x);
    UnionCount(Pairs(t), out, back);
  }

  lemma {:induction false} PairsCount(s: set<string>)
    ensures |Pairs(s)| == PairNumber(|s|)
  {
    if s == {} {
      assert Pairs(s) == {};
    } else {
      var x :| x in s;
      PairsCount(s - {x});
      PairsCountSplit(s, x);
    }
  }

  function Growth(registry: Registry, own: string, contacts: seq<Identity>): (r: int) {
    |Grown(registry, own, contacts)| - |registry|
  }

  /** How many registry entries a step adds at the client it concerns. */
  ghost function AddedBy(names: Registry, net: Net, e: Event): (r: int) {
    match e
    case Serve(m, at, _, _) =>
      if m.Request? && at in net.registries then Growth(net.registries[at], at, m.contacts) else 0
    case Learn(m) =>
      if m.Reply? && m.to in net.registries then Growth(net.registries[m.to], m.to, m.contacts) else 0
    case _ => 0
  }

  ghost predicate NobodyDropped(run: seq<Event>) {
    forall i :: 0 <= i < |run| ==> !run[i].Forget?
  }

  ghost function TotalAdded(names: Registry, start: Net, run: seq<Event>): (r: int) {
    if run == [] then 0
    else
      var n := |run| - 1;
      TotalAdded(names, start, run[..n]) + AddedBy(names, After(names, start, run[..n]), run[n])
  }

  lemma KnownGrows(net: Net, n: string, bigger: Registry)
    requires n in net.registries
    requires net.registries[n].Keys <= bigger.Keys && (n in bigger ==> n in net.registries[n])
    ensures var added := set m | m in bigger.Keys - net.registries[n].Keys :: (n, m);
      && Known(net.(registries := net.registries[n := bigger])) == Known(net) + added
      && Known(net) !! added
  {}

  lemma GrowthIsKnown(net: Net, n: string, bigger: Registry)
    requires n in net.registries
    requires net.registries[n].Keys <= bigger.Keys && (n in bigger ==> n in net.registries[n])
    ensures |Known(net.(registries := net.registries[n := bigger]))| == |Known(net)| + |bigger| - |net.registries[n]|
  {
    var prior := net.registries[n];
    KnownGrows(net, n, bigger);
    PairsWith(n, bigger.Keys - prior.Keys);
    assert bigger.Keys == prior.Keys + (bigger.Keys - prior.Keys);
    assert |bigger| == |bigger.Keys| && |prior| == |prior.Keys|;
  }

  /** Each added entry is one more known pair. */
  lemma StepLearns(names: Registry, net: Net, e: Event)
    requires Announced(names) && HonestNet(names, net) && Enabled(names, net, e) && !e.Forget?
    ensures |Known(Next(names, net, e))| == |Known(net)| + AddedBy(names, net, e)
    ensures AddedBy(names, net, e) >= 0
  {
    var net' := Next(names, net, e);
    match e
    case Serve(m, at, replyTo, picked) =>
      GrownHonest(names, net.registries[at], at, m.contacts);
      var bigger := Grown(net.registries[at], at, m.contacts);
      GrowthIsKnown(net, at, bigger);
      assert Known(net') == Known(net.(registries := net.registries[at := bigger]));
      SubsetCardinality(net.registries[at].Keys, bigger.Keys);
    case Learn(m) =>
      GrownHonest(names, net.registries[m.to], m.to, m.contacts);
      var bigger := Grown(net.registries[m.to], m.to, m.contacts);
      GrowthIsKnown(net, m.to, bigger);
      SubsetCardinality(net.registries[m.to].Keys, bigger.Keys);
    case Connect(_) => SameKnown(net, net');
    case Welcome(_, _, _) => SameKnown(net, net');
    case Ask(_, _) => SameKnown(net, net');
    case ServerForget(_) => SameKnown(net, net');
    case Forget(_, _) => assert false;
  }

  lemma SameKnown(net: Net, net': Net)
    requires net'.registries == net.registries
    ensures Known(net') == Known(net)
  {}

  lemma KnownBound(names: Registry, net: Net)
    requires HonestNet(names, net)
    ensures |Known(net)| <= PairNumber(|names|)
  {
    assert Known(net) <= Pairs(names.Keys);
    SubsetCardinality(Known(net), Pairs(names.Keys));
    PairsCount(names.Keys);
    assert |names| == |names.Keys|;
  }

  /** While nobody is dropped, the entries added over a run are exactly the growth of the known pairs. */
  lemma {:induction false} LearningIsKnowing(names: Registry, start: Net, run: seq<Event>)
    requires Announced(names) && HonestNet(names, start) && IsRun(names, start, run)
    requires NobodyDropped(run)
    ensures TotalAdded(names, start, run) == |Known(After(names, start, run))| - |Known(start)|
  {
    if run != [] {
      var n := |run| - 1;
      RunPrefix(names, start, run, n);
      assert NobodyDropped(run[..n]);
      LearningIsKnowing(names, start, run[..n]);
      RunsStayHonest(names, start, run[..n]);
      StepLearns(names, After(names, start, run[..n]), run[n]);
    }
  }

  /** ... so N clients add at most N * (N - 1) entries altogether, less what they knew at the start. */
  lemma LearningIsBounded(names: Registry, start: Net, run: seq<Event>)
    requires Announced(names) && HonestNet(names, start) && IsRun(names, start, run)
    requires NobodyDropped(run)
    ensures TotalAdded(names, start, run) <= |names| * (|names| - 1) - |Known(start)|
  {
    PairNumberIsProduct(|names|);
    LearningIsKnowing(names, start, run);
    RunsStayHonest(names, start, run);
    KnownBound(names, After(names, start, run));
  }

  /** Among honest contacts the count that a client logs as new is what it added. */
  lemma HonestCountIsAdded(names: Registry, n: Node, own: string, contacts: seq<Identity>, times: nat -> int)
    requires Announced(names) && AllAnnounced(names, contacts)
    ensures NewsCount(n, own, contacts, times) == Growth(n.view.registry, own, contacts)
  {
    GrownIsRegistryPart(n, own, contacts, times);
    QueryRuns.CountIsGrowthExactly(n, own, contacts, times);
    forall i | 0 <= i < |contacts| ensures WellFormed(contacts[i]) {
      assert contacts[i] in contacts;
    }
  }
}
