/** The work counter of the benchmark: a controller adds tokens, any number of workers claim them with
    a load followed by a compare-and-swap, and nothing but those single steps is atomic. */
module WorkTokens {
  import opened Common

  /** A worker is between two loop rounds, holds a loaded value, is working, or waits for a signal. */
  datatype Worker = Ready | Loaded(current: int) | Working | Waiting

  datatype Event =
    | Issue                      // the controller adds one
    | Load(w: nat)
    | Claim(w: nat)              // the test and the compare-and-swap
    | Finish(w: nat)             // performWork returns
    | Wake(w: nat)

  /** Workers are numbered; one that never stepped is ready. */
  datatype State = State(counter: int, workers: map<nat, Worker>)

  function At(s: State, w: nat): (r: Worker) {
    if w in s.workers then s.workers[w] else Ready
  }

  predicate Enabled(s: State, e: Event) {
    match e
    case Issue => true
    case Load(w) => At(s, w).Ready?
    case Claim(w) => At(s, w).Loaded?
    case Finish(w) => At(s, w).Working?
    case Wake(w) => At(s, w).Waiting?
  }

  /** The claim succeeds: the loaded value was positive and is still the counter's value. */
  predicate Succeeds(s: State, e: Event) {
    e.Claim? && At(s, e.w).Loaded? && At(s, e.w).current > 0 && s.counter == At(s, e.w).current
  }

  function Exec(s: State, e: Event): (r: State) {
    match e
    case Issue => s.(counter := s.counter + 1)
    case Load(w) => s.(workers := s.workers[w := Loaded(s.counter)])
    case Claim(w) =>
      if Succeeds(s, e) then State(s.counter - 1, s.workers[w := Working])
      else s.(workers := s.workers[w := Waiting])
    case Finish(w) => s.(workers := s.workers[w := Ready])
    case Wake(w) => s.(workers := s.workers[w := Ready])
  }

  const START := State(0, map[])

  function After(run: seq<Event>): (r: State) {
    if run == [] then START else Exec(After(run[..|run| - 1]), run[|run| - 1])
  }

  ghost predicate IsRun(run: seq<Event>) {
    forall i :: 0 <= i < |run| ==> Enabled(After(run[..i]), run[i])
  }

  /** The positions of the run at which a token was issued, and at which one was claimed. */
  ghost function Issued(run: seq<Event>): (r: set<nat>) {
    set i | 0 <= i < |run| && run[i].Issue?
  }

  ghost function Claimed(run: seq<Event>): (r: set<nat>) {
    set i | 0 <= i < |run| && SucceedsAt(run, i)
  }

  ghost predicate SucceedsAt(run: seq<Event>, i: nat)
    requires i < |run|
  {
    Succeeds(After(run[..i]), run[i])
  }

  /** The claims of a prefix are the claims of the run that lie in it. */
  lemma ClaimedPrefix(run: seq<Event>, k: nat)
    requires k <= |run|
    ensures Claimed(run[..k]) == set i | i in Claimed(run) && i < k
  {
    forall i | 0 <= i < k ensures SucceedsAt(run[..k], i) == SucceedsAt(run, i) {
      assert run[..k][..i] == run[..i];
    }
  }

  ghost function Finished(run: seq<Event>): (r: set<nat>) {
    set i | 0 <= i < |run| && run[i].Finish?
  }

  lemma PositionsGrow(run: seq<Event>)
    requires run != []
    ensures var n := |run| - 1;
      && Issued(run) == Issued(run[..n]) + (if run[n].Issue? then {n} else {})
      && Claimed(run) == Claimed(run[..n]) + (if SucceedsAt(run, n) then {n} else {})
      && Finished(run) == Finished(run[..n]) + (if run[n].Finish? then {n} else {})
  {
    var n := |run| - 1;
    ClaimedPrefix(run, n);
  }

  /** Conservation: at any time the counter is what was issued minus what was claimed, it is never
      negative, and each claim is being worked on or was finished, once. */
  lemma {:induction false} TokensConserved(run: seq<Event>)
    requires IsRun(run)
    ensures After(run).counter == |Issued(run)| - |Claimed(run)| >= 0
    ensures |Claimed(run)| == |WorkingIn(After(run))| + |Finished(run)|
  {
    if run != [] {
      var n := |run| - 1;
      var before := run[..n];
      assert forall i :: 0 <= i < n ==> before[..i] == run[..i];
      TokensConserved(before);
      PositionsGrow(run);
      var s := After(before);
      BusyChanges(s, run[n]);
    }
  }

  ghost function WorkingIn(s: State): (r: set<nat>) {
    set w | w in s.workers && s.workers[w].Working?
  }

  lemma WorkerMoves(counter: int, workers: map<nat, Worker>, w: nat, x: Worker)
    ensures WorkingIn(State(counter, workers[w := x]))
      == WorkingIn(State(counter, workers)) - {w} + (if x.Working? then {w} else {})
  {}

  lemma BusyChanges(s: State, e: Event)
    requires Enabled(s, e)
    ensures |WorkingIn(Exec(s, e))|
      == |WorkingIn(s)| + (if Succeeds(s, e) then 1 else 0) - (if e.Finish? then 1 else 0)
  {
    var b, b' := WorkingIn(s), WorkingIn(Exec(s, e));
    if e.Issue? {
      assert b' == b;
    } else {
      var w := e.w;
      WorkerMoves(s.counter, s.workers, w, Exec(s, e).workers[w]);
      assert WorkingIn(State(s.counter, s.workers)) == b;
      assert w in b <==> At(s, w).Working?;
      assert b' == b - {w} + (if Exec(s, e).workers[w].Working? then {w} else {});
    }
  }

  /** The number of the token that the claim at position `i` takes: tokens are used up in order. */
  ghost function TokenNumber(run: seq<Event>, i: nat): (r: nat)
    requires i <= |run|
  {
    |Claimed(run[..i])|
  }

  lemma ClaimsAfter(run: seq<Event>, i: nat, j: nat)
    requires i in Claimed(run) && i < j <= |run|
    ensures TokenNumber(run, i) < TokenNumber(run, j)
  {
    ClaimedPrefix(run, i);
    ClaimedPrefix(run, j);
    assert i !in Claimed(run[..i]);
    assert Claimed(run[..i]) + {i} <= Claimed(run[..j]);
    SubsetCardinality(Claimed(run[..i]) + {i}, Claimed(run[..j]));
  }

  /** What the counter shows before any step of a run. */
  lemma CounterAt(run: seq<Event>, i: nat)
    requires IsRun(run) && i <= |run|
    ensures After(run[..i]).counter == |Issued(run[..i])| - TokenNumber(run, i)
  {
    assert forall k :: 0 <= k < i ==> run[..i][..k] == run[..k];
    TokensConserved(run[..i]);
  }

  /** No token is claimed before it was issued. */
  lemma ClaimedAfterIssued(run: seq<Event>, i: nat)
    requires IsRun(run) && i in Claimed(run)
    ensures TokenNumber(run, i) < |Issued(run[..i])|
  {
    assert SucceedsAt(run, i);
    CounterAt(run, i);
  }

  /** No token is claimed twice. */
  lemma TokensClaimedOnce(run: seq<Event>, i: nat, j: nat)
    requires IsRun(run) && i < j && i in Claimed(run) && j in Claimed(run)
    ensures TokenNumber(run, i) < |Issued(run[..i])|
    ensures TokenNumber(run, i) < TokenNumber(run, j) < |Issued(run[..j])|
  {
    ClaimsAfter(run, i, j);
    ClaimedAfterIssued(run, i);
    ClaimedAfterIssued(run, j);
  }

  ghost predicate ClaimsWith(run: seq<Event>, i: nat, value: int)
    requires i < |run|
  {
    run[i].Claim? && At(After(run[..i]), run[i].w) == Loaded(value)
  }

  /** When one claim with a loaded value has succeeded, a later one with the same value succeeds exactly
      if the counter came back to it: as many tokens were issued in between as were claimed. */
  lemma SecondClaimExactly(run: seq<Event>, i: nat, j: nat, value: int)
    requires IsRun(run) && i < j < |run| && i in Claimed(run)
    requires ClaimsWith(run, i, value) && ClaimsWith(run, j, value)
    ensures j in Claimed(run) <==>
      |Issued(run[..j])| - |Issued(run[..i])| == TokenNumber(run, j) - TokenNumber(run, i)
  {
    assert SucceedsAt(run, i);
    CounterAt(run, i);
    CounterAt(run, j);
    assert j in Claimed(run) <==> SucceedsAt(run, j);
  }

  /** So of the workers that loaded the same value, at most one claims until the next token is issued. */
  lemma StaleClaimFails(run: seq<Event>, i: nat, j: nat, value: int)
    requires IsRun(run) && i < j < |run| && i in Claimed(run)
    requires ClaimsWith(run, i, value) && ClaimsWith(run, j, value)
    requires forall k :: i <= k < j ==> !run[k].Issue?
    ensures j !in Claimed(run)
  {
    assert Issued(run[..j]) == Issued(run[..i]);
    ClaimsAfter(run, i, j);
    SecondClaimExactly(run, i, j, value);
  }

  lemma NoSteps()
    ensures IsRun([]) && After([]) == START
  {}

  /** A longer run has the claims of the shorter one, and the last step's, if that succeeds. */
  lemma Extend(run: seq<Event>, e: Event) returns (run': seq<Event>)
    requires IsRun(run) && Enabled(After(run), e)
    ensures run' == run + [e] && IsRun(run') && After(run') == Exec(After(run), e)
    ensures Claimed(run) <= Claimed(run')
    ensures Succeeds(After(run), e) ==>
      |run| in Claimed(run') && ClaimsWith(run', |run|, At(After(run), e.w).current)
    ensures forall i: nat, v :: i < |run| && ClaimsWith(run, i, v) ==> ClaimsWith(run', i, v)
  {
    run' := run + [e];
    assert run'[..|run|] == run;
    forall i | 0 <= i < |run| ensures run'[..i] == run[..i] {}
    ClaimedPrefix(run', |run|);
    if Succeeds(After(run), e) {
      assert SucceedsAt(run', |run|);
    }
  }

  /** Two workers load the value 1, and both claim with it: a token was issued in between. */
  lemma BothClaimSameValue() returns (run: seq<Event>, i: nat, j: nat)
    ensures IsRun(run) && i < j < |run| && i in Claimed(run) && j in Claimed(run)
    ensures ClaimsWith(run, i, 1) && ClaimsWith(run, j, 1) && run[i].w != run[j].w
  {
    hide IsRun, After, Claimed, ClaimsWith;
    NoSteps();
    run := Extend([], Issue);
    run := Extend(run, Load(0));
    run := Extend(run, Load(1));
    run := Extend(run, Claim(0));
    run := Extend(run, Issue);
    assert After(run) == State(1, map[0 := Working, 1 := Loaded(1)]);
    run := Extend(run, Claim(1));
    i, j := 3, 5;
  }
}
