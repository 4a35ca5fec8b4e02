/** How snapshots reach the disk: written to a temporary file, synced, and renamed over the previous
    one, with retries, failures of every system call, crashes between any two of them, and restarts.
    Renaming is atomic; what was not synced may be anything after a crash. */
module Persistence {
  import opened Common
  import opened HashMaps
  import opened Membership

  type Image = Snapshot<string, Identity>

  /** What a path holds. `Partial` is an incomplete write. */
  datatype Content = Missing | Partial | Full(image: Image, synced: bool)

  /** Where the persistence worker stands with a snapshot; `left` attempts remain after this one. */
  datatype Stage = Mkdir | Create | Encode | Sync | Rename | Cleanup

  datatype Worker = Idle | Busy(stage: Stage, image: Image, left: nat)

  datatype Process = Down | Up(version: int, worker: Worker)

  datatype Disk = Disk(file: Content, temp: Content)

  datatype State = State(disk: Disk, process: Process)

  datatype Event =
    | Begin(image: Image, maxRetries: int)  // CreateSnapshot, then the retry loop
    | Done                                  // the pending system call succeeds
    | Failed                                // the pending system call fails
    | Crash(after: Disk)
    | Restart(loads: bool)

  function NextAttempt(version: int, image: Image, left: nat): (r: Process) {
    Up(version, if left == 0 then Idle else Busy(Mkdir, image, left - 1))
  }

  function LoadedVersion(file: Content, loads: bool): (r: int) {
    if file.Full? && loads then file.image.version else 0
  }

  /** What is left of a path's content after a crash. */
  ghost predicate Survives(before: Content, after: Content) {
    (before.Missing? || (before.Full? && before.synced)) ==> after == before
  }

  ghost predicate Enabled(s: State, e: Event) {
    match e
    case Begin(image, _) => s.process.Up? && s.process.worker.Idle? && image.version == s.process.version + 1
    case Done => s.process.Up? && s.process.worker.Busy?
    case Failed => s.process.Up? && s.process.worker.Busy?
    case Crash(after) => s.process.Up? && Survives(s.disk.file, after.file) && Survives(s.disk.temp, after.temp)
    case Restart(_) => s.process.Down?
  }

  ghost function Exec(s: State, e: Event): (r: State)
    requires Enabled(s, e)
  {
    match e
    case Begin(image, maxRetries) =>
      s.(process := NextAttempt(image.version, image, Max(maxRetries, 0)))
    case Done =>
      var Up(version, Busy(stage, image, left)) := s.process;
      match stage {
        case Mkdir => s.(process := Up(version, Busy(Create, image, left)))
        case Create => State(s.disk.(temp := Partial), Up(version, Busy(Encode, image, left)))
        case Encode => State(s.disk.(temp := Full(image, false)), Up(version, Busy(Sync, image, left)))
        case Sync => State(s.disk.(temp := SyncedTemp(s.disk.temp)), Up(version, Busy(Rename, image, left)))
        case Rename => State(Disk(s.disk.temp, Missing), Up(version, Idle))
        case Cleanup => State(s.disk.(temp := Missing), NextAttempt(version, image, left))
      }
    case Failed =>
      var Up(version, Busy(stage, image, left)) := s.process;
      match stage {
        case Mkdir => s.(process := NextAttempt(version, image, left))
        case Create => s.(process := NextAttempt(version, image, left))
        case Encode => s.(process := Up(version, Busy(Cleanup, image, left)))
        case Sync => s.(process := Up(version, Busy(Cleanup, image, left)))
        case Rename => s.(process := Up(version, Busy(Cleanup, image, left)))
        case Cleanup => s.(process := NextAttempt(version, image, left))
      }
    case Crash(after) => State(after, Down)
    case Restart(loads) => s.(process := Up(LoadedVersion(s.disk.file, loads), Idle))
  }

  function SyncedTemp(temp: Content): (r: Content) {
    if temp.Full? then temp.(synced := true) else temp
  }

  ghost predicate Step(s: State, e: Event, s': State) {
    Enabled(s, e) && s' == Exec(s, e)
  }

  ghost predicate IsRun(states: seq<State>, events: seq<Event>) {
    && |states| == |events| + 1
    && forall i :: 0 <= i < |events| ==> Step(states[i], events[i], states[i + 1])
  }

  // ----- Crash consistency -----

  ghost predicate Whole(c: Content) {
    c.Missing? || (c.Full? && c.synced)
  }

  /** The snapshot file is whole, and the temporary file is what the worker's stage needs it to be.
      Nothing is assumed of a temporary file that an earlier process left behind. */
  ghost predicate Consistent(s: State) {
    && Whole(s.disk.file)
    && (s.process.Up? && s.process.worker.Busy? ==>
      var Busy(stage, image, _) := s.process.worker;
      && (stage == Sync ==> s.disk.temp == Full(image, false))
      && (stage == Rename ==> s.disk.temp == Full(image, true)))
  }

  /** Before and after any step, failure or crash, the snapshot file is the same, or it became the
      complete snapshot that the worker was persisting. */
  ghost predicate ReplacesWhole(s: State, s': State) {
    || s'.disk.file == s.disk.file
    || (s.process.Up? && s.process.worker.Busy? && s'.disk.file == Full(s.process.worker.image, true))
  }

  lemma StepIsCrashConsistent(s: State, e: Event, s': State)
    requires Consistent(s) && Step(s, e, s')
    ensures Consistent(s') && ReplacesWhole(s, s')
  {}

  lemma {:induction false} RunIsCrashConsistent(states: seq<State>, events: seq<Event>, n: nat)
    requires IsRun(states, events) && Consistent(states[0]) && n < |states|
    ensures Consistent(states[n]) && Whole(states[n].disk.file)
  {
    if n > 0 {
      RunIsCrashConsistent(states, events, n - 1);
      StepIsCrashConsistent(states[n - 1], events[n - 1], states[n]);
    }
  }

  /** From the moment a snapshot is taken until the next one is taken, across failures, retries, a
      crash and restarts: the file holds its previous content or all of the new snapshot. */
  lemma {:induction false} PreviousOrComplete(states: seq<State>, events: seq<Event>, a: nat, b: nat)
    requires IsRun(states, events) && Consistent(states[0])
    requires a < b < |states| && events[a].Begin?
    requires forall i :: a < i < b ==> !events[i].Begin?
    ensures states[b].disk.file == states[a].disk.file || states[b].disk.file == Full(events[a].image, true)
    ensures states[b].process.Up? && states[b].process.worker.Busy? ==>
      states[b].process.worker.image == events[a].image && states[b].disk.file == states[a].disk.file
    decreases b
  {
    assert Step(states[b - 1], events[b - 1], states[b]);
    if a < b - 1 {
      PreviousOrComplete(states, events, a, b - 1);
      RunIsCrashConsistent(states, events, b - 1);
    }
  }

  // ----- Versions -----

  function VersionOf(c: Content): (r: int) {
    if c.Full? then c.image.version else 0
  }

  /** The running process counts from at least the version on disk, and a snapshot on its way is newer. */
  ghost predicate CountsOn(s: State) {
    s.process.Up? && s.disk.file.Full? ==>
      && VersionOf(s.disk.file) <= s.process.version
      && (s.process.worker.Busy? ==> VersionOf(s.disk.file) < s.process.worker.image.version)
  }

  ghost predicate BusyWithCurrent(s: State) {
    s.process.Up? && s.process.worker.Busy? ==> s.process.worker.image.version == s.process.version
  }

  /** The restart could not load a snapshot that is there, and starts counting below its version. */
  ghost predicate Forgets(s: State, e: Event) {
    e.Restart? && !e.loads && s.disk.file.Full? && s.disk.file.image.version >= 1
  }

  /** A snapshot that replaces nothing, or one of a lower version. */
  ghost predicate IsNewer(before: Content, after: Content) {
    after.Full? && (before.Full? ==> VersionOf(before) < VersionOf(after))
  }

  lemma StepCountsOn(s: State, e: Event, s': State)
    requires Consistent(s) && CountsOn(s) && BusyWithCurrent(s) && Step(s, e, s') && !Forgets(s, e)
    ensures CountsOn(s') && BusyWithCurrent(s')
    ensures s'.disk.file == s.disk.file || IsNewer(s.disk.file, s'.disk.file)
  {}

  ghost predicate Remembers(states: seq<State>, events: seq<Event>, from: nat)
    requires |states| > |events|
  {
    forall i :: from <= i < |events| ==> !Forgets(states[i], events[i])
  }

  /** Each content of the snapshot file is its previous content, or of a higher version. */
  ghost predicate InVersionOrder(states: seq<State>) {
    forall a, b :: 0 <= a <= b < |states| ==>
      states[b].disk.file == states[a].disk.file || IsNewer(states[a].disk.file, states[b].disk.file)
  }

  /** Over any run in which no restart forgets a positive version, each new content of the snapshot file
      has a higher version than every earlier one, and the file never disappears. */
  lemma {:induction false} VersionsIncrease(states: seq<State>, events: seq<Event>, a: nat, b: nat)
    requires IsRun(states, events) && Consistent(states[0]) && states[0].process.Down?
    requires Remembers(states, events, 0) && a <= b < |states|
    ensures CountsOn(states[b]) && BusyWithCurrent(states[b])
    ensures states[b].disk.file == states[a].disk.file || IsNewer(states[a].disk.file, states[b].disk.file)
    decreases b
  {
    if b > 0 {
      VersionsIncrease(states, events, if a < b then a else a - 1, b - 1);
      RunIsCrashConsistent(states, events, b - 1);
      StepCountsOn(states[b - 1], events[b - 1], states[b]);
    }
  }

  /** After a restart that could not load a snapshot of a positive version, the next snapshot that is
      taken has version 1, and replaces a content that is not older. */
  lemma ForgettingRestartBreaksOrder(s: State, image: Image, maxRetries: int)
    returns (states: seq<State>, events: seq<Event>)
    requires s.process.Down? && Forgets(s, Restart(false)) && image.version == 1 && maxRetries > 0
    ensures IsRun(states, events) && states[0] == s && |events| > 0 && events[0] == Restart(false)
    ensures Remembers(states, events, 1)
    ensures states[|states| - 1].disk.file == Full(image, true)
    ensures !IsNewer(s.disk.file, states[|states| - 1].disk.file)
  {
    states, events := [s], [];
    states, events := Extend(states, events, Restart(false));
    states, events := Extend(states, events, Begin(image, maxRetries));
    states, events := Extend(states, events, Done);
    states, events := Extend(states, events, Done);
    states, events := Extend(states, events, Done);
    states, events := Extend(states, events, Done);
    states, events := Extend(states, events, Done);
  }

  /** However the process goes on after this restart, as long as no later restart forgets anything, the
      versions that reach the file are in order. */
  ghost predicate KeepsOrder(s: State, restart: Event) {
    forall states: seq<State>, events: seq<Event> ::
      && IsRun(states, events) && states[0] == s
      && |events| > 0 && events[0] == restart && Remembers(states, events, 1)
      ==> InVersionOrder(states)
  }

  /** Exactly which restarts keep the versions on disk in order: those that load the snapshot, or find
      none, or find one whose version is not positive. */
  lemma RestartKeepsOrderExactly(s: State, loads: bool)
    requires Consistent(s) && s.process.Down?
    ensures KeepsOrder(s, Restart(loads)) <==> loads || !s.disk.file.Full? || s.disk.file.image.version <= 0
  {
    if loads || !s.disk.file.Full? || s.disk.file.image.version <= 0 {
      forall states: seq<State>, events: seq<Event> |
        && IsRun(states, events) && states[0] == s
        && |events| > 0 && events[0] == Restart(loads) && Remembers(states, events, 1)
        ensures InVersionOrder(states)
      {
        forall a, b | 0 <= a <= b < |states|
          ensures states[b].disk.file == states[a].disk.file || IsNewer(states[a].disk.file, states[b].disk.file)
        {
          VersionsIncrease(states, events, a, b);
        }
      }
    } else {
      var taken := OtherImage(s.disk.file);
      var states, events := ForgettingRestartBreaksOrder(s, taken, 1);
      assert !InVersionOrder(states);
    }
  }

  /** Some snapshot of version 1 that differs from what the file holds. */
  ghost function OtherImage(c: Content): (image: Image)
    ensures image.version == 1 && (c.Full? ==> c.image != image)
  {
    var timestamp := if c.Full? then c.image.timestamp + 1 else 0;
    Snapshot(1, timestamp, [])
  }

  lemma Extend(states: seq<State>, events: seq<Event>, e: Event) returns (states': seq<State>, events': seq<Event>)
    requires IsRun(states, events) && Enabled(states[|states| - 1], e)
    ensures states' == states + [Exec(states[|states| - 1], e)] && events' == events + [e]
    ensures IsRun(states', events')
  {
    states', events' := states + [Exec(states[|states| - 1], e)], events + [e];
  }
}
