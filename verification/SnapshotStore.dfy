/** The persistence worker of shared/hashset.go, one system call after another. Every state the disk
    goes through is recorded, and the record is a run of the machine in module Persistence: a crash at
    any point of these methods is a crash after a prefix of that run. */
module SnapshotStores {
  import opened Common
  import opened HashMaps
  import Indexing
  import opened Listings
  import opened Membership
  import opened Persistence

  /** Which system calls of one attempt fail. */
  datatype Faults = Faults(mkdir: bool, create: bool, encode: bool, sync: bool, rename: bool, remove: bool)

  predicate Flawless(f: Faults) {
    !f.mkdir && !f.create && !f.encode && !f.sync && !f.rename
  }

  /** What one attempt leaves of the temporary file. */
  function TempAfter(temp: Content, image: Image, f: Faults): (r: Content) {
    if f.mkdir || f.create then temp
    else if Flawless(f) || !f.remove then Missing
    else if f.encode then Partial
    else Full(image, !f.sync)
  }

  class SnapshotStore {
    var file: Content
    var temp: Content
    var currentVersion: int
    ghost var states: seq<State>
    ghost var events: seq<Event>

    ghost predicate Valid()
      reads this
    {
      && IsRun(states, events) && Consistent(Last())
      && Last().disk == Disk(file, temp)
      && Last().process.Up? && Last().process.version == currentVersion
    }

    ghost function Last(): (s: State)
      requires |states| > 0
      reads this
    {
      states[|states| - 1]
    }

    ghost predicate AtWork(w: Worker)
      reads this
    {
      Valid() && Last().process.worker == w
    }

    /** The record only grows, and every new disk state holds the old file or the whole new snapshot. */
    twostate predicate Grows(image: Image)
      reads this
    {
      && |old(states)| <= |states| && states[..|old(states)|] == old(states)
      && forall i :: |old(states)| <= i < |states| ==>
        states[i].disk.file == old(file) || states[i].disk.file == Full(image, true)
    }

    /** A process that has just loaded, or failed to load, its snapshot from a disk in any state a
        crash can leave. */
    constructor (disk: Disk, loads: bool)
      requires Whole(disk.file)
      ensures AtWork(Idle) && file == disk.file && temp == disk.temp
      ensures currentVersion == LoadedVersion(disk.file, loads)
      ensures states[0] == State(disk, Down)
    {
      file, temp, currentVersion := disk.file, disk.temp, LoadedVersion(disk.file, loads);
      states := [State(disk, Down), Exec(State(disk, Down), Restart(loads))];
      events := [Restart(loads)];
    }

    ghost method Record(e: Event)
      requires |states| > 0 && IsRun(states, events) && Consistent(Last()) && Enabled(Last(), e)
      modifies this`states, this`events
      ensures states == old(states) + [Exec(old(Last()), e)]
      ensures IsRun(states, events) && Consistent(Last())
    {
      StepIsCrashConsistent(Last(), e, Exec(Last(), e));
      states, events := states + [Exec(Last(), e)], events + [e];
    }

    /** One attempt. The temporary file is removed after a failure, if that works. */
    method WriteSnapshotToDisk(image: Image, faults: Faults, ghost left: nat) returns (ok: bool)
      requires AtWork(Busy(Mkdir, image, left))
      modifies this
      ensures Valid() && Grows(image) && currentVersion == old(currentVersion)
      ensures ok <==> Flawless(faults)
      ensures Last().process == if ok then Up(currentVersion, Idle) else NextAttempt(currentVersion, image, left)
      ensures file == if ok then Full(image, true) else old(file)
      ensures temp == TempAfter(old(temp), image, faults)
      ensures faults.mkdir || faults.create ==> temp == old(temp)
      ensures !faults.mkdir && !faults.create && (ok || !faults.remove) ==> temp == Missing
    {
      ok := WriteTemp(image, faults, left);
      if !ok {
        return;
      }
      if faults.rename {
        Record(Failed);
        RemoveTemp(image, faults, left);
        return false;
      }
      file, temp := temp, Missing;
      Record(Done);
    }

    /** The part of an attempt before the rename. */
    method WriteTemp(image: Image, faults: Faults, ghost left: nat) returns (ok: bool)
      requires AtWork(Busy(Mkdir, image, left))
      modifies this
      ensures Valid() && Grows(image) && currentVersion == old(currentVersion) && file == old(file)
      ensures ok <==> !faults.mkdir && !faults.create && !faults.encode && !faults.sync
      ensures temp == if ok then Full(image, true) else TempAfter(old(temp), image, faults)
      ensures Last().process ==
        if ok then Up(currentVersion, Busy(Rename, image, left)) else NextAttempt(currentVersion, image, left)
    {
      if faults.mkdir {
        Record(Failed);
        return false;
      }
      Record(Done);
      if faults.create {
        Record(Failed);
        return false;
      }
      temp := Partial;
      Record(Done);
      ok := FillTemp(image, faults, left);
    }

    /** Encoding into the open temporary file, and syncing it. */
    method FillTemp(image: Image, faults: Faults, ghost left: nat) returns (ok: bool)
      requires AtWork(Busy(Encode, image, left)) && !faults.mkdir && !faults.create && temp == Partial
      modifies this
      ensures temp == if ok then Full(image, true) else TempAfter(old(temp), image, faults)
      ensures Valid() && Grows(image) && currentVersion == old(currentVersion) && file == old(file)
      ensures ok <==> !faults.encode && !faults.sync
      ensures Last().process ==
        if ok then Up(currentVersion, Busy(Rename, image, left)) else NextAttempt(currentVersion, image, left)
    {
      if faults.encode {
        Record(Failed);
        RemoveTemp(image, faults, left);
        return false;
      }
      temp := Full(image, false);
      Record(Done);
      if faults.sync {
        Record(Failed);
        RemoveTemp(image, faults, left);
        return false;
      }
      temp := Full(image, true);
      Record(Done);
      ok := true;
    }

    method RemoveTemp(ghost image: Image, faults: Faults, ghost left: nat)
      requires AtWork(Busy(Cleanup, image, left))
      modifies this
      ensures Valid() && Grows(image) && currentVersion == old(currentVersion) && file == old(file)
      ensures temp == if faults.remove then old(temp) else Missing
      ensures Last().process == NextAttempt(currentVersion, image, left)
    {
      if faults.remove {
        Record(Failed);
      } else {
        temp := Missing;
        Record(Done);
      }
    }

    /** Takes the next version number and tries to persist. `faults(i)` are the failures of attempt `i`. */
    method PersistSnapshot(image: Image, maxRetries: int, faults: nat -> Faults) returns (stored: bool)
      requires AtWork(Idle) && image.version == currentVersion + 1
      modifies this
      ensures AtWork(Idle) && Grows(image) && currentVersion == image.version
      ensures stored <==> exists i: nat :: i < maxRetries && Flawless(faults(i))
      ensures file == if stored then Full(image, true) else old(file)
      ensures stored ==> temp == Missing
    {
      currentVersion := image.version;
      Record(Begin(image, maxRetries));
      var attempt: nat := 0;
      stored := false;
      while attempt < maxRetries && !stored
        invariant Valid() && Grows(image) && currentVersion == image.version
        invariant 0 <= attempt <= Max(maxRetries, 0)
        invariant stored <==> exists i: nat :: i < attempt && Flawless(faults(i))
        invariant Last().process ==
          if stored then Up(currentVersion, Idle) else NextAttempt(currentVersion, image, Max(maxRetries, 0) - attempt)
        invariant file == if stored then Full(image, true) else old(file)
        invariant stored ==> temp == Missing
        decreases maxRetries - attempt
      {
        stored := WriteSnapshotToDisk(image, faults(attempt), maxRetries - attempt - 1);
        attempt := attempt + 1;
      }
    }
  }

  /** The image lists the map's entries in slot order. */
  ghost predicate IsImageOf(image: Image, h: HashMap<string, Identity>)
    reads h
  {
    Keys(image.entries) == h.keys && Values(image.entries) == h.values
  }

  /** One round of the persistence worker: it takes a snapshot of the map and persists it. The map's
      version counter and the process's are one. */
  method PersistMap(
        h: HashMap<string, Identity>, store: SnapshotStore, now: int, maxRetries: int, faults: nat -> Faults)
    returns (stored: bool, image: Image)
    requires h.Valid() && store.AtWork(Idle) && h.currentVersion == store.currentVersion
    modifies h`currentVersion, store
    ensures h.Valid() && h.Contents() == old(h.Contents()) && IsImageOf(image, h)
    ensures store.AtWork(Idle) && h.currentVersion == store.currentVersion == image.version == old(h.currentVersion) + 1
    ensures store.Grows(image) && store.file == if stored then Full(image, true) else old(store.file)
    ensures stored <==> exists i: nat :: i < maxRetries && Flawless(faults(i))
  {
    hide Indexing.Indexed;
    image := h.CreateSnapshot(now);
    stored := store.PersistSnapshot(image, maxRetries, faults);
  }

  /** A process that starts over a disk whose file is such an image has the map back, and counts on from
      its version. */
  method Reload(disk: Disk) returns (h: HashMap<string, Identity>, store: SnapshotStore)
    requires Whole(disk.file) && (disk.file.Full? ==> Distinct(Keys(disk.file.image.entries)))
    ensures fresh(h) && fresh(store) && h.Valid() && store.AtWork(Idle)
    ensures h.currentVersion == store.currentVersion && store.file == disk.file && store.temp == disk.temp
    ensures if disk.file.Full? then IsImageOf(disk.file.image, h) && h.currentVersion == disk.file.image.version
      else h.keys == [] && h.currentVersion == 0
  {
    h := new HashMap<string, Identity>();
    var _ := h.LoadFromDisk(if disk.file.Full? then Some(disk.file.image) else None);
    store := new SnapshotStore(disk, true);
  }

  /** Persist, lose the process, start again: if the snapshot was stored the new process has the same map,
      otherwise what the file held before, whatever the temporary file is. */
  method PersistAndReload(
        h: HashMap<string, Identity>, store: SnapshotStore, now: int, maxRetries: int, faults: nat -> Faults,
        left: Content)
    returns (stored: bool, h': HashMap<string, Identity>, store': SnapshotStore)
    requires h.Valid() && store.AtWork(Idle) && h.currentVersion == store.currentVersion
    requires store.file.Full? ==> Distinct(Keys(store.file.image.entries))
    modifies h`currentVersion, store
    ensures fresh(h') && fresh(store') && h'.Valid() && store'.AtWork(Idle)
    ensures h'.currentVersion == store'.currentVersion
    ensures stored ==> h.Valid() && h'.keys == h.keys && h'.Contents() == old(h.Contents())
    ensures stored ==> h'.currentVersion == old(h.currentVersion) + 1
    ensures !stored && old(store.file).Full? ==> IsImageOf(old(store.file).image, h')
    ensures !stored && !old(store.file).Full? ==> h'.keys == []
  {
    var image;
    stored, image := PersistMap(h, store, now, maxRetries, faults);
    IndexedKeysDistinct(h);
    h', store' := Reload(Disk(store.file, left));
    if stored {
      SameMap(h, h');
    }
  }

  lemma IndexedKeysDistinct(h: HashMap<string, Identity>)
    requires h.Valid()
    ensures Distinct(h.keys)
  {
    Indexing.IndexedDistinct(h.keys, h.indexMap);
  }

  lemma SameMap(h: HashMap<string, Identity>, h': HashMap<string, Identity>)
    requires h.Valid() && h'.Valid() && h'.keys == h.keys && h'.values == h.values
    ensures h'.Contents() == h.Contents()
  {
    SlotsUnique(h.keys, h.indexMap, h'.indexMap);
  }
}
