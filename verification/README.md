# Verified model of the peer-discovery system

A Dafny model of the peer-discovery system's data structures and protocols, with proofs.
`dafny verify dfyconfig.toml` checks all of it.

## What is modelled

- **The indexed min-heap** (`Heaps`, `Indexing`, `Listings`, `Sampling`, `SamplingCounts`, `PriorityQueue`). The class
  keeps two parallel sequences and a slot map, as the source does, and every operation is proved to act on a plain
  map from value to priority. Random draws are parameters, so what is proved about random subsets holds for every
  sequence of draws; `SamplingCounts` counts the draws that lead to each subset.
- **The map with snapshots** (`HashMap`, `Persistence`, `SnapshotStore`). Swap-with-last removal against a plain
  map, the snapshot round trip, and the write protocol: `Persistence` is a machine whose steps are single system
  calls, failures, crashes and restarts; `SnapshotStore` is the worker's code, whose recorded disk states are
  proved to be a run of that machine.
- **The membership manager** (`Membership`, `ClientManager`, `ManagerRuns`, `Interleaving`). `Membership` says what
  one operation does to the pair of registry and liveness queue, `ClientManager` is the code over the two
  structures, `ManagerRuns` has the whole runs of operations that do not overlap, and `Interleaving` the runs in
  which each call into a structure, each clock reading and each ping is a step of its own.
- **The gossip client** (`QueryOrder`, `ReceivedContacts`, `Client`, `QueryRuns`, `QueryOvertaking`, `QueryCoverage`,
  `CallbackOrder`, `Gossip`, `ContactLists`). The queue of contacts is proved to keep the order of arrival; `QueryRuns` has whole runs
  of one client, `QueryOvertaking` says exactly when a contact is served in turn, `QueryCoverage` whether everyone in
  the liveness queue is served, `CallbackOrder` what the order of overlapping callbacks does to the queue of contacts,
  `Gossip` whole runs of a network with a bootstrap server, and `ContactLists` the merged and sorted contact list.
- **The benchmark core** (`WorkTokens`, `RingBuffer`, `Metrics`).

`Common` and `Sorting` hold shared vocabulary; `Sorting.SortSlice` stands for the library sort, of which only its
contract is used, so nothing depends on how equal elements are ordered.

## What does not hold, and exactly when it does

- *Versions on disk increase.* Not after a restart that could not load an existing snapshot of a positive version:
  the manager logs the failure and counts from 0 again, so that for example version 2 is replaced by version 1
  (`Persistence.ForgettingRestartBreaksOrder`). Whatever follows exactly the other restarts is in order
  (`Persistence.RestartKeepsOrderExactly`).
- *Queued ids are registered.* True when operations do not overlap; with overlap an orphan can remain
  (`Interleaving.OrphanReachable`). Over whole runs it holds for an id exactly if the id is never deleted from the
  registry while it is queued or about to be (`Interleaving.BackedExactlyWithoutDeletion`).
- *Cleanup evicts only stale entries.* True without overlap; `Interleaving.FreshEntryEvicted` shows the case, and
  `Interleaving.EvictsFreshExactly` which steps between a pass's peek and its extraction cause it.
- *Entries are no older than the age limit plus the time since the last cleanup.* True without overlap; with overlap an
  add that read the clock earlier can insert an older entry (`Interleaving.StaleEntryAfterCleanup`). It holds from the
  end of a pass on exactly if no operation under way then has read the clock before the cutoff
  (`Interleaving.StaysFreshExactly`).
- *Waiting contacts are in the liveness queue.* Lost by clearing the manager, and by an answer of a contact that was
  dropped meanwhile (`QueryRuns.UnbackedReachable`). Over whole runs it holds exactly without such steps
  (`QueryRuns.RunsStayBacked`).
- *Everyone in the liveness queue is asked sooner or later.* A contact that is asked and does not answer does not wait
  again until its next health check (`QueryCoverage.UncoveredReachable`), nor does one that is taken and cannot be
  asked; over whole runs nobody is lost exactly without such steps (`QueryCoverage.RunsStayCovered`).
- *The queue of contacts is first in, first out.* Not for a contact that a health check or an add makes wait again while
  its own answer is outstanding: the answer moves it behind newer ones (`QueryOvertaking.OvertakenReachable`). It is
  for exactly all others (`QueryOvertaking.ServedInTimeExactly`).
- *Waiting contacts and the liveness queue agree once all callbacks have run.* With overlapping operations the callbacks
  can run in the other order than the changes they report (`CallbackOrder.QueuedNotWaiting`,
  `CallbackOrder.WaitingNotQueued`); `CallbackOrder.RunsInformExactly` and `CallbackOrder.RunsJustifyExactly` say
  exactly when.
- *After a clear, leftover ids are not queued again.* The one whose answer was outstanding at the clear is, once
  (`QueryRuns.OutstandingQueuesOnce`); no other is (`QueryRuns.ClearedQueueDrains`).
- *Of two workers that loaded the same counter value, one claims.* Both can if a token was issued in between
  (`WorkTokens.BothClaimSameValue`); `WorkTokens.SecondClaimExactly` says when.
- *The count of new contacts is the number added.* Contacts without id or name are counted although they are not
  registered (`QueryRuns.IgnoredContactIsCounted`, `QueryRuns.EmptyIdIsCounted`, and exactly when:
  `QueryRuns.CountIsGrowthExactly`).
- *A loaded map is well formed.* Exactly if the file repeats no key (`HashMaps.HashMap.LoadFromDisk`; a file that does:
  `HashMaps.LoadRepeatedKey`).

Comments in the source that the code does not follow, where the model follows the code: `client/main.go:739` speaks
of a negated priority, but priorities are counter values and the smallest is taken; `client/main.go:97` speaks of a low
initial priority, but a new contact goes to the back; `client/main.go:720` speaks of 15 clients, but the configured
subset size is used.

## Model

| member | source | states |
|---|---|---|
| Heaps.OneDirectionSuffices | shared/priority_queue.go:175-181 | around an overwritten slot, a value below its parent is at most its children and otherwise its parent edge is fine, so repairing in the one direction the code picks is enough |
| Heaps.SwapRemovedHole | shared/priority_queue.go:166-181 | after the last element fills the freed slot, the heap is in order except around that slot, and the branch taken meets the precondition of its repair |
| Heaps.OverwriteRepair | shared/priority_queue.go:50-61 | after a priority update, a lowered value needs only sifting up, a raised one only sifting down, an equal one nothing |
| Heaps.SiftUpStep | shared/priority_queue.go:431-442 | one iteration either finds the heap repaired or moves the only disorder exactly one level up |
| Heaps.SiftDownStep | shared/priority_queue.go:447-469 | one iteration either finds the heap repaired or moves the only disorder exactly one level down, to the smallest child |
| Heaps.RootIsMinimum | shared/priority_queue.go:92-94 | in a heap the root is a global minimum |
| Heaps.HeightEncloses | shared/priority_queue.go:543-551 | for n > 0 the height h satisfies 2^(h-1) <= n < 2^h |
| Heaps.HeightIsUnique | shared/priority_queue.go:543-551 | no other number satisfies that bound |
| Heaps.DepthBelowHeight | shared/priority_queue.go:430-470 | every slot of an n-element heap has fewer edges above it than the height, which bounds the swaps of one sift |
| PriorityQueues.PriorityQueue.HeapifyUp | shared/priority_queue.go:430-443 | restores heap order, leaves the value-to-priority map as it was, and makes fewer swaps than the heap has levels |
| PriorityQueues.PriorityQueue.HeapifyDown | shared/priority_queue.go:446-470 | restores heap order, leaves the value-to-priority map as it was, and makes fewer swaps than the heap has levels |
| PriorityQueues.PriorityQueue.Swap | shared/priority_queue.go:473-481 | exchanges two slots in both sequences and keeps the slot map an exact inverse |
| PriorityQueues.PriorityQueue.Insert | shared/priority_queue.go:44-77 | the map gains or updates exactly one entry; true exactly if the value was new; heap order and slot map kept; swaps bounded by the height |
| PriorityQueues.PriorityQueue.ExtractMin | shared/priority_queue.go:82-118 | nothing exactly on the empty queue; otherwise a globally minimal entry, the same that Peek shows, and exactly that entry is gone; swaps bounded by the height |
| PriorityQueues.PriorityQueue.ExtractMinBulk | shared/priority_queue.go:122-132 | exactly min(max(m, 0), size) entries leave, smallest first, and nothing that left is above anything that stayed |
| PriorityQueues.PriorityQueue.Remove | shared/priority_queue.go:147-184 | true exactly if the value was there, and the map loses exactly that value; heap order and slot map kept; swaps bounded by the height |
| PriorityQueues.PriorityQueue.FillFromLast | shared/priority_queue.go:154-173 | exactly the entry in the slot leaves, the slot map stays exact, and what is out of order is only around that slot, where the branch taken is the repair that fits |
| PriorityQueues.PriorityQueue.Clear | shared/priority_queue.go:374-381 | the map is empty and the representation well formed |
| PriorityQueues.PriorityQueue.Peek | shared/priority_queue.go:188-199 | nothing exactly on the empty queue, otherwise a globally minimal entry |
| PriorityQueues.PriorityQueue.GetPriority | shared/priority_queue.go:203-214 | the priority exactly if the value is there |
| PriorityQueues.PriorityQueue.ToSortedSlices | shared/priority_queue.go:398-423 | terminates with each entry exactly once, priorities ascending; the queue itself is not modified |
| PriorityQueues.PriorityQueue.GetSortedEntries | shared/priority_queue.go:560-577 | each entry exactly once, priorities ascending |
| Listings.SortedListingsAgree | shared/priority_queue.go:398-423 | two ascending listings of the same entries have equal priority sequences, ties or not: the drained copy and the library sort agree |
| Listings.DrainStep | shared/priority_queue.go:415-420 | taking a minimal entry extends an ascending listing of what left, and keeps it below what remains |
| PriorityQueues.PriorityQueue.ValidateUnsafe | shared/priority_queue.go:497-530 | true exactly when the full representation invariant holds, for arbitrary field contents |
| Indexing.IndexedBySize | shared/priority_queue.go:503-513 | checking each value's slot and the size of the slot map leaves no room for a stale key |
| PriorityQueues.PriorityQueue.HeapHeight | shared/priority_queue.go:539-551 | the reported height h satisfies 2^(h-1) <= n < 2^h, and is 0 for the empty queue |
| PriorityQueues.PriorityQueue.GetRandomSubset | shared/priority_queue.go:285-347 | whatever the draws, if it returns it returns min(max(n, 0), size) different members, and it returns what the scheme for that size prescribes |
| PriorityQueues.PriorityQueue.RejectionBranch | shared/priority_queue.go:309-329 | the loop computes rejection sampling of the given draws |
| PriorityQueues.PriorityQueue.ReservoirBranch | shared/priority_queue.go:330-344 | the loop computes reservoir sampling of the given draws |
| Sampling.SampleSelects | shared/priority_queue.go:285-347 | every outcome of either scheme is a selection of min(max(n, 0), size) different members; for more than half of the members size - n draws are needed and enough |
| Sampling.ReservoirSelects | shared/priority_queue.go:330-344 | every replacement keeps the selection free of duplicates, and size - n draws always suffice |
| Sampling.FreshIndex | shared/priority_queue.go:309-328 | pigeonhole: while fewer values are chosen than there are, some index is not a duplicate |
| Sampling.RejectNeverStuck | shared/priority_queue.go:309-329 | after any draws whatsoever, some further draws let the rejection branch return |
| Sampling.SampleReachesAll | shared/priority_queue.go:285-347 | every subset of the requested size is the outcome of some draws |
| SamplingCounts.EachSubsetEquallyOften | shared/priority_queue.go:330-344 | fairness of the reservoir branch: of all ways to draw a slot up to k for each element k from n on, each subset of n values is returned for exactly (size - n)! |
| SamplingCounts.SampledEquallyOften | shared/priority_queue.go:285-347 | the same for the random subset itself, when more than half of the members are requested |
| SamplingCounts.OnlyRemaindersMatter | shared/priority_queue.go:336-340 | a draw acts only through its remainder modulo the number of elements seen |
| SamplingCounts.VectorsMeans | shared/priority_queue.go:336-340 | those ways are exactly the lists of one slot for each remaining element, none beyond the element itself |
| HashMaps.HashMap.Put | shared/hashset.go:90-111 | the map gains or updates exactly one key; the previous value is returned exactly if there was one; a new key goes to the end |
| HashMaps.HashMap.Get | shared/hashset.go:114-125 | the value exactly if the key is there |
| HashMaps.HashMap.Remove | shared/hashset.go:128-166 | the map loses exactly the key, its value is returned, and the last entry takes the freed place while all others stay |
| HashMaps.HashMap.Clear | shared/hashset.go:232-239 | the map is empty, the version kept |
| HashMaps.HashMap.PutAll | shared/hashset.go:242-250 | a key that is put has the value of its last entry, every other key what it had; new size = old size + entries - returned count |
| HashMaps.HashMap.Entries | shared/hashset.go:299-308 | all pairs in slot order |
| HashMaps.HashMap.CreateSnapshot | shared/hashset.go:386-411 | a snapshot of all pairs in order, under the next version; its keys are distinct |
| HashMaps.HashMap.LoadFromDisk | shared/hashset.go:520-554 | a failed load changes nothing; a load restores order and version of any decoded snapshot, and the slot invariant holds exactly if its keys are distinct |
| HashMaps.SlotsOfIndexes | shared/hashset.go:541-546 | restoring keys in a loop yields an exact slot map exactly for lists without a repeated key |
| HashMaps.SaveAndRestore | shared/hashset.go:386-554 | snapshot, then load into a new map: same map, same order, same slots, same version |
| HashMaps.LoadRepeatedKey | shared/hashset.go:541-546 | a concrete file of two entries with one key: the loaded map is not well formed |
| HashMaps.RepeatedKeySlots | shared/hashset.go:541-546 | for that file the slot map knows only the last of the two slots |
| Indexing.SwapRemoveDeletes | shared/hashset.go:144-163 | swap-with-last removal takes exactly one key out of the map the representation stands for, wherever that key lies |
| Persistence.StepIsCrashConsistent | shared/hashset.go:478-517 | each system call, failure or crash leaves the snapshot file as it was or replaces it by the complete snapshot being written |
| Persistence.RunIsCrashConsistent | shared/hashset.go:454-517 | over every run with failures, retries, crashes, restarts and any stale temporary file, the snapshot file is whole |
| Persistence.PreviousOrComplete | shared/hashset.go:454-517 | from one snapshot to the next, whatever happens, the file holds its previous content or all of the new snapshot |
| Persistence.VersionsIncrease | shared/hashset.go:386-411 | over every run in which no restart forgets a positive version, successive contents of the file have strictly increasing versions |
| Persistence.RestartKeepsOrderExactly | shared/hashset.go:520-554 | all runs that go on from a restart, without a later forgetting one, keep the versions that reach the file in order, exactly if the restart loads the snapshot, or there is none, or its version is not positive |
| Persistence.ForgettingRestartBreaksOrder | shared/client_manager.go:77-83 | from every state in which a restart cannot load a snapshot of a positive version, such as 2, a run in which the next snapshot replaces it by version 1 |
| SnapshotStores.SnapshotStore.PersistSnapshot | shared/hashset.go:454-475 | stored exactly if one of the allowed attempts is free of failures; the version counts up either way; every disk state on the way holds the old file or the whole new one; the states form a run of the machine |
| SnapshotStores.PersistMap | shared/hashset.go:454-475 | a round of the worker over a map: the image on its way lists the map's entries under its next version, every disk state on the way holds the old file or all of that image, and the map itself is unchanged |
| SnapshotStores.Reload | shared/hashset.go:520-554 | a process that starts over any disk with a whole file has the file's map and version, or an empty map and version 0 |
| SnapshotStores.PersistAndReload | shared/hashset.go:454-554 | persist, lose the process, start again: the same map in the same order if the snapshot was stored, and otherwise what the file held before |
| SnapshotStores.SnapshotStore.WriteSnapshotToDisk | shared/hashset.go:478-517 | one attempt succeeds exactly if no call before or at the rename fails, and otherwise leaves the file as it was; no temporary file of its own remains unless its removal fails |
| SnapshotStores.SnapshotStore.FillTemp | shared/hashset.go:494-508 | encoding and syncing touch only the temporary file, which is complete and synced on success |
| ClientManagers.ClientManager.constructor | shared/client_manager.go:73-97 | the registry comes from the snapshot file if that loads, the liveness queue is empty; well formed exactly if the file's keys are distinct |
| ClientManagers.ClientManager.AddClient | shared/client_manager.go:150-164 | identities with an empty id or an empty name change nothing and cause no callback; others are registered and queued with the current time, every other entry is kept, with one callback |
| ClientManagers.ClientManager.RemoveClient | shared/client_manager.go:167-186 | both structures lose exactly the id; true exactly if either held it; the callback carries the old priority and comes exactly if it was queued |
| ClientManagers.ClientManager.Clear | shared/client_manager.go:241-244 | both structures are empty, without callbacks |
| ClientManagers.ClientManager.GetRandomSubset | shared/client_manager.go:212-228 | the answer is exactly the registered identities of some min(max(size, 0), queued) different queued ids; if every queued id is registered, it has that many |
| ClientManagers.ClientManager.HealthCheck | shared/client_manager.go:315-362 | by the age at the start: too old leaves the queue only; too new changes nothing; otherwise a client that is registered, has a host name and answers is queued with the time of the answer, and any other is dropped everywhere, with the matching callback |
| ClientManagers.ClientManager.CheckAlive | shared/client_manager.go:408-443 | alive exactly if registered, with a host name, and the ping is answered |
| ClientManagers.ClientManager.Cleanup | shared/client_manager.go:387-402 | terminates; exactly the entries from the cutoff on remain, the registry is unchanged, and each other one is reported in exactly one callback, priorities non-decreasing |
| ClientManagers.DrainStale | shared/client_manager.go:391-402 | the peek-and-extract loop leaves exactly the entries at or above the cutoff |
| Membership.LookupsSound | shared/client_manager.go:221-225 | looking up different ids gives identities with different container ids, each found under its own id, and misses no registered one |
| ManagerRuns.RunsAreSound | shared/client_manager.go:150-186 | over every run of manager operations: queue ids are registered, registry keys match their identities, no priority is in the future |
| ManagerRuns.EntriesAreEvidence | shared/client_manager.go:315-362 | every queue entry carries the time of the latest add of, or successful alive check of, its id |
| ManagerRuns.NoEntryWithoutEvidence | shared/client_manager.go:343-348 | an id that is not queued is not queued again without an add or a successful check |
| ManagerRuns.StalenessBound | shared/client_manager.go:383-402 | after a cleanup at L with maximum age M, whatever follows, no entry is older than max(M, 0) + (now - L) |
| ManagerRuns.ConfirmedIsQueued | shared/client_manager.go:156-164 | evidence that a client was there puts it into the queue at once, with the time of the evidence |
| ManagerRuns.LeavesQueueExactly | shared/client_manager.go:315-362 | an id leaves the queue exactly by a removal, a clear, a cleanup or a check that finds it older than the limit when they start, or a check of a due entry that does not find it registered, with a host name, and answering |
| ManagerRuns.QueuedExactly | shared/client_manager.go:315-362 | an entry appears or changes exactly by an add, with its time, or by a successful check of a due or missing entry, with the time of the answer |
| ManagerRuns.LeavesRegistryExactly | shared/client_manager.go:349-362 | an id leaves the registry exactly by a removal, a clear, or a check of a due or missing entry that fails |
| ManagerRuns.RegisteredExactly | shared/client_manager.go:150-156 | an identity enters the registry exactly by an add of it, if it has an id and a name |
| ManagerRuns.RunsStayNamed | shared/client_manager.go:150-153 | over every run everyone registered has an id and a name, and everyone queued has an id |
| ManagerRuns.EmptyIdNeverEnters | shared/client_manager.go:150-153 | over every run the empty id is neither registered nor queued, unless it was so at the start |
| Interleaving.AddAlone | shared/client_manager.go:150-164 | the separate steps of an add, uninterrupted, amount to the atomic add |
| Interleaving.RemoveAlone | shared/client_manager.go:167-186 | the separate steps of a removal, uninterrupted, amount to the atomic removal |
| Interleaving.ClearAlone | shared/client_manager.go:241-244 | the separate steps of a clear, uninterrupted, empty both structures |
| Interleaving.HealthCheckAlone | shared/client_manager.go:315-362 | the separate steps of a health check, uninterrupted except for the time that passes at the ping, amount to the atomic health check: the age is that at the start, the new priority the time of the answer |
| Interleaving.CleanupAlone | shared/client_manager.go:391-402 | the separate peeks and extractions of a cleanup pass, uninterrupted and whichever minimal entries they take, amount to the atomic pass |
| Interleaving.CleanupAloneEnds | shared/client_manager.go:391-402 | an uninterrupted cleanup pass ends |
| Interleaving.RunsAreSound | shared/client_manager.go:212-228 | in every interleaving: registry keys match their identities, and each subset under construction has different ids and at most the requested size |
| Interleaving.FoundWasRegistered | shared/client_manager.go:221-225 | in every interleaving, each identity handed out was registered under its own id at the step that looked it up |
| Interleaving.DrawnIsLookedUp | shared/client_manager.go:218-225 | in every interleaving, min(max(size, 0), queued) different queued ids are drawn, each is looked up before the subset is handed out, and is in it if it is registered then |
| Interleaving.EmptyIdNeverEnters | shared/client_manager.go:150-153 | in every interleaving the empty id is neither registered nor queued, unless the registry held it at the start |
| Interleaving.SettledStep | shared/client_manager.go:315-362 | an unregistered id with no operation under way that could bring it back is not refreshed and not queued anew by any step |
| Interleaving.SettledRun | shared/client_manager.go:315-362 | the same over any stretch of a run without a new add of it |
| Interleaving.GoneAfterCleanup | shared/client_manager.go:391-402 | such an id is gone at the last peek of any cleanup pass whose cutoff is above its priority, and stays gone |
| Interleaving.BackingLostExactlyByDeletion | shared/client_manager.go:166-186 | a step makes a wanted id unregistered exactly if, in the state before it, the id is queued or about to be and the step deletes its registry entry |
| Interleaving.BackedExactlyWithoutDeletion | shared/client_manager.go:150-186 | over every run an id that is queued or about to be is registered all along, exactly if no step deletes its registry entry while it is wanted |
| Interleaving.OrphanReachable | shared/client_manager.go:150-186 | a concrete interleaving of an add and a removal that ends with a queued id that is not registered |
| Interleaving.FreshEntryEvicted | shared/client_manager.go:391-402 | a concrete interleaving in which a cleanup pass evicts an entry renewed between its peek and its extraction |
| Interleaving.NothingStaleExactlyByTakingLast | shared/client_manager.go:391-402 | a step leaves nothing stale exactly if it takes away or renews the only stale entry, or clears the queue |
| Interleaving.EvictsFreshExactly | shared/client_manager.go:391-402 | between the peek of a pass and its extraction, in every run: what is extracted is fresh exactly if there is anything left, the last stale entry was taken away or renewed in between, and no stale one was brought in after that |
| Interleaving.StaleExactlyByLateInsert | shared/client_manager.go:156-160 | after a cleanup pass left nothing stale, exactly an insertion whose clock reading lies before the cutoff brings a stale entry |
| Interleaving.StaysFreshExactly | shared/client_manager.go:383-402 | the staleness bound under overlap: it holds over all runs from there exactly if no operation under way has read the clock before the cutoff |
| Interleaving.StaleEntryAfterCleanup | shared/client_manager.go:150-164 | a concrete interleaving of an add and a cleanup pass that ends with an entry older than the pass allows |
| CallbackOrder.AddDeliveredAtOnce | shared/client_manager.go:150-164 | the separate steps of an add with its callback, uninterrupted, amount to the atomic add with its callback |
| CallbackOrder.RemovalDeliveredAtOnce | shared/client_manager.go:167-186 | the separate steps of a removal with its callback, uninterrupted, amount to the atomic removal with its callback |
| CallbackOrder.InformedExactly | client/main.go:104-107 | exactly a removal's callback that comes when the id is queued again, with no add's callback to come, leaves a queued id that does not wait |
| CallbackOrder.RunsInformExactly | client/main.go:96-107 | over every interleaving of operations and callbacks: a queued id waits or its callback is to come all along, exactly if no such callback happens |
| CallbackOrder.JustifiedExactly | client/main.go:96-102 | exactly an add's callback that comes when the id has left the queue, with no removal's callback to come, or a clear while it waits, leaves a waiting id that is not queued |
| CallbackOrder.RunsJustifyExactly | client/main.go:96-107 | over every interleaving of operations and callbacks: a waiting id is queued or the callback that ends its waiting is to come all along, exactly if no such step happens |
| CallbackOrder.QueuedNotWaiting | shared/client_manager.go:150-186 | a concrete interleaving after which, with nothing under way, a client is registered and queued and does not wait |
| CallbackOrder.WaitingNotQueued | shared/client_manager.go:150-186 | a concrete interleaving after which, with nothing under way, a client waits and is neither registered nor queued |
| Clients.Client.Enqueue | client/main.go:794-796 | the id goes to the back, new or not, and the queue's priorities stay different, bounded by the counter, and in order of arrival |
| Clients.Client.OnAdded | client/main.go:96-102 | a waiting id keeps its place, another goes to the back |
| Clients.Client.OnRemoved | client/main.go:104-107 | exactly that id stops waiting |
| Clients.Client.Notify | shared/client_manager.go:135-147 | the callbacks act on the waiting list one after another |
| Clients.Client.AddNewContacts | client/main.go:726-735 | everyone unknown and foreign is registered as the first contact that carries the id and a name, and queued with the time of its turn; everyone else stays as before; the unknown ones start to wait in the order of their contacts; the count is that of the contacts whose id was unknown and that none before names |
| Clients.Client.HandleContacts | client/main.go:699-723 | received contacts are added first; the reply is then exactly the registered identities of min(max(size, 0), queued) different queued ids |
| Clients.Client.TakeFirst | client/main.go:739-743 | extracting the minimum takes the longest-waiting id |
| Clients.Client.BeginExpand | client/main.go:738-773 | the longest-waiting id is taken out, and it is asked exactly if it is registered with a host name; sent are exactly the registered identities of min(max(size, 0), queued) different queued ids, and our own identity last |
| Clients.Client.EndExpand | client/main.go:774-797 | without an answer nothing happens, with one its contacts are added and the id goes to the back |
| Clients.Client.RemoveClient | shared/client_manager.go:167-186 | a removal with the client's callback: the id stops waiting exactly if it left the liveness queue |
| Clients.Client.HealthCheck | shared/client_manager.go:315-362 | a health check with the client's callbacks |
| Clients.Client.Cleanup | shared/client_manager.go:387-402 | a cleanup pass with the client's callbacks; they report exactly the stale ids |
| Clients.Client.Connect | client/main.go:129-171 | connected exactly if all went well; then the received contacts are added, otherwise nothing changes |
| Clients.Client.Disconnect | client/main.go:174-196 | if connected and the server answered: registry and liveness queue are empty and the waiting list is untouched; otherwise nothing changes |
| Clients.Client.GetContactsFromQueue | client/main.go:460-476 | exactly the registered identities of the waiting ids, each once |
| QueryOrder.MinimalIsFirst | client/main.go:738-743 | the entry with the minimal priority is the one that waits longest |
| QueryOrder.BackInOrder | client/main.go:96-102 | a priority drawn from the counter puts an id last, whether it is new or waits already |
| QueryRuns.ServedInTurn | client/main.go:738-797 | over every run, a contact with r others before it, whose own answer is not outstanding, keeps at most r minus the askings so far before it until it is asked or removed |
| QueryRuns.AskedOrRemoved | client/main.go:738-797 | so once more than r askings have happened such a contact was asked by one of the first r + 1 of them, or removed before that |
| QueryOvertaking.ServedInTimeExactly | client/main.go:738-797 | a contact with r others before it is asked or removed by the (r+1)-th asking in all runs, exactly if its own answer is not outstanding while it waits |
| QueryOvertaking.Overtaken | client/main.go:792-796 | if it is outstanding, a run in which more than r askings take others while the contact waits all along: the answer brings a new contact and moves the one that answered behind it |
| QueryOvertaking.OvertakenReachable | client/main.go:738-797 | a concrete run from an empty client into such a state, an add, an asking and a health check, and on from there: the answer brings another contact, which is asked first |
| QueryCoverage.RunsStayCovered | client/main.go:738-797 | over every run: everyone in the liveness queue waits or is being asked all along, exactly if no step takes someone from the queue who cannot be asked, and no asking of someone queued and not waiting again goes unanswered |
| QueryCoverage.StepCoversExactly | client/main.go:738-797 | of all steps exactly those two kinds lose it |
| QueryCoverage.UncoveredReachable | client/main.go:774-790 | a concrete run, an add and an unanswered asking, after which a queued contact neither waits nor is being asked |
| QueryRuns.RunsStayBacked | client/main.go:94-107 | over every run: everyone waiting is in the liveness queue all along, exactly if no step is a clear while someone waits or an answer of a contact that left the liveness queue and is not brought back by it |
| QueryRuns.AnswerBackedExactly | client/main.go:792-796 | an answer keeps that exactly if, before it, the contact is in the liveness queue, or is not registered and the answer offers it |
| QueryRuns.StepBackedExactly | client/main.go:94-107 | of all steps exactly those two kinds lose it |
| QueryRuns.UnbackedReachable | client/main.go:792-796 | a concrete run, an add, an asking, a removal and the answer, after which someone waits who is not in the liveness queue |
| QueryRuns.AfterContacts | client/main.go:726-735 | an id is registered, queued and waiting after received contacts exactly if it was before, or it was not registered and a well-formed foreign contact carries it |
| QueryRuns.ExchangeKeepsBacked | client/main.go:738-797 | an uninterrupted exchange keeps it |
| QueryRuns.UnregisteredDropped | client/main.go:746-750 | an unregistered id is dropped at its turn, unasked |
| QueryRuns.UnregisteredRun | client/main.go:738-797 | over every run in which nobody brings the id again, an unregistered id stays unregistered, and is being asked only as long as an earlier answer is outstanding |
| QueryRuns.UnregisteredStaysOut | client/main.go:738-797 | over every such run, once it is neither registered nor waiting nor asked, it never is again |
| QueryRuns.UnregisteredDropsOut | client/main.go:746-750 | over every such run, an unregistered id with r others before it, whose own answer is not outstanding, is dropped unasked by the (r+1)-th asking at the latest, for good |
| QueryOvertaking.DropsOutExactly | client/main.go:746-750 | that it is dropped by then in all such runs holds exactly if its own answer is not outstanding |
| QueryRuns.WaitingStaysDistinct | client/main.go:96-107 | over every run nobody waits twice |
| QueryRuns.ClearedStaysForgotten | client/main.go:190-192 | over every run after a clear in which nobody brings the id again: it is never registered, and it is asked only while an answer from before the clear is outstanding |
| QueryRuns.ClearedQueueDrains | client/main.go:190-192 | over every such run, unless its own answer was outstanding at the clear, the id is neither registered, waiting nor asked after as many askings as ids were waiting |
| QueryRuns.OutstandingQueuesOnce | client/main.go:774-797 | an answer that was outstanding at the clear puts its id at the back, no other step does, and the id is dropped at its next turn and never asked again |
| QueryRuns.CountIsGrowthExactly | client/main.go:726-735 | the reported count is the growth of the registry exactly if no contact is new yet without id or name; otherwise it is too high |
| QueryRuns.IgnoredContactIsCounted | client/main.go:726-735 | a concrete contact with an id and no name: counted, and not registered |
| QueryRuns.EmptyIdIsCounted | client/main.go:726-735 | a concrete contact with a name and no id: counted, and nothing changes |
| ReceivedContacts.ContactsExact | client/main.go:726-735 | for each id: what received contacts do to its registry entry and its queue entry, said of the contacts alone |
| ReceivedContacts.WaitingExact | client/main.go:726-735 | those who waited keep their places, and exactly the unknown ones follow, in the order of the first contacts that name them |
| ReceivedContacts.NewsCountExact | client/main.go:726-735 | the reported count is the number of contacts whose id was unknown and is named by none before |
| Gossip.GrownIsRegistryPart | client/main.go:726-735 | the network's registry update is the registry part of what a client does with received contacts |
| Gossip.RunsStayHonest | client/main.go:699-797 | over every run of the network, every identity in any registry or message is the one its client announces |
| Gossip.NeverOwnId | client/main.go:729-729 | no client ever registers its own id |
| Gossip.SendsExactly | client/main.go:699-773 | each step sends exactly its message: an announcement of the client, a request that ends with the client itself, or a reply |
| Gossip.ReceiverKnowsAll | client/main.go:699-797 | once a message is delivered, its receiver knows everyone in it but itself, as they announce themselves |
| Gossip.AskedKnowsAsker | client/main.go:699-797 | when a request is delivered, whoever is asked knows the client that asks |
| Gossip.ForgetsExactly | client/main.go:726-735 | a client no longer knows an id exactly if it drops it |
| Gossip.ServerKnowsAnnounced | client/main.go:129-171 | the bootstrap server knows whoever announced itself, when it answers |
| Gossip.StepLearns | client/main.go:726-735 | each registry entry added is exactly one more pair of a client and another client it knows |
| Gossip.LearningIsKnowing | client/main.go:726-797 | while nobody is dropped, the entries added over a run are exactly the growth of the pairs of a client and another client it knows |
| Gossip.LearningIsBounded | client/main.go:726-797 | so N clients add at most N * (N - 1) entries altogether, less what they knew at the start |
| Gossip.PairNumberIsProduct | client/main.go:726-797 | the ordered pairs of N clients, counted one client at a time, are N * (N - 1) |
| Gossip.HonestCountIsAdded | client/main.go:726-735 | for announced identities the reported count is the number of entries added |
| ContactLists.GetAllContactMessages | client/main.go:616-693 | fails exactly if the query fails; otherwise each row has one entry, with its name and its last message if it has one, each registered waiting id without a row has one, with the registered name and no messages, and there are no others; rows with a message come first, the greater timestamp string before the smaller, then all entries without messages by id; exactly the waiting ones without a row are saved, each once |
| ContactLists.MergeContacts | client/main.go:622-692 | a sorted permutation of the merge; exactly the queued contacts missing from the database are saved |
| ContactLists.ContactListUnique | client/main.go:616-693 | database rows, waiting ids and registry determine the contact list, whatever the heap order of the queue |
| ContactLists.MergedIsUnion | client/main.go:622-664 | from distinct rows and distinct queued ids, the merge is a union without duplicates in which the database entry wins |
| ContactLists.ListedBeforeIsOrder | client/main.go:667-690 | the comparator is a strict weak order, and decides every pair of different contacts |
| ContactLists.ListedBeforeTotal | client/main.go:667-690 | two entries tie exactly if contact and latest timestamp are the same |
| ContactLists.LexLessMeans | client/main.go:674-677 | strings are compared by their first difference, and a proper prefix comes first |
| ContactLists.ContactOrderUnique | client/main.go:666-692 | without duplicate contacts there is only one sorted list |
| ContactLists.SortedMeans | client/main.go:666-690 | contacts with messages come first, the greatest timestamp string first, which is the newest where the strings sort by time; ids decide equal timestamps and contacts without messages |
| WorkTokens.TokensConserved | benchmark/main.go:253-256 | over every interleaving the counter is issued minus claimed and never negative, and each claim is in progress or finished once |
| WorkTokens.TokensClaimedOnce | benchmark/main.go:253-256 | two claims take different tokens, each issued before it is claimed |
| WorkTokens.ClaimedAfterIssued | benchmark/main.go:253-256 | the token of every claim was issued before it |
| WorkTokens.SecondClaimExactly | benchmark/main.go:254-254 | after a claim with a loaded value, a later claim with the same value succeeds exactly if as many tokens were issued in between as were claimed |
| WorkTokens.StaleClaimFails | benchmark/main.go:254-254 | of the workers that loaded the same value, at most one claims until the next token is issued |
| WorkTokens.BothClaimSameValue | benchmark/main.go:254-254 | a concrete run in which two workers loaded the same value and both claim, with a token issued in between |
| RingBuffers.RingBuffer.Add | benchmark/main.go:85-91 | the modular slots keep holding the last values of the history, in order |
| RingBuffers.RingBuffer.GetAll | benchmark/main.go:94-105 | exactly the last min(count, capacity) values, oldest first |
| MetricsModel.SortedPickIsP99 | benchmark/main.go:384-392 | the index is in range, more than 99 percent of the window is at most the picked value and at most 99 percent is below it |
| MetricsModel.P99Unique | benchmark/main.go:388-392 | a window has one such value |
| MetricsModel.Metrics.Percentile | benchmark/main.go:382-393 | the 99th percentile of the last values, or the old one if there are none |
| MetricsModel.Metrics.ProcessOperationResult | benchmark/main.go:204-225 | ignored results change nothing; others count once each way and enter the buffer, whose size is min(total, capacity) |
| MetricsModel.Metrics.UpdateMetrics | benchmark/main.go:357-426 | the rate times the nanoseconds it covers is the window's count times a second, and the window reopens exactly after a second; the error rate times all operations is a hundred times the failed ones; the percentile is that of the last values; each chart gets one point, the latency in whole milliseconds, and drops its oldest beyond 60 |
| MetricsModel.CountersConserved | benchmark/main.go:204-225 | over every run: total = successes + errors = results not ignored, and successes are the successful ones |
| MetricsModel.CountedPositions | benchmark/main.go:204-225 | the counted results and the successes among them, as numbers of places of the run |
| MetricsModel.ErrorRateExact | benchmark/main.go:377-380 | over every run, at any time: the error rate times the results counted up to the last update is a hundred times those that failed, and it is zero if there were none |
| MetricsModel.FlushesConserved | benchmark/main.go:364-369 | over every run: total = operations flushed at resets + operations in the running window |
| MetricsModel.ReportedRateIsFlushed | benchmark/main.go:364-367 | the rate reported at a reset times the seconds it covers is what the reset flushed |
| MetricsModel.ChartsAreWindows | benchmark/main.go:395-423 | over every run, each chart is exactly the last 60 points it was given, in order |

## Left out

- HTTP handlers and routing, dashboards, duration formatting, environment parsing and Docker management: plumbing.
- SQLite: the contact query is an input; a failed write of a contact is only logged by the source and is not modelled.
- JSON: encoding and decoding are lossless, and a decoding failure is a failed load.
- Locks: a call into the priority queue or the hash map is one atomic step, as its mutex makes it.
- Priorities are integers; floating-point priorities, and with them NaN, are not modelled.
- Machine integers: versions, counters, sizes and times are unbounded, including the shift in the height loop.
- The index of the 99th percentile is the exact floor of 99 n / 100; its floating-point computation is not modelled.
- Randomness: that rejection sampling ends with probability one, and that gossip spreads eventually, are not stated.
- Shutdown and wake-ups: no claim of deadlock freedom or of signals not being lost.
- The number of benchmark clients: checking, removing and adding are not atomic there, so no bound is claimed.
- The form that adds a client by hand: it can register any identity and is not part of the network model.
- Benchmark clients at the bootstrap server: they invent identities and are not part of the network model.
- Concurrent increments of the client's counter: an increment and the insert that uses it are one step.
- The persistence worker starts before the snapshot is loaded; a snapshot taken in between is not modelled.
- Defaults for missing persistence settings, and delays between retries, are not modelled.
- Renaming is atomic and, once done, survives a crash; directory syncing is not modelled.
- Texts of connection errors, and reconnecting automatically, are not modelled.
- Worker restarts on configuration changes, and replacing the callbacks, are not modelled.
- Read-only accessors, iterators and random single entries of both structures would only add easy members.
- The order of the assignments inside one removal under its lock: filling the freed slot and dropping the last one is
  one assignment per sequence, and the removed key leaves the slot map before the moved key is entered.
- In `Interleaving` callbacks are no steps; `CallbackOrder` adds them, each as one step, without asking and answering.
  The reads that only serve a callback's argument are no steps in either.
- Timestamps of messages are strings and compared as strings, as in the source; where they carry different zone
  offsets that is not the order of time.
- Closing the temporary file is no step of its own.
- Draws are finite lists; a random subset, or an asking that needs one, ends without a result when they run out. The
  source's draws never do.
