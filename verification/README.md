# A Dafny model of the hyperfleet-applier

The applier keeps *desires* (apply this object, delete that one, read a third) in a store shared by adapters and
controllers, and carries them out on a management cluster from whichever replica holds a Lease. This project models
four parts of it and proves what they promise together.

* **The desire store.** `MemoryStore` is the mutex-guarded map, both as imperative code (`Store`) and as a function
  `Step` from a map and a call to a new map and a reply. `RedisProtocol` is the Redis store as a state machine: any
  number of clients, each somewhere between WATCH, its GETs and EXEC, over one keyspace with a modification count per
  key, in any interleaving. `RedisRefinement` shows that what Redis commits is what the memory store does, `RedisRetry`
  what a lost race leads to and what it takes to lose one. `StoreHistory` reads every field of a record off its history,
  `StoreVerdicts` says which calls are accepted and which error the others get. `RedisKeys` is the string level:
  percent-encoding, hash tags, glob patterns. `RedisListing` is SCAN, MGET in batches, List and the prefix delete.
* **The Lease write gate.** `LeaseGate` has replicas with their own clocks, Lease writes that may be delayed anywhere,
  arbitrary pauses, and the freshness gate. `Leadership` has the tracking lock and the gate as classes, and one
  replica's `Start` as an interleaving of its goroutines.
* **The reconcilers.** `Controllers` has the apply and delete reconcilers and the serial loop as methods on a `World`
  in which, before every store call, cluster call or context check, any number of other steps may happen: adapters
  create, update and remove desires, objects appear and go, the context is cancelled, the gate denies. `RunHistory`
  is the event history of such a run, from which the store at every moment can be replayed, with what each event may
  follow; `ReconcileLog` is the invariant every step keeps; `RunTheorems` reads the promises off the history.
  `Conditions` and `ApplyTarget` are the parts they share.
* **The informer set.** `Informers` has the map of running informers, edited in place, and the life of each stop
  channel.

`Desire` holds the records. Calls into libraries whose code is not modelled (JSON decoding, identity validation, reading
a manifest) are fields of `Library`, arbitrary deterministic functions that every theorem quantifies over. Clocks are
functions from true time to readings, of which only monotonicity and a skew bound are assumed.

## What the main theorems say

* **Redis refines memory** (`RunRefinesMemory`, `CommandIsStepOrNothing`, `SingleKeyReplyIsExact`): in every run the
  keyspace is the memory store after the committed calls in EXEC order; every command either changes nothing or is one
  whole memory-store call with that call's reply; single-key calls are refused as the memory store would refuse them at
  their GET.
* **Lost races are retried** (`LostRaceRetries`, `AbortedExactlyAfterSixteen`, `LostRaceHasRival`): in every run, a call
  whose EXEC commits nothing goes on with the same operation until it has lost sixteen, and ErrAborted is the reply of
  exactly those calls; an EXEC is lost only to a committed call on a key it watches.
* **Only the owner acts** (`OnlyTheOwnerActs`, `TargetKeepsItsOwner`): over every history, an accepted spec update or
  removal names the owner of the record's last accepted create, and an accepted create the owner of every record its
  target still has.
* **Timed mutual exclusion** (`SafeExactlyWhen`): every run of every set of replicas sends cluster writes only from
  the Lease holder if and only if clock skew plus the delay between the two clock readings of a write context is at
  most one retry period; beyond that limit a run with a late write is built.
* **Every tick does its work** (`SerialRun`, `Lead`, `Start`): each leader, unless its context ends, has exactly its
  number of ticks, and in each an apply pass and then a delete pass that takes up every desire the store held at its
  scan, unless the listing failed or, in an apply pass, a store call ran past its deadline.
* **Every outcome has its cause** (`ApplyOutcomeExplained`, `DeleteOutcomeExplained`): Applied rests on an acceptance of
  that manifest, KubeAPIError of an apply on one that was sent and not accepted, PreCheckFailed on an unreadable
  manifest, a failed mapping or a field that disagrees with the identity; a delete outcome rests on the calls for the
  object it resolved, and a DELETE went out if and only if the first of them saw the object present and unmarked.
* **Start comes to its end** (`StartCanFinish`): from every reachable state the replica's own steps let Start return, and
  a deliberate exit of a leader the Lease still names hands it over.
* **Quiet after Deleted, true conditions** (`SerialRun`): whatever happens meanwhile, no apply is sent for a target from
  the moment Deleted is stored until an apply is created again; no apply follows a DELETE in one tick; every cluster
  write passed the gate for its own desire (`EveryWritePassesTheGate`) and a leader sends nothing after its first
  denial; and a condition that says Applied at the current generation, reported on this incarnation, means that the
  cluster accepted a manifest with the current JSON value and that nothing sent for the desire since carried another
  one. This holds under any succession of leaders.
* **A condition describes an attempt** (`MatchingGenerationIsCurrent`): every reported outcome goes back to one read of
  the desire in the same pass, at the reported generation and incarnation, and every apply that pass sent for the
  desire carried the manifest it read (`OneManifestPerPass`).
* **Deleted means absent** (`DeletedNeedsAbsence`): a desire first becomes Deleted only if the very object its resolved
  mapping gives it was absent at a call of the same pass.
* **No second write** (`SameOutcomeWritesNothing`, `RepeatedOutcomeKeepsVersion`): while passes reach the outcome a
  desire already reports, they store nothing, and its record stands, version included.

## Where the naive claim is false

* Versions and generations restart when a record is created again: `RecreationForgesFreshness` builds a history, good
  in every respect, in which a pass that listed the first incarnation marks the second, with another JSON value, as
  applied. `MatchingGenerationIsCurrent` holds for reports on the current incarnation, `AtMostOneSwapPerVersion`
  between two creations.
* A refused Redis create decides from three GETs that no EXEC validates: `RefusalMatchesNoInstant` builds a run whose
  error no instant would give; `RefusedCreateInRun` says exactly when the error is that of the store its decisive
  record was read from; and if the owner of the target's records does not change during the call, the error is the
  memory store's at an instant of it (`SteadyOwnerMakesRefusalExact`).
* A spec update of a wrong-typed identity with an invalid spec: the stores report different errors, exactly in the case
  `PrecheckAgreesExactlyWhen` names.
* An error can change the memory store only if an apply and a confirmed delete coexist: `FailureChangesExactlyWhen`;
  that state is not reachable, hence `FailureChangesNothing`.
* A later mapping failure overwrites Deleted: `MappingFailureReplacesDeleted`; `DeletedIsLeftAlone` holds until one.
* The delete path accepts a namespace on a cluster-scoped identity, and never compares the resolved group and resource
  with the identity's: `DeletesItsIdentityExactlyWhen` says when it addresses the object the identity names.
* The comment on `executeDelete` (`internal/controllers/deletedesire/controller.go:246-247`) says Deleted is reported
  only when the final GET finds nothing; the code also reports it when the first GET or the DELETE itself does. The
  model follows the code: `DeletedNeedsAbsence` speaks of any call of the pass.

## Model

| member | source | states |
|---|---|---|
| Desire.FindCondition | pkg/desire/types.go:79-82 | the condition a status is judged by: one of the asked type, absent exactly when no condition has it |
| Desire.SpecEqualIsValueEquality | pkg/desire/store/internal/speccompare/compare.go:17-40 | spec equality is equality of decoded JSON values (object key order does not matter), and invalid JSON equals nothing |
| Desire.MatchesExactlyPicked | pkg/desire/store.go:49-66 | an identity of the cluster matches exactly when its type is the selector's if one is given, its group and resource are the selector's text followed by some rest, and namespace and name are the selector's where those are non-empty |
| MemoryStore.Store.constructor | pkg/desire/store/memory/store.go:34-38 | a new store is empty |
| MemoryStore.Store.FindTargetOwner | pkg/desire/store/memory/store.go:41-51 | the owner of the first sibling present in the order apply, delete, read |
| MemoryStore.Store.CheckTargetOwner | pkg/desire/store/memory/store.go:53-59 | passes when the target has no record or its owner is the caller |
| MemoryStore.Store.CreateApplyDesire | pkg/desire/store/memory/store.go:61-98 | the imperative call is the specification step: validity, owner, pending delete, retirement of a confirmed delete, already-exists, version and generation 1 |
| MemoryStore.Store.UpdateApplyDesireSpec | pkg/desire/store/memory/store.go:117-150 | the specification step: type, validity, version, owner in that order; generation moves only with the JSON value, version always |
| MemoryStore.Store.DeleteApplyDesire | pkg/desire/store/memory/store.go:153-174 | the specification step with version before owner |
| MemoryStore.Store.CreateDeleteDesire | pkg/desire/store/memory/store.go:177-207 | the specification step: a created delete removes the apply of its target |
| MemoryStore.Store.DeleteDesireOfType | pkg/desire/store/memory/store.go:226-316 | removal of a delete or read desire is the specification step |
| MemoryStore.Store.CreateReadDesire | pkg/desire/store/memory/store.go:250-276 | the specification step |
| MemoryStore.Store.ListRecords | pkg/desire/store/memory/store.go:319-358 | ranging over the map in any order lists every record of the cluster and type exactly once and nothing else |
| MemoryStore.Store.DeleteSelected | pkg/desire/store/memory/store.go:361-374 | deleting while ranging, in any order: a record is gone exactly when the selector picks it, field by field, and every other record stands |
| MemoryStore.Store.UpdateApplyDesireStatus | pkg/desire/store/memory/store.go:377-398 | the specification step: compare-and-swap on version, status replaced, version advanced |
| MemoryStore.Store.UpdateDeleteDesireStatus | pkg/desire/store/memory/store.go:401-422 | the specification step, for delete desires |
| MemoryStore.Store.UpdateReadDesireStatus | pkg/desire/store/memory/store.go:425-442 | the specification step: no version check, version unchanged |
| MemoryStore.OwnerIsShared | pkg/desire/store/memory/store.go:41-59 | in a consistent store the owner the create check reads is the owner of every record of the target |
| MemoryStore.StepKeepsConsistent | pkg/desire/store/memory/store.go:41-442 | every call, accepted or refused, keeps: one owner per target, never an apply beside a delete, each record under its own identity, an apply spec exactly on applies, 1 <= generation <= version |
| MemoryStore.FailureChangesNothing | pkg/desire/store/memory/store.go:74-85 | in a consistent store every call that returns an error leaves the map unchanged |
| MemoryStore.FailureChangesExactlyWhen | pkg/desire/store/memory/store.go:74-85 | in any store, the exact condition under which a refused call changes the map |
| StoreHistory.HistoryConsistent | pkg/desire/store/memory/store.go:61-442 | every store reachable by any history of calls is consistent |
| StoreHistory.CountersCountHistory | pkg/desire/store/memory/store.go:117-150 | over every history a record's version is 1 plus its accepted writes since creation, its generation 1 plus its value-changing spec updates, its spec the last one accepted, all counted from the calls and replies alone |
| StoreHistory.OnlyAppliesAdvance | pkg/desire/doc.go:15-29 | 1 <= generation <= version; generations of delete and read desires and versions of read desires never move |
| StoreHistory.SwapChecksVersion | pkg/desire/store/memory/store.go:134-140 | an accepted compare-and-swap named the stored version |
| StoreHistory.VersionMovesOn | pkg/desire/store/memory/store.go:134-148 | after an accepted compare-and-swap at a version the record is past it until it is created again |
| StoreHistory.AtMostOneSwapPerVersion | pkg/desire/store/memory/store.go:134-148 | of all calls naming one version of one record, two are accepted only if the record was created in between |
| StoreHistory.RecordTellsHistory | pkg/desire/store/memory/store.go:86-98 | over every history a record's owner, origin and target version are those of its last accepted create, its status and read status the last ones accepted since |
| StoreHistory.OnlyTheOwnerActs | pkg/desire/store/memory/store.go:138-140 | over every history an accepted spec update or removal names the owner of the record's last accepted create |
| StoreHistory.TargetKeepsItsOwner | pkg/desire/store/memory/store.go:53-59 | over every history an accepted create names the owner of every record its target still has |
| StoreVerdicts.IsDeletedExactlyWhen | pkg/desire/types.go:79-82 | a status counts as deleted exactly when its first condition of type Successful is True with reason Deleted |
| StoreVerdicts.CreateApplyVerdict | pkg/desire/store/memory/store.go:61-98 | on every consistent store, each reply of a create of an apply by what the records of the target say: invalid, another owner, a delete not confirmed, an apply already there, and accepted in exactly the remaining case |
| StoreVerdicts.CreateDeleteVerdict | pkg/desire/store/memory/store.go:177-207 | the same for deletes, and an accepted one leaves no apply of its target |
| StoreVerdicts.CreateReadVerdict | pkg/desire/store/memory/store.go:250-276 | the same for reads |
| StoreVerdicts.SwapVerdict | pkg/desire/store/memory/store.go:117-174 | a compare-and-swap is accepted exactly when there is a record of its type at that version, with that owner if it names one, and a new spec is valid; each error by its own condition, a version conflict before an owner conflict |
| RedisProtocol.Precheck | pkg/desire/store/redis/redis.go:287-350 | what a call refuses before any command is ErrInvalid or ErrNotFound |
| RedisProtocol.DecideAgrees | pkg/desire/store/redis/redis.go:151-327 | the transaction callbacks, on current records of a consistent store, decide the memory store's effect, reply and error |
| RedisProtocol.CommitIsStep | pkg/desire/store/redis/redis.go:128-148 | an EXEC whose watched keys were not modified is the memory store's call on the whole keyspace |
| RedisProtocol.CommitKeepsOther | pkg/desire/store/redis/redis.go:128-148 | a commit leaves every other client's reads either current or on a key that fails its WATCH |
| RedisProtocol.RunValid | pkg/desire/store/redis/redis.go:128-272 | the protocol invariant holds after every interleaving of WATCH, GET and EXEC steps of any number of clients |
| RedisRefinement.RunRefinesMemory | pkg/desire/store/redis/redis.go:128-272 | in every run the keyspace is the memory store after the committed calls in EXEC order, with the memory store's replies, and is consistent |
| RedisRefinement.CommandIsStepOrNothing | pkg/desire/store/redis/redis.go:128-272 | every command changes nothing, or is an EXEC that is one accepted memory-store call with its reply |
| RedisRefinement.SingleKeyReplyIsExact | pkg/desire/store/redis/redis.go:151-210 | a single-key call that ends at its GET replies what the memory store replies at that instant |
| RedisRefinement.PrecheckAgreesExactlyWhen | pkg/desire/store/redis/redis.go:342-350 | early refusals agree with the memory store exactly when the call is not a spec update of a wrong-typed identity |
| RedisRefinement.AbortedOnlyUnderContention | pkg/desire/store/redis/redis.go:128-148 | a call gives up only after 16 commits since it was made |
| RedisRetry.AbortedExactlyAfterSixteen | pkg/desire/store/redis/redis.go:20-21 | counted from the commands of any run: a call has at most 16 EXECs that committed nothing, and ErrAborted is its reply exactly when it has 16 |
| RedisRetry.LostRaceRetries | pkg/desire/store/redis/redis.go:128-148 | an EXEC that commits nothing as the call's k-th leaves the client pending for the same operation if k < 16, and ends it with ErrAborted if k is 16 |
| RedisRetry.LostRaceHasRival | pkg/desire/store/redis/redis.go:128-148 | an EXEC commits nothing only if since its WATCH a committed call was made for one of the watched keys, or removed it |
| RedisRefinement.ConcurrentSwapsExclude | pkg/desire/store/redis/redis.go:342-373 | of concurrent writers holding one version of a record at most one commits before it is created again |
| RedisRefinement.RefusedCreateMatchesExactlyWhen | pkg/desire/store/redis/redis.go:234-248 | a refused create's error is the memory store's at the instant its decisive record was read exactly when it is an owner conflict or that record has the caller's owner |
| RedisRefinement.RefusedCreateInRun | pkg/desire/store/redis/redis.go:217-272 | the same in every run, with that instant between the call's WATCH and its last GET |
| RedisRefinement.SteadyOwnerMakesRefusalExact | pkg/desire/store/redis/redis.go:217-272 | in every run, if the owner of the target's records does not change between a create's WATCH and its last GET, a refusal is the memory store's reply at an instant of the call |
| RedisRefinement.RefusalMatchesNoInstant | pkg/desire/store/redis/redis.go:234-248 | a run in which Redis refuses a create with ErrDeletePending although the memory store would at no instant of it |
| RedisRefinement.AloneIsOneStep | pkg/desire/store/redis/redis.go:128-272 | a call that nothing interrupts ends at its first attempt as the memory store's call, success or error |
| RedisKeys.UnescapeEscape | pkg/desire/store/redis/redis.go:68-76 | percent-encoding (section 2.1 of RFC 3986) is undone by decoding, for all byte strings |
| RedisKeys.EscapeSafe | pkg/desire/store/redis/redis.go:68-76 | an escaped field has no separator, brace or glob metacharacter |
| RedisKeys.RedisKeyInjective | pkg/desire/store/redis/redis.go:68-76 | distinct identities have distinct keys, whatever bytes they hold |
| RedisKeys.HashTagIsTarget | pkg/desire/store/redis/redis.go:65-76 | the Redis Cluster hash tag of a key is its target's text |
| RedisKeys.SameTagExactlySameTarget | pkg/desire/store/redis/redis.go:65-76 | two keys have the same hash tag exactly when they name the same target |
| RedisKeys.EscapedMatchesLiterally | pkg/desire/store/redis/redis.go:78-81 | a glob-escaped string matches itself and nothing else |
| RedisKeys.ScanMatchesExactlyTheCluster | pkg/desire/store/redis/redis.go:78-86 | a key matches a cluster's SCAN pattern exactly when its identity is in that cluster |
| RedisKeys.EncodeCommutes | pkg/desire/store/redis/redis.go:90-118 | GET, SET and DEL on string keys are lookup, update and removal by identity |
| RedisListing.ScanKeys | pkg/desire/store/redis/redis.go:563-586 | each key of any page once, for any paging with any duplicates |
| RedisListing.LoadClusterRecords | pkg/desire/store/redis/redis.go:521-560 | across MGET batches of 1000, each read at its own moment: exactly the keys still present, in order |
| RedisListing.ListRecords | pkg/desire/store/redis/redis.go:589-634 | on an unchanging store, for any paging that covers the pattern, the same records the memory store lists, each once |
| RedisListing.LoadedIsCluster | pkg/desire/store/redis/redis.go:521-560 | the loaded records are those of the cluster, each under its own key |
| RedisListing.PrefixDeleteAlone | pkg/desire/store/redis/redis.go:643-658 | the per-key transactions over the cluster's identities, uninterrupted, end in the memory version's store: gone exactly what the selector picks, field by field |
| RedisListing.LoadCluster | pkg/desire/store/redis/redis.go:521-586 | scan and load together, on an unchanging store: the cluster's records, each once |
| RedisListing.DeleteSelected | pkg/desire/store/redis/redis.go:637-658 | scan with any paging, load in batches, one transaction per matching record: with no concurrent change a record is gone exactly when the selector picks it, field by field, and every other record stands |
| RedisListing.PrefixDeleteRemovesOnlySelected | pkg/desire/store/redis/redis.go:637-658 | under any interleaving a per-key transaction of a prefix delete removes at most one record, and one that the selector picks in the given cluster |
| Conditions.Equal | internal/controllers/util/util.go:40-58 | the loop decides whether every condition has a counterpart of its type that differs at most in transition time |
| Conditions.SetThenFind | internal/controllers/util/util.go:26-37 | a set condition is the one found afterwards, with its old transition time if its status is the same; every other type's condition is untouched |
| Conditions.SetKeepsKeyed | internal/controllers/util/util.go:26-37 | condition types stay pairwise distinct |
| Conditions.ReflexiveExactlyWhen | internal/controllers/util/util.go:40-58 | a status equals itself exactly when its same-typed conditions agree |
| Conditions.EqualIsEquivalence | internal/controllers/util/util.go:40-58 | on lists with distinct types status equality is reflexive, symmetric and transitive |
| Conditions.SettingIsNoopExactlyWhen | internal/controllers/util/util.go:26-58 | setting a condition makes no difference exactly when that outcome is already reported |
| Conditions.SettingTwice | internal/controllers/util/util.go:26-58 | the same outcome set again, at any time, is no difference |
| LeaseGate.RunValid | internal/leadership/runnable.go:109-118 | the timed invariant holds after every run: who is not the holder is drained or has only expired Lease writes |
| LeaseGate.TakeoverExpires | internal/leadership/runnable.go:266-299 | when a Lease write takes over from another holder, every write that holder committed has expired on its own clock |
| LeaseGate.OpenMeansHolder | internal/reconciler/leadergate.go:51-58 | a replica with an unexpired write context holds the Lease |
| LeaseGate.SafeExactlyWhen | internal/leadership/runnable.go:109-118 | over all clocks within the skew and all runs, only the holder sends, if and only if skew plus delay is at most RetryPeriod |
| LeaseGate.DenialIsFinal | internal/leadership/runnable.go:207-232 | once a replica's run context is cancelled by a denial it never sends again, in any continuation |
| LeaseGate.StaleCheckDenies | internal/leadership/runnable.go:338-349 | a check by the watcher or a write path past the bound cancels the run context |
| LeaseGate.FreshLeaderSends | internal/leadership/runnable.go:109-118 | in any run a replica whose last Lease write is less than 110 seconds old on its clock gets a cluster write out at once |
| LeaseGate.FreeLeaseIsTaken | internal/leadership/runnable.go:164-202 | in any run a Lease that was handed over or never held is there for any replica to take without waiting |
| Leadership.TrackingLock.MarkSuccess | internal/leadership/runnable.go:293-299 | records the given time and never moves backward |
| Leadership.TrackingLock.Write | internal/leadership/runnable.go:266-287 | an accepted Lease write records the time it was issued, a refused one nothing |
| Leadership.StaleGate.CanWrite | internal/leadership/runnable.go:338-349 | allows exactly while the last success is within the bound; a denial cancels for good |
| Leadership.StaleGate.WriteContext | internal/reconciler/leadergate.go:51-58 | the deadline is the timeout or the last success plus the bound plus the time between the two clock readings, whichever is earlier |
| Leadership.RunValid | internal/leadership/runnable.go:104-162 | the invariant of Start holds for every interleaving of elector, callback, controllers, watcher, main goroutine and other replicas |
| Leadership.StartReturnsAfterControllers | internal/leadership/runnable.go:133-143 | once Start has returned no controller runs and none can start, in any continuation |
| Leadership.HandOverOnlyAfterDrain | internal/leadership/runnable.go:133-202 | the Lease is handed over only when this replica led, every controller has returned, the Lease still names it, and the parent is cancelled or a controller failed |
| Leadership.LossNeverHandsOver | internal/leadership/runnable.go:144-162 | while the parent is alive and no controller failed, at every point of every run nothing is handed over or about to be, and a Start that returns reports the loss |
| Leadership.LossIsReportedTruly | internal/leadership/runnable.go:156-161 | a reported loss means that no controller failed and nothing was handed over |
| Leadership.StartCanFinish | internal/leadership/runnable.go:99-202 | from every reachable state before the release, the replica's own steps bring Start to its end: shutdown or a controller failure returns the controllers' result and hands over a Lease that still names a replica that led, anything else reports the loss and hands nothing over |
| Leadership.StartObeysDrainRules | internal/leadership/runnable.go:133-202 | the rules the timed machine imposes are those of Start: passing the drain enables Drain there, a hand-over finds the replica drained, acquiring, renewing and running controllers find it not drained, and a drain is never undone |
| Leadership.StandbyLeavesQuietly | internal/leadership/runnable.go:173-177 | a replica that never acquired starts no controller and hands nothing over |
| ApplyTarget.AppliesToItsIdentity | internal/controllers/applydesire/controller.go:238-267 | an apply that passes the target check writes exactly the object its identity names |
| ApplyTarget.AppliesNeverCollide | internal/controllers/applydesire/controller.go:180-188 | two apply identities of one cluster that reach one object are one, for all manifests and both scopes |
| ApplyTarget.DeletesItsIdentityExactlyWhen | internal/controllers/deletedesire/controller.go:181-225 | for any mapping, a delete addresses the object its identity names exactly when the mapping's group and resource are the identity's and the scope fits its namespace |
| ReconcileLog.AdapterKeeps | pkg/desire/store/memory/store.go:61-207 | any adapter call at any moment keeps everything the reconcilers rely on |
| RunHistory.StoreAppend | pkg/desire/store/memory/store.go:61-442 | replaying a history: a store call takes the replayed store one step on, any other event leaves it |
| RunHistory.PassiveChangesNothing | internal/controllers/serial/controller.go:36-50 | adapter calls, reads, gate checks and denials neither settle a desire nor change what the running pass has resolved, seen absent and applied |
| RunHistory.ClearedStays | internal/controllers/applydesire/controller.go:204-217 | without a denial, what others do does not come between a passed gate check and the write |
| ReconcileLog.StoreApplyKeeps | internal/controllers/applydesire/controller.go:133-147 | an accepted apply status write keeps the invariant, condition freshness included |
| ReconcileLog.StoreDeleteKeeps | internal/controllers/deletedesire/controller.go:156-176 | an accepted delete status write keeps the invariant |
| Controllers.World.Others | internal/controllers/serial/controller.go:36-50 | any number of adapter, cluster, cancellation and denial steps keeps the invariant and undoes no cancellation |
| Controllers.World.ListRecords | internal/controllers/applydesire/controller.go:80-84 | with anything happening between the reads: each entry was in the store when it was read, none twice, and every desire the store held at the scan is listed or was gone when read; or the failed listing is on record |
| Controllers.World.ReadRecord | pkg/desire/store/redis/redis.go:90-105 | the record of that moment with its incarnation, or its absence |
| Controllers.World.GetApplyDesire | internal/controllers/applydesire/controller.go:190-201 | a desire found by the re-check is not one whose target was reported Deleted; a missing one, a failing store and a passed deadline are on record |
| Controllers.World.CanWrite | internal/controllers/applydesire/controller.go:204-210 | a passed check is on record for this desire and a denial leaves the run context cancelled |
| Controllers.World.SendGated | internal/controllers/applydesire/controller.go:211-217 | a write cleared with the gate leaves the replica, for the object it is meant for, or is on record as not sent |
| Controllers.World.SendApplyRequest | internal/controllers/applydesire/controller.go:211-217 | needs a passed gate check, the object the identity names and the manifest this pass read; accepted exactly when the history says so |
| Controllers.World.GetObject | internal/controllers/deletedesire/controller.go:230-244 | a call for the object this pass resolved, answered by the cluster of that moment; its absence is on record |
| Controllers.World.SendDeleteRequest | internal/controllers/deletedesire/controller.go:285-306 | needs a passed gate check and the object this pass resolved; an accepted DELETE was sent to it, not-found is its absence in this pass |
| Controllers.World.SetupResourceClient | internal/controllers/deletedesire/controller.go:181-225 | a client addresses the object the recorded mapping gives the identity; no client means a mapping failure is on record |
| Controllers.World.MapManifest | internal/controllers/applydesire/controller.go:164-178 | the mapping of an apply, or its failure, is on record, and nothing else happens meanwhile |
| Controllers.World.UpdateApplyDesireStatus | internal/controllers/applydesire/controller.go:137-147 | a status write at the listed version stores that status at the next version and keeps the invariant; Applied needs an acceptance in this pass; a refused write stores nothing |
| Controllers.World.UpdateDeleteDesireStatus | internal/controllers/deletedesire/controller.go:161-176 | a status write stores that status at the next version and keeps the invariant; Deleted needs the resolved object absent in this pass or a record already Deleted; a refused write stores nothing |
| Controllers.ApplyToCluster | internal/controllers/applydesire/controller.go:155-236 | every reported outcome carries the listed generation and is a success exactly when Applied; PreCheckFailed exactly when the manifest is unreadable, the mapping failed, or manifest or mapping disagrees with the identity in a named field; Applied exactly when the cluster accepted the listed manifest; KubeAPIError only if that apply was tried; no outcome only for a gone desire, a failed store call or an ended context |
| Controllers.ApplyDecoded | internal/controllers/applydesire/controller.go:166-236 | the same for the part behind the decoding |
| Controllers.ApplyGated | internal/controllers/applydesire/controller.go:203-236 | a report means that the apply of the listed manifest to the identity's object was sent, or could not be because its context had ended; Applied exactly when it was accepted, KubeAPIError otherwise |
| Controllers.ReconcileApply | internal/controllers/applydesire/controller.go:118-148 | the outcome rests on what happened since the reconciliation began; a status write is tried exactly when it is not the outcome already reported; otherwise the history shows no stored status at all |
| Controllers.WriteApplyStatus | internal/controllers/applydesire/controller.go:133-147 | a status is written exactly when the outcome is not the one already reported, otherwise store and history stand; a version conflict is no error |
| Controllers.ApplyRunOnce | internal/controllers/applydesire/controller.go:80-114 | a pass takes up every desire the store held at its scan, unless that one was gone when read; else the context has ended, the listing failed, or a store call for one of its desires failed by its own deadline |
| Controllers.ExecuteDelete | internal/controllers/deletedesire/controller.go:248-331 | a DELETE of the object is tried if and only if the first GET saw it present and unmarked, unless the context ends first; Deleted exactly when some answered call found it absent, WaitingForDeletion only after it was seen marked, KubeAPIError only after a failed call or an unmarked object behind an accepted DELETE |
| Controllers.IssueDelete | internal/controllers/deletedesire/controller.go:273-306 | a DELETE is tried unless the gate denies, and the result rests on the calls as above |
| Controllers.DeleteAndConfirm | internal/controllers/deletedesire/controller.go:285-306 | behind the gate a DELETE is always tried |
| Controllers.ConfirmDeletion | internal/controllers/deletedesire/controller.go:308-331 | gone, marked, unmarked or failed, as the confirming GET was answered |
| Controllers.WriteDeleteStatus | internal/controllers/deletedesire/controller.go:155-176 | a status is written exactly when the outcome is not the one already reported, otherwise store and history stand |
| Controllers.ReconcileDelete | internal/controllers/deletedesire/controller.go:122-176 | PreCheckFailed exactly when the mapping failed; any other outcome rests on the calls for the resolved object since the reconciliation began, with a DELETE tried exactly when the first saw it live, or on a record already Deleted; a status write is tried exactly when that outcome is not the one already reported |
| Controllers.DeleteOutcome | internal/controllers/deletedesire/controller.go:122-154 | the outcome of mapping, re-check and calls, before it is compared with the stored one; no outcome only for a gone desire, a failed store call or an ended context |
| Controllers.DeleteRunOnce | internal/controllers/deletedesire/controller.go:86-114 | a pass takes up every desire the store held at its scan, unless that one was gone when read; else the context has ended or the listing failed |
| Controllers.Start | internal/controllers/serial/controller.go:32-58 | unless the context ends, the history since entry has exactly that many ticks, each with an apply pass and then a delete pass before the next, and each pass took up every desire or its listing failed or a store call ran past its deadline |
| Controllers.Lead | internal/leadership/runnable.go:120-126 | a new leader, with a context of its own, takes up the loop on whatever store its predecessor left, for exactly its ticks unless that context ends |
| RunTheorems.NoApplyAfterDeleted | internal/controllers/applydesire/controller.go:190-217 | from Deleted stored for a target until an apply is created for it again, no apply is sent for it |
| RunTheorems.DeletedNeedsAbsence | internal/controllers/deletedesire/controller.go:122-331 | a delete desire first becomes Deleted only if the object a mapping resolved in the same pass gives it was absent at a call of that pass; that object is the one the identity names if the mapping fits |
| RunTheorems.DeletesAddressTheirObject | internal/controllers/deletedesire/controller.go:181-225 | every GET and DELETE addresses the object a mapping recorded in the same pass gives the identity, which is the one the identity names if the mapping fits |
| RunTheorems.DeletedIsLeftAlone | internal/controllers/deletedesire/controller.go:122-176 | a Deleted desire gets no cluster call and no status write until its mapping fails or it is created again |
| RunTheorems.SettledIsDeleted | pkg/desire/types.go:79-82 | at every moment of every run a settled desire that is present is Deleted in the store |
| RunTheorems.NothingSentAfterDenial | internal/controllers/serial/controller.go:28-50 | after the gate's first denial of a leader, by the watcher or a write path, or the end of its context, nothing is sent and no tick, pass or reconciliation starts until another leader takes up the loop |
| RunTheorems.EveryWritePassesTheGate | internal/leadership/runnable.go:338-349 | before every SSA and DELETE the gate was passed for that desire, with nothing but adapter calls since |
| RunTheorems.NoApplyAfterDeleteInOneTick | internal/controllers/serial/controller.go:13-18 | an apply never follows a DELETE in one tick |
| RunTheorems.DeadlineEndsApplyPass | internal/controllers/applydesire/controller.go:94-102 | once a store call of an apply pass has failed by its own deadline, no further desire is taken up before the next pass |
| RunTheorems.AppliesKeepApart | internal/controllers/applydesire/controller.go:238-267 | two applies sent to one object in a run come from one identity |
| RunTheorems.AppliedNeedsAcceptance | internal/controllers/applydesire/controller.go:211-236 | Applied is stored only after the cluster accepted that very manifest, sent to the identity's object, in the same pass |
| RunTheorems.ApplyOutcomeExplained | internal/controllers/applydesire/controller.go:155-236 | in every run each stored apply outcome rests on what its reconciliation did since it began: Applied on an acceptance, KubeAPIError on an apply tried and not accepted, PreCheckFailed on an unreadable manifest, a failed mapping or a named field that disagrees; there is no other |
| RunTheorems.DeleteOutcomeExplained | internal/controllers/deletedesire/controller.go:122-331 | in every run each stored delete outcome that is not a restamp rests on a failed mapping or on the calls of its reconciliation for one object, and a DELETE was tried if and only if the first call saw it live |
| RunTheorems.MatchingGenerationIsCurrent | pkg/desire/doc.go:15-23 | at any moment of any run, the condition on an apply is the outcome of an attempt at what its pass read, at that generation and incarnation and with no other manifest sent; if incarnation and generation are the current ones, that manifest has the current JSON value |
| RunTheorems.ReportWasAttempted | internal/controllers/applydesire/controller.go:118-148 | every stored apply outcome reports on one read of the same pass: its incarnation, generation and manifest, the only manifest the pass sent for the desire |
| RunTheorems.OneManifestPerPass | internal/controllers/applydesire/controller.go:155-217 | every apply a pass sends for a desire comes after its one read of it and carries what was read |
| RunTheorems.ValueStands | pkg/desire/store/memory/store.go:141-148 | between two moments of one incarnation the generation only grows, and while it stands so does the JSON value |
| RunTheorems.UpToDateWasAccepted | pkg/desire/doc.go:15-23 | if that condition says Applied, the cluster accepted a manifest with the current JSON value, and nothing sent for the desire since carried another |
| RunTheorems.SentSinceIsCurrent | internal/controllers/applydesire/controller.go:80-95 | whatever is sent after a read of the current generation and incarnation has the current JSON value |
| RunTheorems.RecreationForgesFreshness | pkg/desire/store/memory/store.go:86-98 | a good history whose condition says Applied at the current generation, reported by a pass that listed an earlier incarnation with another JSON value |
| RunTheorems.MappingFailureReplacesDeleted | internal/controllers/deletedesire/controller.go:127-130 | a mapping failure after Deleted is a difference, so it is written, and the desire is no longer Deleted |
| RunTheorems.SameOutcomeWritesNothing | internal/controllers/applydesire/controller.go:133-147 | in every run, of two status writes in a row on one incarnation of a desire the second reports a different outcome |
| RunTheorems.RepeatedOutcomeKeepsVersion | internal/controllers/deletedesire/controller.go:156-162 | while passes reach only the outcome a desire already reports and no adapter touches it, nothing is stored for it and its record, version included, stands |
| RunTheorems.RoundsCountTicks | internal/controllers/serial/controller.go:36-50 | full ticks, counted event by event, are as many as the loop was asked for |
| RunTheorems.SerialRun | internal/controllers/serial/controller.go:32-58 | the serial loop from an empty store under any succession of leaders and any interference: each leader has exactly its ticks, each with both passes at work, unless its context ends; the store is the replay of the history and consistent, quiet after Deleted, nothing sent or started by a leader after its denial or the end of its context, applies before deletes in a tick, applies apart, and Applied at the current generation means that value was accepted last |
| Informers.InformerManager.StartInformer | internal/controllers/readdesire/informer_manager.go:166-184 | an informer runs on a channel of its own unless wiring its handler breaks, which leaves the key untracked |
| Informers.InformerManager.Reconcile | internal/controllers/readdesire/informer_manager.go:94-128 | for any map order and any keys that break: each wanted key keeps its informer if the resource fits, else runs on a new one with the exact resource unless it breaks; reported are exactly the broken starts; seen but unresolved keys keep the very same informer; unseen keys are dropped |
| Informers.InformerManager.DropUnseen | internal/controllers/readdesire/informer_manager.go:100-106 | the first loop drops exactly the unseen keys |
| Informers.InformerManager.ServeAll | internal/controllers/readdesire/informer_manager.go:108-126 | the second loop serves every wanted key and touches no other |
| Informers.InformerManager.ServeKey | internal/controllers/readdesire/informer_manager.go:110-125 | one wanted key is kept, replaced or started, and reported exactly when its start breaks |
| Informers.InformerManager.ShutdownAll | internal/controllers/readdesire/informer_manager.go:253-260 | nothing is tracked and no channel is open afterwards |
| Informers.InformerManager.PollOnce | internal/controllers/readdesire/controller.go:233-281 | a poll serves every listed desire whose resource resolved, keeps the informer of one that did not, and tracks no other; it leaves the set alone exactly when the listing fails or the context ends before all were visited, and aborts exactly in the second case |
| Informers.WantedExactlyResolved | internal/controllers/readdesire/controller.go:251-279 | a desire is wanted exactly when it resolved, on a resource it resolved to and for its own object |
| Informers.InformerManager.RunToShutdown | internal/controllers/readdesire/controller.go:156-215 | every tick up to the first aborted one does what a poll must, in order, and after the shutdown every stop channel ever made was closed exactly once |

## Left out

- JSON decoding, identity validation (DNS labels and lengths) and reading a manifest are arbitrary deterministic functions.
- Record serialization in Redis: a record is stored as a value, so a failing marshal or unmarshal is not modelled.
- Versions and generations are unbounded; int64 wrap-around is not modelled.
- Lost EXEC replies, network errors, back-off and jitter of the Redis client: EXEC commits or fails, and its reply arrives.
- The retry and transaction loops of the Redis store are steps of a state machine, since other clients act between their commands; a Redis prefix delete is the sequence of its per-key transactions.
- Controllers.World.ListRecords: the scan finds the keys of one moment, and any others, before the first read; a key that goes and comes back between two pages is not skipped.
- A plain Redis read is modelled with a WATCH that nothing uses.
- client-go's elector: assumed are its acquisition rule, its resource-version check, that a record is identified by its resource version, that an acquiring write starts the leading callback, and one process per replica identity.
- `LeaseGate` and `Leadership` are two machines, joined by `StartObeysDrainRules`; a Lease write of the second is one step there, without delays.
- A stalled leader whose status write reaches the store after its successor has begun: the loops of two leaders follow one another.
- A write context made without a gate in its context, which keeps the full timeout.
- A cluster write whose write context ended before it left the replica: it is on record as not sent, and counts as tried.
- A request the API server has accepted and executes later.
- RESTMapper resolution, its reset and retry: any mapping or a failure, at every call.
- Runs of the serial loop start with an empty store, so the one restamp of a record written by an older release does not occur: a Deleted desire gets no further write rather than at most one.
- Desire.FindCondition: the apimachinery lookup is given as a definition; its library source is not part of the repository.
- MemoryStore.Store.DeleteDesireOfType: one method for the delete and the read variant, whose bodies differ only in the type.
- MemoryStore.Store.ListRecords: one method for the three list calls; returned records are not projected to the three desire types.
- Informers.InformerManager.StartInformer: the informer's own goroutines, its cache and the work queue are not modelled.
- Informers.InformerManager.PollOnce: status writes for unresolved resources and failed starts, and an abort between the latter, are not modelled.
- ReadDesire workers, live fallback reads and content canonicalization.
- Cloning and aliasing of records, owner-conflict counters, logging, error texts.
- Configuration, process wiring, charts and scripts.
