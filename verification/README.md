# Verified model of CQEngine's collections

CQEngine keeps objects in a store and, beside it, in indexes that answer queries. Everything here
is about one promise: whoever reads, by scanning the store or through an index, sees a set of
objects that some sequence of completed updates produced, although a store write and its index
writes are separate steps and other threads run between them. The project models how three
collection classes keep that promise, what it costs them (locks, request scopes), where it does
not hold, and the scanners of the documentation link checker.

| file | subject |
|---|---|
| `Model.dfy` | objects, index postings, store-plus-index, bulk arguments (`Collection` or plain `Iterable`) |
| `Mvcc.dfy` | the multi-version protocol of `TransactionalIndexedCollection` as a step machine |
| `MvccInvariant.dfy` | its inductive invariant |
| `MvccTheorems.dfy` | what it guarantees in every run: snapshots, atomicity, draining, strict replacement, recovery |
| `TransactionalUpdate.dfy` | the same class as imperative code; every action it takes is recorded as a step of the machine |
| `RetainAll.dfy` | `retainAll`, whose exclusion set is evaluated lazily |
| `Flights.dfy` | concurrent add and remove without locks: which calls may overlap |
| `Stripes.dfy` | the striped locks of `ObjectLockingIndexedCollection`, refining the unlocked machine |
| `Locking.dfy` | the methods of that class as one thread runs them, with the hold counts of its stripes |
| `Sequential.dfy` | `ConcurrentIndexedCollection` used by one thread, against the contract of a set |
| `Scopes.dfy` | request scopes, the iterator, and the resources of `retrieve` |
| `MarkdownLinks.dfy` | the scanners of `check-markdown-links.py`, and where the fence scanner departs from CommonMark |
| `Wrappers.dfy` | `Option` |

## How the model is built

*Objects* are values: equality is identity, and hash code and attribute values are functions of the
object, so they are its fields. All indexes of a collection together are one set of postings
(key, object); adding and removing postings is idempotent, as `ModificationListener` asks.

*Steps.* In the machines one step is one load of `currentVersion`, one `tryLock`, one publication,
one acquisition of a lock, one object entering or leaving the store, or one posting entering or
leaving an index. Any number of threads interleave. The objects of one bulk call may be written in
any order; a `Collection` argument writes all its objects before all their postings, any other
`Iterable` goes object by object.

*The multi-version machine* runs readers beside READ_COMMITTED updates (`update`, `add`, `remove`,
`addAll`, `removeAll`). It contains failures: an update may raise an exception before or after any
of its writes, in which case what it leaves is recorded as a partial commit. The state carries its own history:
with each version, what a reader of it could see when it was published; the list of commits; the
list of calls that returned. The theorems relate that history to what is in the store and the index
now, and hold in runs with failing updates as well. Writes on the heap are not rolled back, so store and
index may disagree for good about the objects of an add or remove step that was abandoned; the state
records those (`tainted`), and agreement is claimed about every other object, always.

*The imperative class* `TransactionalCollection` follows the Java methods. After each of its
actions (entering, publishing a version, taking a write lock, beginning a group of writes, every store
or index write) reading threads take an arbitrary finite list of steps; the lists are drawn by a counter
that never goes back, so no two moments share one. Its ghost trace is a run of the machine from the
initial state, so every theorem about runs applies to it. Waiting for a write lock is a loop that lets
readers do anything. All it assumes is that while the superseded version is still being read, one of
its readers closes its results after finitely many rounds; it terminates by `DrainMeasure`.

## What was found

* A reader sees exactly the set committed when it loaded its version if and only if no add step was
  under way (or abandoned and not yet recovered from) at that moment, or that step adds only objects not
  yet committed. In every case it sees the committed set without the objects of that step
  (`ReadsAreAtomic`). So an object that is added again disappears for readers who arrive meanwhile
  (`ReAddedObjectDisappears`).
* After a failure half way, store and index can disagree about objects of the failed update
  (`HalfAddedStays`) and about no others (`OnlyFailuresDisagree`).
* The add-then-remove order of this class and the remove-then-add order of its superclass reach
  the same set if and only if the arguments are disjoint; what they report is always the same
  (`RefinesPlainUpdate`).
* `retainAll` publishes a lazily evaluated result as its exclusion. Between the store write and the
  index writes of a removed object, an index still returns it and the exclusion no longer names it.
  Readers can rely on the indexes throughout a call if and only if no object it removes has an
  index entry (`RetainAllIsSafeForUnindexedObjects`); for every object that has one, the wrong answer
  occurs in some run (`LazyExclusionLeaks`). Scans are always right (`LazyExclusionIsSafeBetweenObjects`).
* The documentation of `ConcurrentIndexedCollection` asks that no two threads add or remove one object at
  the same time. Overlapping calls of one kind are harmless (`CompatibleCallsNeedNoLock`); two calls on one
  object can end in disagreement if and only if one adds, the other removes, and the object has an index
  entry, whatever the collection held before (`SameObjectIsSafeForOneKind`).
* The comments on `Version` and `acquireReadLockForCurrentVersion` call the read lock uncontended. A reader
  can be refused (`ReaderCanBeRefused`), but at most once per publication after its first load
  (`RetriesAreBounded`).
* The fence scanner accepts a backtick fence whose info string contains a backtick, which section 4.5 of
  CommonMark 0.31.2 excludes (`ScannerBreaksTheStandard`). It leaves exactly the lines that this rule leaves
  if and only if it meets no such line while no fence is open (`ScannerMeetsTheStandard`). The rest of the
  scanners follow the code.

## Model

| member | source | states |
|---|---|---|
| `Model.ChunksCover` | src/main/java/com/googlecode/cqengine/ConcurrentIndexedCollection.java:554-570 | batch and element-by-element walks of an argument cover exactly the same objects, duplicates included |
| `Model.AnswersAgree` | src/main/java/com/googlecode/cqengine/TransactionalIndexedCollection.java:427-434 | if store and index agree outside the hidden objects, every key query answers alike from an index and from a filtered scan |
| `Model.AnswersAgreeExcept` | src/main/java/com/googlecode/cqengine/TransactionalIndexedCollection.java:427-434 | the same as far as objects outside a given set go, if store and index agree about those; the filtered scan is right about all |
| `MvccInvariant.AddDone` | src/main/java/com/googlecode/cqengine/TransactionalIndexedCollection.java:254-262 | when the add step has nothing left to write, store and index hold exactly the committed and the added objects, and `modified` says whether one was new |
| `MvccInvariant.RemoveDone` | src/main/java/com/googlecode/cqengine/TransactionalIndexedCollection.java:263-271 | the same for the remove step, including the combined `modified` flag |
| `MvccInvariant.WorkIsHidden` | src/main/java/com/googlecode/cqengine/TransactionalIndexedCollection.java:254-271 | every store and index write of an update touches only objects the current version hides |
| `MvccInvariant.StepKeepsInv` | src/main/java/com/googlecode/cqengine/TransactionalIndexedCollection.java:160-288 | every step of every reader and writer, failures included, keeps the invariant tying versions, locks, readers, commits, store and index together |
| `MvccTheorems.SnapshotStability` | src/main/java/com/googlecode/cqengine/TransactionalIndexedCollection.java:160-177 | in every run, what is read from the store or an index under the current version, or under one with open results, is the one snapshot fixed when it was published, also between a store write and its index write; every query is answered over that snapshot, by an index at least as far as objects of no abandoned step go |
| `MvccTheorems.RepeatableRead` | src/main/java/com/googlecode/cqengine/TransactionalIndexedCollection.java:403-438 | a reader holds its version until it closes its own results, and any two reads of them answer alike whatever runs in between, failing updates included |
| `MvccTheorems.ReadersAreTheirOwn` | src/main/java/com/googlecode/cqengine/TransactionalIndexedCollection.java:160-177 | no step of a writer or of another reader changes what a reader has loaded or holds |
| `MvccTheorems.HeldVersionStopsWriter` | src/main/java/com/googlecode/cqengine/TransactionalIndexedCollection.java:163 | while a superseded version is held, no step of the writer is possible: it acquires no write lock, writes nothing and publishes nothing |
| `MvccTheorems.WriterWaitsForReader` | src/main/java/com/googlecode/cqengine/TransactionalIndexedCollection.java:160-164 | until the reader of a superseded version closes its own results, in any run, it keeps its lock and store, index, versions and commits stay as they are |
| `MvccTheorems.CommitsAtomically` | src/main/java/com/googlecode/cqengine/TransactionalIndexedCollection.java:253-276 | the committed set changes exactly at the publication of the remove step (or the final one of an add-only update, or the one after a failure), by one whole replacement at once; readers of the current version then see exactly the new set, in the store and, but for objects of abandoned steps, in every index |
| `MvccTheorems.ReadsAreAtomic` | src/main/java/com/googlecode/cqengine/TransactionalIndexedCollection.java:171-200 | in every run, a reader that loads the current version and gets its lock, whatever ran in between, holds it until it closes its own results and answers every query over one set fixed at that load: the committed set without the objects of an add step then under way; that is the committed set itself if and only if no such step was under way or it adds only new objects |
| `MvccTheorems.ReAddedObjectDisappears` | src/main/java/com/googlecode/cqengine/TransactionalIndexedCollection.java:254-262 | a run in which adding an object already stored hides it from an arriving reader, although it is committed and in the store |
| `MvccTheorems.LaterReadersNeverGoBack` | src/main/java/com/googlecode/cqengine/TransactionalIndexedCollection.java:171-177 | a later load of the current version never shows an older committed state than any earlier version, and shows every update that has returned |
| `MvccTheorems.OneCommitPerUpdate` | src/main/java/com/googlecode/cqengine/TransactionalIndexedCollection.java:235-280 | returned updates own distinct commits, in the order in which they returned |
| `MvccTheorems.UpdateMeetsItsContract` | src/main/java/com/googlecode/cqengine/TransactionalIndexedCollection.java:213-289 | a returned update replaced its objects in one commit and reported whether that changed anything, or declined, reported false, and had a reason to |
| `MvccTheorems.RefinesPlainUpdate` | src/main/java/com/googlecode/cqengine/ConcurrentIndexedCollection.java:206-214 | add-then-remove and remove-then-add report alike always and agree exactly on disjoint arguments; then the report means the set changed |
| `MvccTheorems.VersionDiscipline` | src/main/java/com/googlecode/cqengine/TransactionalIndexedCollection.java:109-126 | only the current version and the one being drained have readers, all others stay write-locked, and nothing is written while a superseded version has readers |
| `MvccTheorems.VersionsOnlyAdvance` | src/main/java/com/googlecode/cqengine/TransactionalIndexedCollection.java:160-164 | each publication advances the current version by one, nothing else does, and published versions are never revised or unlocked |
| `MvccTheorems.OnlyOverlapIsRejected` | src/main/java/com/googlecode/cqengine/TransactionalIndexedCollection.java:229-232 | with the write mutex free a call gets in if and only if it skips the validation or no object is in both of its arguments |
| `MvccTheorems.DrainProgress` | src/main/java/com/googlecode/cqengine/TransactionalIndexedCollection.java:160-177 | no step makes a superseded version busier; every step of a thread that loaded it makes it less busy |
| `MvccTheorems.DrainTerminates` | src/main/java/com/googlecode/cqengine/TransactionalIndexedCollection.java:111-115 | over any run, the threads that loaded a superseded version take a bounded number of steps on it, so arriving readers cannot starve the writer |
| `MvccTheorems.RetriesAreBounded` | src/main/java/com/googlecode/cqengine/TransactionalIndexedCollection.java:166-177 | a failed `tryLock` means the loaded version was superseded, any other one takes the lock of the loaded version, and a reader fails at most once per publication after its first load |
| `MvccTheorems.LoadsTheCurrentVersion` | src/main/java/com/googlecode/cqengine/TransactionalIndexedCollection.java:173-174 | each attempt loads the version current at that moment |
| `MvccTheorems.ReaderCanBeRefused` | src/main/java/com/googlecode/cqengine/TransactionalIndexedCollection.java:166-177 | a reader that loads the version and is overtaken by an update's publication and drain is refused, although the read lock is called uncontended |
| `MvccTheorems.ReadersNeverWait` | src/main/java/com/googlecode/cqengine/TransactionalIndexedCollection.java:171-177 | no reader is ever blocked: it can load, try its lock, or close |
| `MvccTheorems.WriterNeverStuck` | src/main/java/com/googlecode/cqengine/TransactionalIndexedCollection.java:235-288 | an update in progress can always take a step or waits only for open result sets of the version it superseded |
| `MvccTheorems.StrictMissChangesNothing` | src/main/java/com/googlecode/cqengine/TransactionalIndexedCollection.java:247-252 | a strict update missing an object to remove can only decline or fail; it publishes and writes nothing and returns false |
| `MvccTheorems.StrictReplacementIsCas` | src/main/java/com/googlecode/cqengine/TransactionalIndexedCollection.java:213-221 | if two strict updates removed the same object, some update added it back between them, or one involving it failed half way |
| `MvccTheorems.NothingStaysHidden` | src/main/java/com/googlecode/cqengine/TransactionalIndexedCollection.java:282-288 | whatever failed, once the write mutex is free the current version hides nothing and shows the whole store, no older version has readers, and store and index agree about every object of no abandoned step |
| `MvccTheorems.OnlyFailuresDisagree` | src/main/java/com/googlecode/cqengine/TransactionalIndexedCollection.java:282-287 | with the write mutex free, any posting that is missing or left over belongs to an object that an update which failed half way was adding or removing |
| `MvccTheorems.HalfAddedStays` | src/main/java/com/googlecode/cqengine/TransactionalIndexedCollection.java:254-261 | a run in which an update failing between its store write and its index writes leaves an indexed object stored that no index finds |
| `TransactionalUpdate.TransactionalCollection.LoadCurrentVersion` | src/main/java/com/googlecode/cqengine/TransactionalIndexedCollection.java:173-174 | the thread has the current version loaded, its failed attempts still counted; other readers, every other field and every superseded version are undisturbed |
| `TransactionalUpdate.TransactionalCollection.TryReadLock` | src/main/java/com/googlecode/cqengine/TransactionalIndexedCollection.java:175 | the lock of the loaded version is granted exactly if no writer holds its write lock, otherwise one more failure is counted; other readers are untouched |
| `TransactionalUpdate.TransactionalCollection.CloseResults` | src/main/java/com/googlecode/cqengine/TransactionalIndexedCollection.java:424-425 | the thread stops reading its version, and no other reader is touched |
| `TransactionalUpdate.TransactionalCollection.AwaitReaders` | src/main/java/com/googlecode/cqengine/TransactionalIndexedCollection.java:163 | waiting for the write lock terminates whatever readers do, if those it waits for close their results after a finite time, and then takes it |
| `TransactionalUpdate.TransactionalCollection.PublishVersion` | src/main/java/com/googlecode/cqengine/TransactionalIndexedCollection.java:161-162 | the new version becomes current, as the writer's only step; readers may then load it, or still lock the old one, before the writer goes on |
| `TransactionalUpdate.TransactionalCollection.SetCurrentVersion` | src/main/java/com/googlecode/cqengine/TransactionalIndexedCollection.java:162 | the assignment itself touches no reader, neither store nor index, and no earlier version |
| `TransactionalUpdate.TransactionalCollection.IncrementVersion` | src/main/java/com/googlecode/cqengine/TransactionalIndexedCollection.java:160-164 | publishes a version hiding the given objects and takes the superseded version's write lock for good, with no other step of the writer; readers move in between and before it returns, each only by steps of its own |
| `TransactionalUpdate.TransactionalCollection.WriteAll` | src/main/java/com/googlecode/cqengine/ConcurrentIndexedCollection.java:554-587 | either branch of the bulk write performs all the writes owed and reports whether the store changed, with arbitrary steps of readers after every write |
| `TransactionalUpdate.TransactionalCollection.EnsureUpdateSetsAreDisjoint` | src/main/java/com/googlecode/cqengine/TransactionalIndexedCollection.java:477-483 | the scan accepts exactly the arguments without a common object |
| `TransactionalUpdate.TransactionalCollection.RestoreEmptyVersion` | src/main/java/com/googlecode/cqengine/TransactionalIndexedCollection.java:381-390 | after an exception in the body, a version hiding nothing is published and drained and what is in the store becomes visible as it is |
| `TransactionalUpdate.TransactionalCollection.Update` | src/main/java/com/googlecode/cqengine/TransactionalIndexedCollection.java:224-289 | rejected if and only if validation is not skipped and some object is in both arguments; final store, report and exception cases of `update` from any state, for an exception at any write or at either end of either step, and under any interference by readers between its actions; nothing stays hidden on any path, and the indexes agree with the store about every object that no failed call was adding or removing |
| `TransactionalUpdate.ReportMeansReplaced` | src/main/java/com/googlecode/cqengine/TransactionalIndexedCollection.java:240-280 | what a return value says about the committed sets before and after |
| `TransactionalUpdate.ThrowTouchesOnlyItsOwn` | src/main/java/com/googlecode/cqengine/TransactionalIndexedCollection.java:282-287 | an update that raised an exception changed at most objects of its own arguments |
| `RetainAll.LazyExclusionIsSafeBetweenObjects` | src/main/java/com/googlecode/cqengine/TransactionalIndexedCollection.java:354-360 | during `retainAll` scans always show exactly the retained objects, and an index shows exactly their postings while no index write is owed, and at no other time; a frozen exclusion would always be right |
| `RetainAll.LazyExclusionLeaks` | src/main/java/com/googlecode/cqengine/engine/CollectionQueryEngine.java:1216-1222 | every indexed object to be removed has a run in which an index returns it after it has left the store |
| `RetainAll.RetainAllIsSafeForUnindexedObjects` | src/main/java/com/googlecode/cqengine/TransactionalIndexedCollection.java:354-360 | index and scan answers agree for every key at every moment of every run of `retainAll` if and only if none of the objects it removes has an index entry |
| `RetainAll.RetainAllRetains` | src/main/java/com/googlecode/cqengine/TransactionalIndexedCollection.java:359-360 | when no write is left to make, store and index hold exactly the retained objects, and the report says whether anything else had been stored |
| `RetainAll.RemovalTerminates` | src/main/java/com/googlecode/cqengine/TransactionalIndexedCollection.java:360 | every write of the removal leaves less to do |
| `RetainAll.RetainAllInterrupted` | src/main/java/com/googlecode/cqengine/TransactionalIndexedCollection.java:360 | wherever an exception ends the removal, the store has lost no retained object, the report so far is right, and store and index disagree exactly by the index writes still owed for one removed object |
| `Flights.DistinctObjectsNeedNoLock` | src/main/java/com/googlecode/cqengine/ConcurrentIndexedCollection.java:53-58 | concurrent add and remove of pairwise different objects keep store and index in agreement about every object nobody is writing, and altogether once all calls return |
| `Flights.CompatibleCallsNeedNoLock` | src/main/java/com/googlecode/cqengine/ConcurrentIndexedCollection.java:53-62 | the same already holds if calls that overlap on one indexed object are all adds or all removes |
| `Flights.AddOvertakenByRemove` | src/main/java/com/googlecode/cqengine/ConcurrentIndexedCollection.java:445-471 | from any collection, an `add` overtaken between its writes by a `remove` of the same indexed object ends with all its postings in the index and the object not stored |
| `Flights.SameObjectIsSafeForOneKind` | src/main/java/com/googlecode/cqengine/ConcurrentIndexedCollection.java:56-62 | two threads calling on one object can end in disagreement if and only if one adds, the other removes, and the object has an index entry; for any initial collection |
| `Flights.SerialAgrees` | src/main/java/com/googlecode/cqengine/ConcurrentIndexedCollection.java:445-471 | running whole calls one at a time keeps store and index in agreement |
| `Stripes.StripeSelection` | src/main/java/com/googlecode/cqengine/ObjectLockingIndexedCollection.java:122-125 | every 32-bit hash code selects an existing stripe, the magnitude of the hash modulo the level |
| `Stripes.StripedLock.constructor` | src/main/java/com/googlecode/cqengine/ObjectLockingIndexedCollection.java:114-120 | fills the array with as many distinct locks as the concurrency level |
| `Stripes.StripedLock.GetLockForObject` | src/main/java/com/googlecode/cqengine/ObjectLockingIndexedCollection.java:122-125 | returns one of the locks, the same one for exactly the objects of the same stripe |
| `Stripes.StoreWriteRefines` | src/main/java/com/googlecode/cqengine/ObjectLockingIndexedCollection.java:245-269 | a store write under its stripe's lock is a step of the unlocked machine in which nobody else is writing that object |
| `Stripes.FreeStripesAgree` | src/main/java/com/googlecode/cqengine/ObjectLockingIndexedCollection.java:178-206 | in every interleaving an object whose stripe is free is in the store if and only if it is in the index |
| `Stripes.LockedCallsSerialize` | src/main/java/com/googlecode/cqengine/ObjectLockingIndexedCollection.java:245-299 | every interleaving has the store, the answers and, when all stripes are free, the index of running the element operations one at a time in order of their store writes |
| `Stripes.ResultsMatchSerialOrder` | src/main/java/com/googlecode/cqengine/ObjectLockingIndexedCollection.java:275-299 | a returned call made one store write per element, in order, between start and return, an addition for `add`, `addAll` and a removal for `remove`, `removeAll`, `iterator().remove()`, and reported whether any changed the store |
| `Stripes.CallAloneActsAsOnSet` | src/main/java/com/googlecode/cqengine/ObjectLockingIndexedCollection.java:245-299 | each of these calls, run alone on any collection, leaves the set its name promises, reports whether that differs from before, and leaves store and index in agreement and all stripes free |
| `Stripes.NoDeadlock` | src/main/java/com/googlecode/cqengine/ObjectLockingIndexedCollection.java:178-206 | a thread never holds two stripes and holds none between elements, so while calls are unfinished some thread can step |
| `Stripes.CallsFinish` | src/main/java/com/googlecode/cqengine/ObjectLockingIndexedCollection.java:245-299 | every step of a call brings it nearer to its return and leaves other calls as they are |
| `Locking.LockingCollection.Add` | src/main/java/com/googlecode/cqengine/ObjectLockingIndexedCollection.java:245-254 | adds under the object's stripe, held once more than before, and restores the hold counts; store, index and report are exact also when the superclass raises an exception before its writes or between them |
| `Locking.LockingCollection.Remove` | src/main/java/com/googlecode/cqengine/ObjectLockingIndexedCollection.java:260-269 | the same for removal |
| `Locking.LockingCollection.AddAll` | src/main/java/com/googlecode/cqengine/ObjectLockingIndexedCollection.java:275-284 | adds all elements, or those before the one that failed (whose store write may have been made), each under its own stripe, with exact store, index and report, and leaves every stripe as it was; adding the collection to itself changes nothing |
| `Locking.LockingCollection.RemoveAll` | src/main/java/com/googlecode/cqengine/ObjectLockingIndexedCollection.java:290-299 | the same for removal; removing the collection from itself empties it and reports whether it was not empty |
| `Locking.LockingCollection.IteratorRemove` | src/main/java/com/googlecode/cqengine/ObjectLockingIndexedCollection.java:178-215 | `iterator().remove()`: removes the current object under its stripe, locked once or (after exhaustion) twice, and follows the iterator's lifecycle (commit, own scope, closing on failure); store, index and hold counts are exact wherever it fails |
| `Sequential.IndexedCollection.DoAddAll` | src/main/java/com/googlecode/cqengine/ConcurrentIndexedCollection.java:554-570 | both branches have the same effect on store and index and report whether the store changed |
| `Sequential.IndexedCollection.DoRemoveAll` | src/main/java/com/googlecode/cqengine/ConcurrentIndexedCollection.java:572-587 | the same for removal |
| `Sequential.IndexedCollection.StoreRemoveAll` | src/main/java/com/googlecode/cqengine/persistence/support/CollectionWrappingObjectStore.java:96-118 | removing one by one removes all and reports whether anything was there |
| `Sequential.IndexedCollection.DoAdd` | src/main/java/com/googlecode/cqengine/ConcurrentIndexedCollection.java:445-455 | acts and reports as a set does, and keeps the index in agreement |
| `Sequential.IndexedCollection.DoRemove` | src/main/java/com/googlecode/cqengine/ConcurrentIndexedCollection.java:461-471 | acts and reports as a set does, and keeps the index in agreement |
| `Sequential.IndexedCollection.DoAddAllOf` | src/main/java/com/googlecode/cqengine/ConcurrentIndexedCollection.java:477-490 | adding a collection to itself changes nothing; otherwise as a set |
| `Sequential.IndexedCollection.DoRemoveAllOf` | src/main/java/com/googlecode/cqengine/ConcurrentIndexedCollection.java:496-511 | removing a collection from itself empties it and reports whether it was not empty; otherwise as a set |
| `Sequential.IndexedCollection.DoRetainAll` | src/main/java/com/googlecode/cqengine/ConcurrentIndexedCollection.java:517-539 | leaves exactly the common elements and returns true if and only if something else was stored |
| `Sequential.IndexedCollection.DoUpdate` | src/main/java/com/googlecode/cqengine/ConcurrentIndexedCollection.java:206-214 | removes, then adds; for disjoint arguments the result says whether the set changed |
| `Sequential.IndexedCollection.DoClear` | src/main/java/com/googlecode/cqengine/ConcurrentIndexedCollection.java:545-552 | empties store and index |
| `Sequential.History` | src/main/java/com/googlecode/cqengine/ConcurrentIndexedCollection.java:445-552 | after any history the collection holds and has reported what a set would, and every key finds exactly the stored objects that have it |
| `Scopes.RequestScope.Close` | src/main/java/com/googlecode/cqengine/ConcurrentIndexedCollection.java:658-693 | only the first close reaches the persistence, with the outcome marked at that time |
| `Scopes.RequestScope.CloseResources` | src/main/java/com/googlecode/cqengine/ConcurrentIndexedCollection.java:607-634 | on the heap the persistence is never called; otherwise it receives the outcome passed through the query options, from which it is removed on every path |
| `Scopes.IteratorClosesOnce` | src/main/java/com/googlecode/cqengine/ConcurrentIndexedCollection.java:346-433 | told from the calls alone: delegate and main scope are closed together and once, by the first call that finds the delegate exhausted or broken, fails to remove, or closes, and not at all without such a call; COMMIT exactly if that call closed cleanly; what `remove` would remove is the object last yielded and not removed since; scopes opened for removals after exhaustion are closed, each with its outcome |
| `Scopes.CollectionIterator.HasNext` | src/main/java/com/googlecode/cqengine/ConcurrentIndexedCollection.java:352-366 | answers as the delegate does, unless that fails or closing on exhaustion does; closes on exhaustion or failure as the lifecycle says |
| `Scopes.CollectionIterator.Next` | src/main/java/com/googlecode/cqengine/ConcurrentIndexedCollection.java:368-382 | exhaustion closes nothing, any other failure closes with ROLLBACK |
| `Scopes.CollectionIterator.Remove` | src/main/java/com/googlecode/cqengine/ConcurrentIndexedCollection.java:384-406 | removes the current object from store and index once per element and commits the open scope, or, after exhaustion, removes it in a scope of its own; a failure closes the iterator with ROLLBACK, and store and index are exact also when it strikes between them |
| `Scopes.CollectionIterator.DoFail` | src/main/java/com/googlecode/cqengine/ConcurrentIndexedCollection.java:408-415 | closes delegate and scope with ROLLBACK unless closed already |
| `Scopes.CollectionIterator.DoClose` | src/main/java/com/googlecode/cqengine/ConcurrentIndexedCollection.java:417-432 | closes delegate and scope unless closed already, with COMMIT exactly if the delegate closes |
| `Scopes.OpenIterator` | src/main/java/com/googlecode/cqengine/ConcurrentIndexedCollection.java:342-439 | the scope is closed with ROLLBACK exactly if the store yields no iterator; otherwise it stays open and the iterator owns it |
| `Scopes.Iterate` | src/main/java/com/googlecode/cqengine/ConcurrentIndexedCollection.java:342-439 | if the store yields no iterator, the scope is closed with ROLLBACK at once; otherwise the iterator object's state is what the history of calls says, on the heap and off it, and store and index stay in agreement unless a removal fails between them |
| `Scopes.Retrieval.SuperRetrieve` | src/main/java/com/googlecode/cqengine/ConcurrentIndexedCollection.java:176-192 | on failure the scope, if opened, is closed with ROLLBACK; on success it is marked for COMMIT and left open |
| `Scopes.Retrieval.Retrieve` | src/main/java/com/googlecode/cqengine/TransactionalIndexedCollection.java:411-450 | on failure read lock, scope and engine results are given back once; on success nothing is given back yet |
| `Scopes.RetrieveAndClose` | src/main/java/com/googlecode/cqengine/TransactionalIndexedCollection.java:403-451 | on every path the read lock is released once and the scope closed once if opened, with COMMIT exactly if the inner `retrieve` succeeded; the persistence hears of it unless it is on the heap |
| `MarkdownLinks.ClosesFence` | scripts/check-markdown-links.py:75-79 | the stripping test recognises exactly the closing lines |
| `MarkdownLinks.OutsideFences` | scripts/check-markdown-links.py:60-82 | the automaton returns, with their numbers and in order, exactly the lines outside all fenced blocks, where blocks run from an opening line to the first line that closes it and no line outside them opens one |
| `MarkdownLinks.OpenersAreThePattern` | scripts/check-markdown-links.py:24 | a line opens a fence of a character and length if and only if it matches the pattern, written out position by position |
| `MarkdownLinks.ClosersAreThePattern` | scripts/check-markdown-links.py:75-79 | a line closes a fence if and only if it is at most three spaces, enough fence characters, and blanks |
| `MarkdownLinks.FencingIsUnique` | scripts/check-markdown-links.py:60-82 | a text has only one division into fenced blocks |
| `MarkdownLinks.OutsideIsOutsideAllBlocks` | scripts/check-markdown-links.py:60-82 | the recursive definition leaves exactly the lines outside those blocks |
| `MarkdownLinks.VisibleLinesAreNumbered` | scripts/check-markdown-links.py:64-72 | visible lines carry their original numbers in increasing order |
| `MarkdownLinks.AppendKeepsVerdicts` | scripts/check-markdown-links.py:60-82 | appending lines changes no verdict on earlier lines |
| `MarkdownLinks.ScannerMeetsTheStandard` | scripts/check-markdown-links.py:60-82 | the lines left visible are those of section 4.5 of CommonMark 0.31.2 if and only if no line met while no fence is open is a backtick fence with a backtick in its info string |
| `MarkdownLinks.ScannerBreaksTheStandard` | scripts/check-markdown-links.py:24 | one such line, which the scanner hides and the standard shows |
| `MarkdownLinks.Escaped` | scripts/check-markdown-links.py:85-91 | a position is escaped if and only if an odd number of backslashes stands before it |
| `MarkdownLinks.DefinitionDestination` | scripts/check-markdown-links.py:94-109 | of what follows the leading white space, the destination ends at the first unescaped `>` or white space, and is missing exactly if nothing or no `>` is there |
| `MarkdownLinks.ScanBare` | scripts/check-markdown-links.py:137-153 | the scan stops at the first place a bare destination may end and visits exactly the positions that are not escaped |
| `MarkdownLinks.BareSpansBalance` | scripts/check-markdown-links.py:137-153 | unescaped parentheses never go negative inside a bare destination and are balanced unless the text ends in it; unescaped white space occurs in it only between parentheses, and an unescaped `)` or white space ends it |
| `MarkdownLinks.DepthCounts` | scripts/check-markdown-links.py:139-152 | the nesting depth is the number of unescaped opening parentheses minus that of closing ones |
| `MarkdownLinks.ReadLink` | scripts/check-markdown-links.py:123-153 | reads the destination after one unescaped `](`, or says where to go on |
| `MarkdownLinks.InlineDestinations` | scripts/check-markdown-links.py:112-153 | terminates on every text; the destinations come from well-formed spans, disjoint and in order, that miss no link starting outside all of them |
| `MarkdownLinks.LinksExplained` | scripts/check-markdown-links.py:112-153 | every extracted destination stands after an unescaped `](` and blanks, bare or between `<` and the first unescaped `>`, and every such beginning is extracted unless it lies within a link or is a `<` without `>` |
| `MarkdownLinks.ExtractionIsUnique` | scripts/check-markdown-links.py:112-153 | that description of the result allows only one result |

## Left out

- `retainAll` and `clear` of the transactional class are not steps of the multi-version machine, because their exclusion is not a fixed set; `RetainAll.dfy` treats the removal of one `retainAll` alone, with its version already published and drained.
- The result published by `retainAll` is the difference of the whole store and the retained objects; an application may replace it by a standing query index on that very query, which is not modelled.
- READ_UNCOMMITTED calls and the inherited `size`, `contains`, `iterator` of the transactional class bypass the protocol and have no guarantee to state.
- The `c == this` shortcuts of the transactional `addAll` and `removeAll`.
- MvccTheorems.NothingStaysHidden: assumes that publishing a version and waiting for readers do not themselves fail.
- MvccTheorems.WriterNeverStuck: assumes result sets get closed; a thread that keeps one open and calls a writer waits for itself.
- MvccTheorems.SnapshotStability: does not claim that an index is right about objects of an abandoned add or remove step, because writes on the heap are not rolled back; stability of what each reader sees is claimed always.
- Arguments of bulk calls are finite and do not depend on the collection or change during the call.
- `ObjectLockingIndexedCollection` inherits `update` without locks, and its `retainAll` and `clear` take no stripe; only locked calls are modelled. Its `addAll` and `removeAll` of the collection itself go to the superclass; `Locking.dfy` has them, the step machine of `Stripes.dfy` does not.
- RetainAll.RetainAllRetains: the removal itself; publishing and draining its versions, also the one after a failure (`RetainAllInterrupted`), is the same `incrementVersion` as in `update`.
- MarkdownLinks.ScannerMeetsTheStandard: compares the opening rule for fences alone; containers such as list items and block quotes, indented code, tabs, line terminators other than those stripped at a closing line, are read the scanner's way on both sides.
- Stripes.StripedLock.constructor: the locks carry no state of their own there; owners and hold counts are part of the step machine.
- A non-positive concurrency level, which Java rejects on construction or first use.
- Sequential.IndexedCollection.DoRetainAll: visits the elements of the store in an arbitrary order, each once, as an iterator of a map nobody else changes does.
- Scopes.CollectionIterator.Next: what the delegate answers after the application closed the iterator is arbitrary, as the code does not guard against it.
- Real rollback, SQLite, disk and off-heap persistence: a scope's outcome is recorded, its effect on storage is not part of the model.
- Query planning, index data structures, result merging and the query parsers: an index answers by key from its postings.
- The Java memory model beyond atomic steps, and integer overflow of version numbers.
- Reflection, bytecode generation and the other attribute classes.
- The link checker's path resolution, reference table, HTML entities and URL handling; release, portal and report scripts.
