# Verification of the RCU library and its relativistic hash table

This project models a small epoch-based RCU library and the resizable hash table and lists built on
it, and proves that they do what they are for: lookups that take no lock never miss an element while
a serialized writer inserts, detaches, expands and shrinks under them, and memory is only given back
when no reader can still be on it.

Check everything with `dafny verify dfyconfig.toml`; a solver limit that suffices, with
room to spare, is `--resource-limit 4000000 --verification-time-limit 0`.

## How the model is built

1. **The epoch ring** (`GracePeriod`, `EpochZone`, `PowerOfTwo`, `Registry`). `EpochZone` is a step
   machine for `RCU.cpp`: every thread has a program counter in `rcuReadLock`/`rcuReadUnlock`, with
   one shared load, increment or decrement per step; the writer advances the epoch and scans the
   draining row one counter at a time. `GracePeriod` is the service its users rely on. `EpochZone.Refines`
   connects the two, and `ZoneProgress` says what the threads can always do. `Registry` and `PowerOfTwo` say which counter a thread uses.
2. **The table under concurrent readers** (`TableMachine` to `System`). One heap of links holds bucket
   heads and nodes, so each store of the writer is `next[a] := q`, one reader-visible store per
   action. A lookup loads the published array, then the bucket head, then one link at a time.
   `TableInvariant` gives the chains at every point of a resize: while the first k nodes of an old chain are unzipped,
   the new bucket t holds its own share of those k nodes followed by all the rest. `Lookup`,
   `Reclaim` and `ResizeRuns` hold the theorems about runs. `Operations` says that every operation can
   begin, for any contents, and what it ends with; `Progress` and `LookupEnds` that operations and
   lookups can go on and end. `System` and `Completion` carry all this to the concrete epoch ring.
3. **The table as its writer executes it** (`SList`, `Resize`, `Rounds`, `Buckets`, `Layout`, `RTable`): real
   linked nodes updated in place, with the loops of the source, proved against the chains as
   sequences. `Dictionary`, `TableRuns` and `Load` draw the consequences for whole runs: any program of calls
   on a table gets the answers of a plain map from keys to nodes, and the load stays within bounds.
4. **The doubly linked list**, again twice: `DList` for the code that updates and iterates in place,
   and `ListDirection`, `ListMachine` and `ListReaders` for one writer with many readers going both
   ways, with `ListOperations` for what can always happen.

`Bits`, `Chains` and `Walks` are the shared mathematics: masks, filtering and splitting sequences,
and the walk that starts at a link of a heap.

The actions of the table machine are the predicates `TableMachine.Do...`: `DoBeginInsert` and
`DoStoreHead` (RcuSinglyLinkedListApi.h:83-84), `DoDetach` (131-146), `DoBeginExpand`, `DoStoreTwin`, `DoPublishTwins`
(RCUHashTable.cpp:153-179, 243-260), `DoFindStart` (182-201), `DoUnzipOne` (103-150), `DoStoreSplice` and
`DoStoreMerged` (60-95), `DoPublishMerged` (290). The steps of the zone are the cases of `EpochZone.Step`.

## Assumptions

- Atomics interleave sequentially consistently.
- Writers are serialized; read locks are not nested; a thread's counter does not change between
  its lock and its unlock (`Registry.ReaderThreadRegistry.Register` says exactly when it would).
- A lookup's predicate implies the hash value it is given. In the machine the predicate is a set of
  nodes, and a node is accepted when it is in the set and has that hash value.
- The client inserts a node only when it is neither linked nor waiting for a grace period, and reuses an element of the doubly linked
  list only when every reader that began before its removal has finished.
- In `Dictionary` and `TableRuns` a node's key never changes, its hash value is a function of its key,
  and nodes of one key are equivalent.
- Load factors are real numbers; allocation succeeds; the bucket count does not overflow.
- The thread-id hash is an arbitrary fixed function.

## Where the code and its documentation disagree

- The header comment at RCUHashTableCoreApi.h:121-123 says a lookup tests only entries of equal hash.
  The code tests the predicate alone. `RTable.FindOtherHash` builds a table in which a lookup returns a
  node of another hash value; `RTable.Table.FindTestsHashIff` says exactly when that cannot happen.
- `rcuSlistAppendIfNoMatch` is documented to test the elements; it tests the list head and never the
  last element. `SList.AppendAsDocumented` gives the exact condition under which that agrees,
  `SList.AppendDuplicate` and `SList.AppendTwice` two inputs for which it does not.
- `size` counts successful insertions: a detach does not lower it. It is the number of linked nodes
  exactly as long as nothing has been detached (`RTable.Table.SizeIsLinkedIff`, `Load.LoadExact`).
- `hash` is overwritten before the duplicate check (RCUHashTableCoreApi.h:90), and
  nothing recognises an entry that is linked already. `RTable.Table.TryInsertNoExpand` and
  `Layout.RehashKeepsLayout` say exactly when that spoils the table, `RTable.InsertMoved` gives a call that does.
- `upperBoundPowerOf2` returns 0 above 2^31, where no 32-bit answer exists (`PowerOfTwo.CeilingExists`).
- `findFirstUnzipStarts` returns a pointer converted to `bool` when all chains are finished, which is
  `true`; the model returns the flag.

## Model

| member | source | states |
|---|---|---|
| System.LookupNeverMisses | Relativistic_Hash_Table/LibSource/include/RCUHashTableCoreApi.h:127-139 | In every interleaving of reader threads and the writer over the concrete epoch ring, a lookup that returns null has not skipped a matching node that stayed linked, with its hash value, for the whole lookup. |
| System.LookupFindsLinked | Relativistic_Hash_Table/LibSource/include/RCUHashTableCoreApi.h:127-139 | A lookup that returns a node returns one its predicate accepts and that was linked, under the hash value looked for, at some moment of the lookup itself (and so since its thread validated its epoch). |
| System.DetachIsSafe | Relativistic_Hash_Table/LibSource/include/RCUHashTableCoreApi.h:165-177 | After a detach and any later return of `rcuSynchronize`, no reader holds the node or can arrive at it until the client inserts it again. |
| System.SomeLookupMisses | Relativistic_Hash_Table/LibSource/include/RCUHashTableCoreApi.h:127-139 | Runs as in `System.LookupNeverMisses` exist for every hash value and predicate: its hypotheses can be met. |
| System.SysRefines | Relativistic_Hash_Table/LibSource/RCU.cpp:98-144 | A step of the combined system of zone and table is a step of the table machine over the abstract grace period. |
| System.RunRefines | Relativistic_Hash_Table/LibSource/RCU.cpp:98-144 | Every run of the combined system is, step for step, a run of the table machine. |
| Lookup.MissIsHonest | Relativistic_Hash_Table/LibSource/include/RCUHashTableCoreApi.h:127-139 | The no-miss theorem over the abstract grace period, for every run of inserts, detaches, expansions, shrinks and lookups. |
| Lookup.WriterKeepsAhead | Relativistic_Hash_Table/LibSource/RCUHashTable.cpp:103-150 | No store of the writer takes a node that stays linked off the walk of a reader that is looking for it; for the unzip store this is where the grace period is needed. |
| Lookup.LinkedIsReachable | Relativistic_Hash_Table/LibSource/include/RCUHashTableCoreApi.h:83-101 | In every state the nodes on the client's ledger are exactly those a new lookup of their hash value would reach. |
| Lookup.RunGood | Relativistic_Hash_Table/LibSource/RCUHashTable.cpp:223-293 | Every state of every run from an empty table satisfies the inductive invariant. |
| Reclaim.FoundWasLinked | Relativistic_Hash_Table/LibSource/include/RCUHashTableCoreApi.h:127-139 | A returned node satisfies the predicate and was reachable for a new lookup, under the hash value looked for, at some moment between the first and the last step of the lookup that returned it. |
| Reclaim.DetachedThenSynchronized | Relativistic_Hash_Table/LibSource/include/RCUHashTableCoreApi.h:56-81 | Safe reclamation, whichever call supplied the grace period: the auto-shrink or the caller. |
| Reclaim.OnlyLedgerNodes | Relativistic_Hash_Table/LibSource/include/RcuSinglyLinkedListApi.h:126-146 | What a reader holds or can still meet is linked or waits for a grace period; once a grace period has begun without that reader, it is linked. |
| Reclaim.HitsAreFinds | Relativistic_Hash_Table/LibSource/include/RCUHashTableCoreApi.h:127-139 | What a critical section holds from its lookups is exactly what they have returned since the read lock was acquired: nothing found earlier is forgotten before the lock is released. |
| Reclaim.NoDanglingReads | Relativistic_Hash_Table/LibSource/include/RCUHashTableCoreApi.h:127-139 | The array a lookup has loaded is the published one, or the replaced one that is not freed before the grace period under way has ended; its cursor is on a node that is linked or not yet handed back. |
| Reclaim.OldArrayIsDead | Relativistic_Hash_Table/LibSource/RCUHashTable.cpp:259-270 | From the first store into an old bucket head until the old array is freed, no reader inside holds the old array. |
| Reclaim.ShrunkArrayIsDead | Relativistic_Hash_Table/LibSource/RCUHashTable.cpp:290-292 | When the grace period of a shrink ends, no reader inside holds the old array. |
| Reclaim.NobodyAtTheJump | Relativistic_Hash_Table/LibSource/RCUHashTable.cpp:108-127 | Just before the round of a chain, no reader that wants the other half of the chain can arrive at the jump start. |
| Reclaim.AlwaysAcyclic | Relativistic_Hash_Table/LibSource/RCUHashTable.cpp:148-149 | The `next` graph has no cycle in any reachable state, between any two stores of a resize. |
| ResizeRuns.ExpansionSplits | Relativistic_Hash_Table/LibSource/RCUHashTable.cpp:243-271 | In every interleaving with lookups, a finished expansion leaves each new bucket with the order-preserving filter of the chain its old bucket had at the start. |
| ResizeRuns.ExpansionKeepsOrder | Relativistic_Hash_Table/LibSource/RCUHashTable.cpp:223-241 | At every moment from publishing on, each new bucket's chain holds all of its nodes in their old order and otherwise only nodes of the same old chain. |
| ResizeRuns.ExpansionKeepsApart | Relativistic_Hash_Table/LibSource/RCUHashTable.cpp:153-179 | At every moment of an expansion, while the new heads are being set and while chains are unzipped, lists over different old buckets share no node. |
| ResizeRuns.ShrinkKeepsOrder | Relativistic_Hash_Table/LibSource/RCUHashTable.cpp:60-95 | At every moment while a shrink joins its chains, each published bucket leads to its old chain, or, in the lower half, to its old chain with the chain of its partner behind it: nothing is lost or reordered. |
| ResizeRuns.ShrinkPrepares | Relativistic_Hash_Table/LibSource/RCUHashTable.cpp:282-289 | Meanwhile every new head that is set leads to its two old chains, joined. |
| ResizeRuns.ShrinkJoins | Relativistic_Hash_Table/LibSource/RCUHashTable.cpp:273-293 | A published shrink leaves each new bucket with its two old chains, one behind the other, in every interleaving. |
| ResizeRuns.ChainExists | Relativistic_Hash_Table/LibSource/RCUHashTable.cpp:223-241 | Every bucket of the published array always has a complete, finite list, so the statements about chains are never empty. |
| Progress.StuckOnlyByReaders | Relativistic_Hash_Table/LibSource/RCU.cpp:131-144 | In every reachable state the writer has a next action if and only if it does not wait in `rcuSynchronize` for a reader. |
| Progress.StepsDrop | Relativistic_Hash_Table/LibSource/RCUHashTable.cpp:223-293 | Every action of a writer that is not idle lowers the number of actions its operation has left, down to zero when it ends. |
| Progress.ExpansionIsBounded | Relativistic_Hash_Table/LibSource/RCUHashTable.cpp:243-271 | In every interleaving an expansion of n buckets holding l nodes takes at most l * (n + 3) + 4 * n + 5 more actions of the writer after its first one. |
| Progress.ShrinkIsBounded | Relativistic_Hash_Table/LibSource/RCUHashTable.cpp:273-293 | In every interleaving a shrink of n buckets takes at most n + 3 more. |
| Progress.WriterFinishes | Relativistic_Hash_Table/LibSource/RCUHashTable.cpp:223-293 | From every reachable state in which no reader is inside there is a run of writer actions that ends the operation under way, within the actions it has left. |
| Progress.LookupNeverStuck | Relativistic_Hash_Table/LibSource/include/RCUHashTableCoreApi.h:126-139 | A lookup under way has a next step of its own in every reachable state, whatever the writer is doing. |
| LookupEnds.NoNodeTwice | Relativistic_Hash_Table/LibSource/include/RCUHashTableCoreApi.h:126-139 | In every run, whatever the writer does meanwhile, a lookup examines no node twice. |
| LookupEnds.LookupIsBounded | Relativistic_Hash_Table/LibSource/include/RCUHashTableCoreApi.h:126-139 | So the own steps of a lookup under way never exceed the nodes that are linked or wait for a grace period, and one. |
| Completion.OperationsEnd | Relativistic_Hash_Table/LibSource/RCU.cpp:98-144 | From every reachable state of threads, ring and table there is a run in which the readers finish their lookups and leave, `rcuSynchronize` returns and the operation under way ends. |
| Completion.ReadersNeverWait | Relativistic_Hash_Table/LibSource/RCU.cpp:98-121 | From every reachable state, whatever the writer and the other threads are in the middle of, any thread can acquire the lock and complete a lookup for any hash value and predicate by steps of its own; it finds a node exactly if one that its predicate accepts is linked under that value. |
| Completion.SysMatches | Relativistic_Hash_Table/LibSource/RCU.cpp:98-144 | Every step of the table machine is a step of the combined system: entering when the thread validates the latest epoch, the return of `rcuSynchronize` when the scan is over, and everything else at any time; every other step of the ring is one as well (`Completion.ZoneMatches`). |
| Completion.SysInitExists | Relativistic_Hash_Table/LibSource/RCU.cpp:53-68 | The combined system can start out with any threads and counters and a table of any power-of-two size. |
| Operations.InitExists | Relativistic_Hash_Table/LibSource/RCUHashTable.cpp:296-303 | A table can start out with any power-of-two number of buckets and any number of readers. |
| Operations.ExpansionBegins | Relativistic_Hash_Table/LibSource/RCUHashTable.cpp:243-249 | An expansion can begin in every state in which the writer is idle, whatever the table holds and whoever is inside. |
| Operations.ExpansionHappens | Relativistic_Hash_Table/LibSource/RCUHashTable.cpp:223-271 | With no reader inside, a run of the writer alone takes it to its end: twice the buckets, the same nodes and hash values, and in each new bucket, in order, its own nodes of the old bucket. |
| Operations.ShrinkBegins | Relativistic_Hash_Table/LibSource/RCUHashTable.cpp:273-281 | A shrink can begin in every state in which the writer is idle and there are two buckets or more. |
| Operations.ShrinkHappens | Relativistic_Hash_Table/LibSource/RCUHashTable.cpp:273-293 | With no reader inside, a run of the writer alone takes it to its end: half the buckets, the same nodes, and in each new bucket its two old chains, one behind the other. |
| Operations.InsertHappens | Relativistic_Hash_Table/LibSource/include/RCUHashTableCoreApi.h:83-101 | In every state with an idle writer, any node that is neither linked nor waiting for a grace period can be inserted under any hash value, in two actions; it becomes the first of its bucket, and no other chain changes. |
| Operations.DetachHappens | Relativistic_Hash_Table/LibSource/include/RCUHashTableCoreApi.h:39-52 | Any linked node can be detached in one action, which takes it out of its chain, changes no other, and leaves the node its own link. |
| Operations.SyncBegins | Relativistic_Hash_Table/LibSource/RCU.cpp:131-133 | An idle writer can ask for a grace period at any time; it waits for exactly the readers inside at that moment. |
| Operations.EnterHappens | Relativistic_Hash_Table/LibSource/RCU.cpp:98-121 | A thread outside can enter in every phase of the writer. |
| Operations.LeaveHappens | Relativistic_Hash_Table/LibSource/RCU.cpp:123-129 | A thread inside that is not in the middle of a lookup can leave in every phase of the writer. |
| Operations.StartFindHappens | Relativistic_Hash_Table/LibSource/include/RCUHashTableCoreApi.h:127-128 | A thread inside can start a lookup for any hash value and predicate in every phase of the writer, on the array published at that moment. |
| Operations.LookupAlone | Relativistic_Hash_Table/LibSource/include/RCUHashTableCoreApi.h:126-139 | While nobody else moves, a lookup started in any phase of the writer ends, and finds a node exactly if one that its predicate accepts is linked under its hash value. |
| TableWriter.BeginInsertOk | Relativistic_Hash_Table/LibSource/include/RcuSinglyLinkedListApi.h:83 | Preparing a new node changes nothing any reader can see. |
| TableWriter.StoreHeadOk | Relativistic_Hash_Table/LibSource/include/RcuSinglyLinkedListApi.h:84 | The store into the bucket head puts the node in front of its chain, keeps every other chain, the invariant and the walks of all readers. |
| TableWriter.DetachOk | Relativistic_Hash_Table/LibSource/include/RcuSinglyLinkedListApi.h:131-146 | The unlinking store takes exactly the one node out of its chain, keeps every other chain, and takes nothing else off any walk; the node keeps its own link. |
| TableExpand.BeginExpandOk | Relativistic_Hash_Table/LibSource/RCUHashTable.cpp:243-249 | Allocating the doubled array is invisible; the chains of this moment are recorded. |
| TableExpand.StoreTwinOk | Relativistic_Hash_Table/LibSource/RCUHashTable.cpp:153-179 | Pointing a new bucket at its first node gives it the old chain from there on, cut behind its first segment. |
| TableExpand.PublishTwinsOk | Relativistic_Hash_Table/LibSource/RCUHashTable.cpp:260 | The new array serves every linked node from the moment it is published. |
| TableExpand.FindStartOk | Relativistic_Hash_Table/LibSource/RCUHashTable.cpp:182-201 | Re-using an old head for the jump pointer is invisible, and the pointer is the last node of the first segment. |
| TableUnzip.UnzipOneOk | Relativistic_Hash_Table/LibSource/RCUHashTable.cpp:103-150 | The one reader-visible store of `unzipOneSegment` takes exactly the next segment off the walks through the jump start, moves the cut by one segment and keeps every other chain. |
| TableUnzip.UnzipDoneOk | Relativistic_Hash_Table/LibSource/RCUHashTable.cpp:223-241 | When a round finds nothing to do, every new chain is the filter of its old chain. |
| TableShrink.StoreSpliceOk | Relativistic_Hash_Table/LibSource/RCUHashTable.cpp:93 | Splicing the second list behind the first only adds linked nodes to walks. |
| TableShrink.StoreMergedOk | Relativistic_Hash_Table/LibSource/RCUHashTable.cpp:94 | The new head starts the joined list. |
| TableShrink.PublishMergedOk | Relativistic_Hash_Table/LibSource/RCUHashTable.cpp:273-293 | The halved array serves every linked node, with joined chains. |
| TableReaders.WriterStep | Relativistic_Hash_Table/LibSource/RCUHashTable.cpp:223-293 | Every writer action keeps the structure of the chains and relinks no more than its own loss and gain. |
| TableReaders.StepInv | Relativistic_Hash_Table/LibSource/RCUHashTable.cpp:223-293 | Every step of writer, readers and grace period keeps the whole invariant, reader cursors included. |
| TableReaders.LoadHeadOk | Relativistic_Hash_Table/LibSource/include/RCUHashTableCoreApi.h:129-135 | A bucket head loaded from the array the lookup holds leads to every linked node of its hash value, and into no danger. |
| GracePeriod.SyncWaits | Relativistic_Hash_Table/LibSource/RCU.cpp:131-144 | A reader that was inside when synchronize began has left before it returns. |
| EpochZone.Refines | Relativistic_Hash_Table/LibSource/RCU.cpp:98-144 | Every step of the epoch ring is a step of the abstract grace period: a return of `rcuSynchronize` is only possible when all readers validated before the increment have left. |
| EpochZone.StepInv | Relativistic_Hash_Table/LibSource/RCU.cpp:98-144 | The ring invariant (counts, epoch bound, passed buckets empty of old readers) is kept by every step of every thread, stale increments included. |
| EpochZone.ConservedStep | Relativistic_Hash_Table/LibSource/RCU.cpp:107-118 | Every step keeps each counter equal to the number of threads between their increment and their decrement on it. |
| EpochZone.PassedBucketIsEmpty | Relativistic_Hash_Table/LibSource/RCU.cpp:139-142 | The scan passes a bucket only when no thread holds a reference in it on the draining row. |
| EpochZone.RingNeverConfusesEpochs | Relativistic_Hash_Table/LibSource/RCU.cpp:98-144 | In every run: counters equal their holders and are not negative, `epochOldest <= epochLatest <= epochOldest + 1`, and all validated readers lie in that range. |
| EpochZone.DrainStep | Relativistic_Hash_Table/LibSource/RCU.cpp:136-143 | While a row drains, no step of any thread raises the measure and every step that touches the row lowers it. |
| EpochZone.DrainBounded | Relativistic_Hash_Table/LibSource/RCU.cpp:136-143 | In every run the draining row is touched at most three times per thread before `rcuSynchronize` returns. |
| EpochZone.DrainedMeansFree | Relativistic_Hash_Table/LibSource/RCU.cpp:136-143 | When the measure is zero the writer can always go on. |
| EpochZone.UnheldMeansFree | Relativistic_Hash_Table/LibSource/RCU.cpp:136-143 | While no thread holds a reference in the draining row the scan goes on, and comes nearer to its end. |
| EpochZone.BlockedByWhom | Relativistic_Hash_Table/LibSource/RCU.cpp:139-142 | A bucket that blocks the scan is held by a reader that validated the old epoch or by a thread about to take back a stale increment. |
| EpochZone.RetriesBounded | Relativistic_Hash_Table/LibSource/RCU.cpp:101-120 | `rcuReadLock` retries at most once per epoch advance that it overlaps. |
| ZoneProgress.InitExists | Relativistic_Hash_Table/LibSource/RCU.cpp:53-68 | A zone can be set up for every configuration. |
| ZoneProgress.LockSucceeds | Relativistic_Hash_Table/LibSource/RCU.cpp:98-121 | Wherever a thread stands in `rcuReadLock` and whatever the writer is doing, it holds the latest epoch after at most six steps of its own, three from the start, with at most one revert, while nobody else moves. |
| ZoneProgress.UnlockSucceeds | Relativistic_Hash_Table/LibSource/RCU.cpp:123-129 | A thread that holds an epoch can give it back at any time, which lowers its one counter. |
| ZoneProgress.WriterMoves | Relativistic_Hash_Table/LibSource/RCU.cpp:131-144 | When exactly the writer can begin, pass a bucket, go to the next row and return: a bucket is passed exactly when no thread holds a reference in it on the draining row. |
| EpochZone.SlotOf | Relativistic_Hash_Table/LibSource/RCU.cpp:106-107 | Every counter access is inside the array of both rows. |
| EpochZone.SlotInjective | Relativistic_Hash_Table/LibSource/RCU.cpp:58-64 | Different rows or buckets never share a counter. |
| PowerOfTwo.UpperBoundPowerOf2 | Relativistic_Hash_Table/LibSource/RCUHashTable.cpp:14-26 | Up to 2^31 the result is the least power of two that is at least v (and so 1 or below 2 * v); above, it is 0. |
| PowerOfTwo.SmearStep | Relativistic_Hash_Table/LibSource/RCUHashTable.cpp:19-23 | Or-ing in the number shifted by as many digits as it starts with ones doubles that run of ones. |
| PowerOfTwo.CeilingExists | Relativistic_Hash_Table/LibSource/RCU.cpp:15-27 | A 32-bit power of two that is not smaller exists exactly up to 2^31. |
| Registry.ReaderThreadRegistry.constructor | Relativistic_Hash_Table/LibSource/RCU.cpp:35-38 | Starts with no thread registered and a power-of-two number of own counters, at least the number of hardware threads and, unless it is 1, below twice that. |
| Registry.ReaderThreadRegistry.Register | Relativistic_Hash_Table/LibSource/RCU.cpp:41-51 | Succeeds exactly for an unregistered thread while ids are left; ids stay distinct; a call refused because they have run out still uses one up, a call of a registered thread does not; only a success moves a thread to another counter. |
| Registry.ReaderThreadRegistry.FetchThreadBucketId | Relativistic_Hash_Table/LibSource/RCU.cpp:86-94 | A registered thread has its own counter; any other has the counter at its hash modulo the hashed part, behind all own counters. |
| Registry.ReaderThreadRegistry.CountersApart | Relativistic_Hash_Table/LibSource/RCU.cpp:41-51 | A registered thread shares its counter with no other thread, registered or not. |
| Registry.ZoneConfig | Relativistic_Hash_Table/LibSource/RCU.cpp:29-32 | Whatever threads are registered, their counters form a valid configuration of the zone. |
| Registry.InitZone | Relativistic_Hash_Table/LibSource/RCU.cpp:53-68 | Both rows start at zero; their hashed part is a power of two, at least the count asked for and, unless it is 1, below twice that. |
| Registry.AccessStaysInRow | Relativistic_Hash_Table/LibSource/RCU.cpp:106-107 | Every access of a thread stays in the row of its epoch. |
| Registry.RegisteredOwnsCounter | Relativistic_Hash_Table/LibSource/RCU.cpp:106-107 | In either row a registered thread's counter is touched by no other thread. |
| Bits.MaskIsMod | Relativistic_Hash_Table/LibSource/RCUHashTable.cpp:97-100 | For a power-of-two bucket count the mask is reduction modulo the count. |
| Bits.BucketSplits | Relativistic_Hash_Table/LibSource/RCUHashTable.cpp:166-167 | A node of bucket b is in bucket b or b + n of the doubled array: the assertion of `initTwinDstBuckets`. |
| Bits.SameBucketIff | Relativistic_Hash_Table/LibSource/include/RCUHashTableCoreApi.h:130-131 | Hash values share a bucket exactly when they agree modulo the bucket count. |
| Bits.BucketsCollide | Relativistic_Hash_Table/LibSource/include/RCUHashTableCoreApi.h:130-131 | For every size_t hash value and every power-of-two bucket count a size_t can hold, another size_t hash value has the same bucket. |
| RTable.Table.FindTestsHashIff | Relativistic_Hash_Table/LibSource/include/RCUHashTableCoreApi.h:121-138 | The header says that only entries of the given hash value are tested. The lookup keeps that, for every predicate, if and only if all linked nodes of the selected bucket have that hash value. |
| RTable.FindOtherHash | Relativistic_Hash_Table/LibSource/include/RCUHashTableCoreApi.h:121-138 | And it does fail: for every size_t hash value there is a table that holds a node of that value and hands out a node of another one. |
| SList.FindIf | Relativistic_Hash_Table/LibSource/include/RcuSinglyLinkedListApi.h:116-124 | Returns the first element that satisfies the predicate, or null exactly if none does. |
| SList.InsertAfter | Relativistic_Hash_Table/LibSource/include/RcuSinglyLinkedListApi.h:39-47 | Puts the element behind any position of the list and changes no other order. |
| SList.AppendToTail | Relativistic_Hash_Table/LibSource/include/RcuSinglyLinkedListApi.h:52-65 | Puts the element at the end, from whatever position the walk starts. |
| SList.PrependIfNoMatch | Relativistic_Hash_Table/LibSource/include/RcuSinglyLinkedListApi.h:72-86 | Inserts in front exactly when no element is equivalent, and otherwise changes nothing; what it leaves is the longer list exactly if the element was not in it. |
| SList.AppendIfNoMatch | Relativistic_Hash_Table/LibSource/include/RcuSinglyLinkedListApi.h:93-111 | Inserts at the end exactly when the list is empty or neither the list head nor any element but the last passes the test; the list grows by the element exactly if the element was not in it, and the last element, appended again, points to itself. |
| SList.AppendAsDocumented | Relativistic_Hash_Table/LibSource/include/RcuSinglyLinkedListApi.h:88-111 | That agrees with the documented promise (inserted exactly when no element passes the test) if and only if the list is empty, some element before the last one passes, or the head passes exactly when the last element does. |
| SList.AppendDuplicate | Relativistic_Hash_Table/LibSource/include/RcuSinglyLinkedListApi.h:88-111 | A failing input: a list of one element that passes the test, whose head does not, gets a second such element. |
| SList.AppendTwice | Relativistic_Hash_Table/LibSource/include/RcuSinglyLinkedListApi.h:88-111 | The worst one: appending the same node twice makes it point to itself, and what the head leads to is a list no longer. |
| SList.RemoveIf | Relativistic_Hash_Table/LibSource/include/RcuSinglyLinkedListApi.h:130-146 | Takes out exactly the first match, which keeps its own link. |
| SList.Remove | Relativistic_Hash_Table/LibSource/include/RcuSinglyLinkedListApi.h:150-166 | Takes out the given element exactly if it is in the list. |
| Resize.InitTwinDstBuckets | Relativistic_Hash_Table/LibSource/RCUHashTable.cpp:153-179 | Each new head gets the first node of its bucket, or null. |
| Resize.TwinsShare | Relativistic_Hash_Table/LibSource/RCUHashTable.cpp:153-179 | Started there, the two new lists are the old chain cut behind its first segment. |
| Resize.FindFirstUnzipPoint | Relativistic_Hash_Table/LibSource/RCUHashTable.cpp:182-201 | The old head gets the last node of the first segment, or null when there is only one. |
| Resize.WalkSegment | Relativistic_Hash_Table/LibSource/RCUHashTable.cpp:128-147 | The walk finds the end of the next segment and what follows it, and the asserts hold. |
| Resize.UnzipOneSegment | Relativistic_Hash_Table/LibSource/RCUHashTable.cpp:103-150 | After the two stores both new lists are cut one segment further. |
| Resize.TwinnedDone | Relativistic_Hash_Table/LibSource/RCUHashTable.cpp:223-241 | With the cut at the end the two lists are the two shares of the chain. |
| Resize.FindLast | Relativistic_Hash_Table/LibSource/RCUHashTable.cpp:83-91 | Finds the last element of a nonempty list. |
| Resize.ShrinkTwoBucketsToOne | Relativistic_Hash_Table/LibSource/RCUHashTable.cpp:60-95 | The new list is one chain behind the other, in all four cases of empty lists; both old heads still lead to all they led to. |
| Rounds.LeftDrops | Relativistic_Hash_Table/LibSource/RCUHashTable.cpp:148-149 | One round removes exactly one change of target bucket from a chain. |
| Rounds.LeftAtStart | Relativistic_Hash_Table/LibSource/RCUHashTable.cpp:182-201 | Before the first round a chain needs as many rounds as it has segments, less one. |
| Buckets.AllocateBuckets | Relativistic_Hash_Table/LibSource/RCUHashTable.cpp:28-48 | Fresh, distinct, empty heads. |
| Buckets.InitTwins | Relativistic_Hash_Table/LibSource/RCUHashTable.cpp:250-257 | Every pair of new buckets shares its old chain. |
| Buckets.FindFirstUnzipStarts | Relativistic_Hash_Table/LibSource/RCUHashTable.cpp:204-221 | Every old head gets its jump pointer; finished exactly when no chain has a second segment. |
| Buckets.UnzipRound | Relativistic_Hash_Table/LibSource/RCUHashTable.cpp:227-236 | One pass advances every unfinished chain by one segment; finished exactly when none was left. |
| Buckets.TrackEnd | Relativistic_Hash_Table/LibSource/RCUHashTable.cpp:223-241 | A round finds nothing to do exactly when as many rounds have passed as the worst chain needs. |
| Buckets.ExpandedLists | Relativistic_Hash_Table/LibSource/RCUHashTable.cpp:243-271 | After the last round each new head starts the filter of its old chain. |
| Buckets.JoinBuckets | Relativistic_Hash_Table/LibSource/RCUHashTable.cpp:282-289 | Every new head starts its two old chains, joined. |
| Layout.ExpandPlaces | Relativistic_Hash_Table/LibSource/RCUHashTable.cpp:243-271 | An expansion loses, duplicates or misplaces no node. |
| Layout.ShrinkPlaces | Relativistic_Hash_Table/LibSource/RCUHashTable.cpp:273-293 | Neither does a shrink. |
| Layout.ExpandUndoesShrink | Relativistic_Hash_Table/LibSource/RCUHashTable.cpp:243-293 | Expanding a table that was shrunk restores every chain exactly. |
| Layout.ShrinkPartitions | Relativistic_Hash_Table/LibSource/RCUHashTable.cpp:243-293 | Shrinking a table that was expanded turns every chain into its stable partition by the new hash bit, a permutation. |
| Layout.PlacedAfterInsert | Relativistic_Hash_Table/LibSource/include/RCUHashTableCoreApi.h:83-101 | A node in front of the chain its hash selects keeps every node in its bucket. |
| Layout.PlacedAfterRemove | Relativistic_Hash_Table/LibSource/include/RCUHashTableCoreApi.h:39-52 | Taking one node out keeps every other node in its bucket. |
| Layout.RehashKeepsLayout | Relativistic_Hash_Table/LibSource/include/RCUHashTableCoreApi.h:90 | Overwriting the hash of a linked node keeps the table sound if and only if the new value selects the same bucket. |
| RTable.Table.constructor | Relativistic_Hash_Table/LibSource/RCUHashTable.cpp:296-303 | An empty table whose bucket count is the least power of two not below the configured one. |
| RTable.Table.Unzip | Relativistic_Hash_Table/LibSource/RCUHashTable.cpp:223-241 | Terminates with every chain unzipped, after as many grace periods as the worst chain has segments, less one. |
| RTable.Table.Expand | Relativistic_Hash_Table/LibSource/RCUHashTable.cpp:243-271 | The new array is published with each bucket on the filter of its old chain; the exact number of grace periods. |
| RTable.Table.ExpandBuckets2x | Relativistic_Hash_Table/LibSource/RCUHashTable.cpp:351-355 | Twice the buckets, the same nodes, filtered chains, exactly one grace period plus the largest number of segment changes. |
| RTable.Table.ShrinkBuckets2x | Relativistic_Hash_Table/LibSource/RCUHashTable.cpp:362-371 | Half the buckets, the same nodes, joined chains and one grace period; false exactly for a single bucket. |
| RTable.Table.InsertNoExpand | Relativistic_Hash_Table/LibSource/RCUHashTable.cpp:325-334 | Prepends without a duplicate check. |
| RTable.Table.TryInsertNoExpand | Relativistic_Hash_Table/LibSource/include/RCUHashTableCoreApi.h:83-101 | Fails exactly on an equivalent member of the bucket, and of the whole table when the equivalence respects the hash; the set of nodes grows by the entry. A linked entry may be passed too: the table stays sound if and only if it is refused and its new hash value selects the bucket it is in; otherwise no lists stand behind the heads that hold only nodes of their own buckets. |
| RTable.Table.ValidIsSound | Relativistic_Hash_Table/LibSource/include/RCUHashTableCoreApi.h:83-101 | A valid table is sound in the sense of the row above. |
| RTable.InsertMoved | Relativistic_Hash_Table/LibSource/include/RCUHashTableCoreApi.h:83-101 | Such a call: a linked entry passed again with a hash value of another, empty bucket is linked there as well, and no table is left. |
| RTable.Table.Find | Relativistic_Hash_Table/LibSource/include/RCUHashTableCoreApi.h:126-139 | Null exactly when no node of the bucket satisfies the predicate, and of the whole table when the predicate implies the hash. |
| RTable.Table.TryDetachNoShrink | Relativistic_Hash_Table/LibSource/include/RCUHashTableCoreApi.h:39-52 | Removes exactly the first match of its bucket from the set of nodes; the removed node keeps its link; `size` does not change. |
| RTable.Table.ExpandIfNecessary | Relativistic_Hash_Table/LibSource/RCUHashTable.cpp:385-393 | Expands exactly when the count exceeds the expand factor times the buckets, and otherwise leaves heads, chains and grace periods alone. |
| RTable.Table.ShrinkIfNecessary | Relativistic_Hash_Table/LibSource/RCUHashTable.cpp:395-404 | Shrinks exactly when the count is below the shrink factor times the buckets and above 128 and there are two buckets or more, and otherwise leaves everything alone. |
| RTable.Table.TryInsert | Relativistic_Hash_Table/LibSource/include/RCUHashTableCoreApi.h:144-159 | Insertion as above (a linked entry is one that will be refused). Twice the buckets, with split chains and their grace periods, exactly when the new `size` exceeds the expand factor times the buckets; otherwise the same heads, no grace period, and only the one chain longer. Keeps the load bound. |
| RTable.Table.TryDetachAutoShrink | Relativistic_Hash_Table/LibSource/include/RCUHashTableCoreApi.h:56-81 | Detach as above. Half the buckets, with joined chains, exactly when `size` is below the shrink factor times the buckets and above 128 and there are two buckets or more; otherwise the same heads and no grace period. The flag is true exactly when a grace period has run since the node was unlinked. Keeps the load bound. |
| RTable.Table.TryDetachAndSynchronize | Relativistic_Hash_Table/LibSource/include/RCUHashTableCoreApi.h:165-177 | When it returns a node, exactly one grace period has run, and it began after the node was unlinked, whoever ran it; otherwise none has. The chains lose the first match, and are joined exactly under the conditions of the row above. |
| Load.LoadAfterInsert | Relativistic_Hash_Table/LibSource/RCUHashTable.cpp:391-392 | With an expand threshold of at least one node and twice the shrink factor at most the expand factor, an insertion ends within the expand threshold. |
| Load.LoadAfterShrink | Relativistic_Hash_Table/LibSource/RCUHashTable.cpp:401-402 | Under the same conditions a shrink never leaves the table above its expand threshold. |
| RTable.Table.SizeIsLinkedIff | Relativistic_Hash_Table/LibSource/include/RCUHashTableCoreApi.h:39-52 | `size` is the number of linked nodes plus the number of successful detaches, so it is the number of linked nodes if and only if nothing has been detached. |
| Load.LoadExact | Relativistic_Hash_Table/LibSource/include/RCUHashTableCoreApi.h:39-101 | In every run of insertions and detaches `size` ends up above the number of linked nodes by exactly the detaches of the run. |
| Load.LoadAlways | Relativistic_Hash_Table/LibSource/RCUHashTable.cpp:385-404 | Every run of insertions and auto-shrinking detaches keeps linked nodes <= `size` <= expand factor times buckets, and a power-of-two bucket count. |
| Dictionary.StepRefines | Relativistic_Hash_Table/LibSource/include/RCUHashTableCoreApi.h:39-159 | Whatever satisfies the contract of an operation (`Dictionary.Does`, which `TableRuns` proves of the methods) acts on the linked nodes as on a plain map from keys to nodes, with the same answer. |
| Dictionary.RunRefines | Relativistic_Hash_Table/LibSource/include/RCUHashTableCoreApi.h:39-159 | Any run of such operations, with resizes among them, gives exactly the answers of that map. |
| TableRuns.Insert | Relativistic_Hash_Table/LibSource/include/RCUHashTableCoreApi.h:83-101 | `rTableCoreTryInsertNoExpand` on real nodes is the insertion of `Dictionary.Does`, with keys as the equivalence. |
| TableRuns.Detach | Relativistic_Hash_Table/LibSource/include/RCUHashTableCoreApi.h:39-52 | `rTableCoreTryDetachNoShrink` is its detach. |
| TableRuns.Find | Relativistic_Hash_Table/LibSource/include/RCUHashTableCoreApi.h:126-139 | `rTableCoreFind` is its find. |
| TableRuns.Expand | Relativistic_Hash_Table/LibSource/RCUHashTable.cpp:351-355 | `rTableCoreExpandBuckets2x` is its expansion. |
| TableRuns.Shrink | Relativistic_Hash_Table/LibSource/RCUHashTable.cpp:362-371 | `rTableCoreShrinkBuckets2x` is its shrink. |
| TableRuns.InsertAuto | Relativistic_Hash_Table/LibSource/include/RCUHashTableCoreApi.h:144-159 | `rTableCoreTryInsert` is its insertion, followed by nothing or by its expansion. |
| TableRuns.DetachAuto | Relativistic_Hash_Table/LibSource/include/RCUHashTableCoreApi.h:56-81 | `rTableCoreTryDetachAutoShrink` is its detach, followed by nothing or by its shrink. |
| TableRuns.Remove | Relativistic_Hash_Table/LibSource/include/RCUHashTableCoreApi.h:165-177 | So is `rTableCoreTryDetachAndSynchronize`. |
| TableRuns.EmptyHolds | Relativistic_Hash_Table/LibSource/RCUHashTable.cpp:296-303 | A table without nodes holds the empty dictionary, so programs can start on a new one. |
| TableRuns.Perform | Relativistic_Hash_Table/LibSource/include/RCUHashTableCoreApi.h:39-177 | Any one call of the interface answers as the dictionary does, and leaves the table holding what the dictionary then holds. |
| TableRuns.PerformAll | Relativistic_Hash_Table/LibSource/include/RCUHashTableCoreApi.h:39-177 | Any program of calls, run on a real table of real nodes, gives exactly the sequence of answers of the dictionary, and leaves the table holding exactly the entries of the dictionary. |
| ListReaders.TraversalMeetsAll | Relativistic_Hash_Table/LibSource/include/RcuDoublyLinkedListApi.h:79-117 | In every run with one writer, a forward or reverse reader that reaches the end has met every element that was linked all the while exactly once, in list (or reverse) order. |
| ListReaders.ReaderNeverStuck | Relativistic_Hash_Table/LibSource/include/RcuDoublyLinkedListApi.h:79-117 | In every reachable state a reader has a next step of its own: an idle one can begin, one on an element can go on, one at the end can leave. |
| ListReaders.DirectionsAgree | Relativistic_Hash_Table/LibSource/include/RcuDoublyLinkedListApi.h:30-42 | Between two writer operations the `prev` links run through exactly the reverse of the `next` links. |
| ListReaders.AheadIsRecent | Relativistic_Hash_Table/LibSource/include/RcuDoublyLinkedListApi.h:38-42 | Nothing a reader still has ahead of it was unlinked before the reader began. |
| ListOperations.InitExists | Relativistic_Hash_Table/LibSource/include/RcuDoublyLinkedListApi.h:9-14 | A list can start out with any elements at hand and any numbers of forward and reverse readers. |
| ListOperations.OperationFinishes | Relativistic_Hash_Table/LibSource/include/RcuDoublyLinkedListApi.h:30-42 | The writer is never stuck and never waits for a reader: from every reachable state at most three stores of its own end the operation under way, with the two directions mirroring each other. |
| ListOperations.InsertAfterHappens | Relativistic_Hash_Table/LibSource/include/RcuDoublyLinkedListApi.h:47-50 | Between two operations any element outside the list that no reader under way can still be on can be inserted behind the head or any element, in four stores, whoever is reading. |
| ListOperations.InsertBeforeHappens | Relativistic_Hash_Table/LibSource/include/RcuDoublyLinkedListApi.h:52-55 | The same in front of the head or any element. |
| ListOperations.RemoveHappens | Relativistic_Hash_Table/LibSource/include/RcuDoublyLinkedListApi.h:67-71 | Any element can be removed in two stores, whoever is reading it. |
| ListMachine.StepInv | Relativistic_Hash_Table/LibSource/include/RcuDoublyLinkedListApi.h:30-71 | Every store of every operation, and every reader step, keeps the invariant of both directions. |
| ListDirection.LinkInOk | Relativistic_Hash_Table/LibSource/include/RcuDoublyLinkedListApi.h:34 | The linking store puts the element into the list at its place and into every walk that passes there, and takes nothing off any walk. |
| ListDirection.UnlinkOk | Relativistic_Hash_Table/LibSource/include/RcuDoublyLinkedListApi.h:40 | The unlinking store takes exactly the one element out of the list and out of every walk that passes its predecessor. |
| ListDirection.PrepareOk | Relativistic_Hash_Table/LibSource/include/RcuDoublyLinkedListApi.h:32 | Preparing an element that no reader can be on changes neither the list nor what any reader has ahead of it. |
| DList.DNode.constructor | Relativistic_Hash_Table/LibSource/include/RcuDoublyLinkedListApi.h:9-14 | A fresh head is an empty list. |
| DList.Empty | Relativistic_Hash_Table/LibSource/include/RcuDoublyLinkedListApi.h:23-26 | True exactly for the empty list. |
| DList.AddBetween | Relativistic_Hash_Table/LibSource/include/RcuDoublyLinkedListApi.h:30-36 | Inserts between two neighbours; the ring stays well formed both ways. |
| DList.RemoveBetween | Relativistic_Hash_Table/LibSource/include/RcuDoublyLinkedListApi.h:38-42 | Removes between two neighbours; the removed element keeps both its links. |
| DList.InsertAfter | Relativistic_Hash_Table/LibSource/include/RcuDoublyLinkedListApi.h:47-50 | Inserts behind any position. |
| DList.InsertBefore | Relativistic_Hash_Table/LibSource/include/RcuDoublyLinkedListApi.h:52-55 | Inserts in front of any position. |
| DList.Append | Relativistic_Hash_Table/LibSource/include/RcuDoublyLinkedListApi.h:57-60 | Inserts at the end. |
| DList.Prepend | Relativistic_Hash_Table/LibSource/include/RcuDoublyLinkedListApi.h:62-65 | Inserts at the front. |
| DList.Remove | Relativistic_Hash_Table/LibSource/include/RcuDoublyLinkedListApi.h:67-71 | Removes the element from wherever it is. |
| DList.ReadForward | Relativistic_Hash_Table/LibSource/include/RcuDoublyLinkedListApi.h:79-94 | A forward pass meets the elements in list order. |
| DList.ReadBackward | Relativistic_Hash_Table/LibSource/include/RcuDoublyLinkedListApi.h:102-117 | A reverse pass meets them in exactly the reverse order. |
| DList.SafeIter.RemoveIt | Relativistic_Hash_Table/LibSource/include/RcuDoublyLinkedListApi.h:162-165 | Removes the current element; the iterator can still advance. |
| DList.SafeRIter.RemoveIt | Relativistic_Hash_Table/LibSource/include/RcuDoublyLinkedListApi.h:201-204 | The same for the reverse iterator. |
| DList.EraseForward | Relativistic_Hash_Table/TestsAndExamples/RCUTableTests.cpp:83-91 | A whole safe forward pass that removes any chosen elements leaves a well-formed ring of the others in their order. |
| DList.EraseBackward | Relativistic_Hash_Table/TestsAndExamples/RCUTableTests.cpp:124-132 | The same for the safe reverse pass. |

## Left out

- C++ memory orders: every atomic access is one step of a sequentially consistent interleaving.
- Wrap-around of the 64-bit epoch and of the `int` counters: both are unbounded here.
- Placement new, `YJ_CONTAINER_OF`, alignment, destructors and freeing: a node is an object with `hash` and `next`, and freeing an array is the moment after which no reader may hold it.
- Floating-point rounding in the two load tests: real numbers are used.
- The stores of `initTwinDstBuckets`, one per new head, are separate steps of the table machine, but the walk that finds their targets is one step: it reads links only the writer changes.
- The two stores of `unzipOneSegment` are one step of the table machine: the first goes to an old head, which no reader can hold by then (`Reclaim.OldArrayIsDead`). The store into a node being inserted and the load of its bucket head are one step for the same kind of reason.
- The predicate object of a lookup: in the machine it is a set of nodes together with the hash value.
- RTable.Table.Synchronize: in the sequential table a grace period is a counter; what it waits for is proved in the zone and in the machine.
- EpochZone.DrainBounded: the wait ends if every thread is scheduled and leaves its critical section; fairness itself is not modelled, only that nothing else can hold the writer up.
- ListReaders.TraversalMeetsAll: says what a traversal has met when it ends, not that it ends; a writer that keeps appending can keep a reader going.
- RTable.Table.TryInsert: a linked entry may be passed only when an equivalent node of the selected bucket makes the call refuse it. Inserted once more it would leave lists that run in circles or into each other (`RTable.Table.TryInsertNoExpand`), and what an expansion does on those is not modelled.
- `rTableInit` and `rcuInitZone` choose sizes from the number of hardware threads; sizes are parameters here.
- The forwarding `RTable` wrappers, `rTableTryDetachNoShrink` (which calls a name that does not exist), the declared-only `rTableInsertNoExpand` and `rTableCoreInit`, `rcuDlistRest`, printing, timers, benchmarks and tests: nothing in them is more than a call of what is modelled.
