# A verified model of the persistent containers and filters

This project models four parts of the repository in Dafny and proves what they are for.

- **The transactional hash map** (`src/map/hashmap_tx.c`) on persistent memory. The heap is a map from cells
  to words together with the allocated objects; every operation is a method on a `Pool` that reads and stores
  single cells inside undo-log transactions. Proved: every operation is atomic at every crash point, the
  table refines a finite map over whole runs, nothing is leaked, and the bucket count stays regular; and the
  modulus of its hash function is prime, so that keys only collide early when their sums wrap.
- **The persistent ring queue** (`src/queue/queue.c`) on the same memory, with counters that wrap at 2^64.
  Proved: it refines a bounded FIFO for exactly as long as no enqueue meets a live slot, which the wrap-around
  can bring about, and over whole runs it owns exactly its live entries and leaves all else alone.
- **The cuckoo filter** (`src/dual_domain/filter`), with its bytes in an array that is updated in place.
  Proved: the placement of fingerprints over every run and the soundness of lookups; exactly when an inserted
  key is found, an earlier one survives and a deleted one is gone, with runs in which each of these fails;
  and the exact size of the table.
- **The hashes** (`src/dual_domain/hashing`): the eight FNV loops and the 64-bit finalizer. Proved: the
  shift-and-add form is the multiplication by the prime, the functions are bijections of the state, no octet
  is overlooked, FNV-1 and FNV-1a are conjugate, the initial values are the hashes of the FNV signature, and
  the finalizer has an inverse and its digits are those that its shifts say.

## How it is built

| file | contents |
|---|---|
| `Pmem.dfy` | heaps, undo logs, recovery, and the class `Pool` with the primitives of transactions |
| `HashmapLayout.dfy` | objects and cells of the hash map, its invariant `Wf`, and the map `Contents` it stands for |
| `HashmapSteps.dfy`, `HashmapRelink.dfy` | what linking, unlinking and relinking do to a table, stated on heaps |
| `HashmapTx.dfy`, `HashmapForeach.dfy`, `HashmapCreate.dfy` | the operations, store by store |
| `HashmapRuns.dfy` | whole runs with failures and crashes |
| `HashLaws.dfy`, `PrimeModulus.dfy` | what the hash function of the table does to keys, and that its modulus is prime |
| `RingArithmetic.dfy`, `PersistentQueue.dfy`, `QueueRuns.dfy` | the queue: slots modulo the capacity, the operations, whole runs |
| `Bits.dfy` | unsigned words as natural numbers: shifts, masks, exclusive or |
| `Fnv.dfy`, `HashFp.dfy`, `KnownValues.dfy` | the hash functions, and values that pin their constants |
| `FilterSizing.dfy`, `CuckooTable.dfy`, `CuckooHash.dfy`, `CuckooPlacement.dfy`, `CuckooOutcomes.dfy`, `CuckooFilter.dfy` | the filter: its size, its bytes as functions, its hash functions, the placement invariant, which keys get lost, the operations in place |

**Transactions.** The contract of the library is the one its headers give. A snapshot adds (cell, old value)
records to the log; allocation may fail, and otherwise gives an object with as many words as its bytes have
room for; a free takes effect at commit; commit and abort happen at once. Any primitive may fail, `TX_BEGIN`
included, and then the transaction can only abort: the flag `refused` records that, as errno does, so a
contract such as "-1 only if `refused`" says that nothing else makes an operation fail.
`Pool.images` is the history of everything the medium has held, with one entry for each primitive, and
`Recover` rolls the log of such an image back and drops the objects born in the open transaction.
`Recovers` and `Atomic` speak of every entry of that history, so they speak of every crash point, the gap
between the two transactions of an insertion included. Stores that reach the medium early, late or in part
make no difference as long as their cells are covered (`Pmem.RecoverIgnoresCovered`, `Pmem.StoreUndone`).

**Nested creation.** `hm_tx_create` runs `create_hashmap` in a nested transaction whose abort handler calls
`abort()`. The nested transaction is flattened into the outer one, and its failure is the death of the process
followed by the next opening of the pool.

**Out of bounds.** A method that returns `wild` as true stopped where the code would go on to memory outside of
the object it allocated. Nothing is claimed about what happens then; the contracts say exactly when it does.

**What is arbitrary.** The coefficients of the hash function of a table are parameters, and a callback returns
any function of its arguments and of all calls before. In the cuckoo filter a `Chance` value holds the
outcomes of `rand`, of `rand_bool` and of the test `cf->buckets[idx] != NULL`
(`src/dual_domain/filter/cuckoo_filter.c:104`), which reads fingerprints as pointers. The placement proofs
hold for any outcome of that test. `CuckooOutcomes.Genuine` is an insertion in which it comes out as the bytes
have it, and the runs in which keys get lost are of that kind. The index before the
mask is `hash >> 32` on a 32-bit word (`src/dual_domain/filter/util.h:33`), which C does not define, so it is
an unknown function `raw` of the key; the same holds for the masks of 31 bits and more
(`src/dual_domain/filter/util.h:19`), which no table uses.

## Where the code and its promises differ

The model follows the code. Each of these is stated with the exact condition under which the promise holds.

- When a ring capacity does not divide 2^64 and `back` has wrapped around, the next slot can be a live one.
  `RingArithmetic.CollidesIffUnsafe` gives the condition, `PersistentQueue.Enqueue` shows that the queue
  survives exactly when it does not hold, `QueueRuns.Run` that runs are FIFO runs exactly until it does, and
  `PersistentQueue.BrinkBreaks` is a queue of three slots that the next enqueue breaks, a state that
  `QueueRuns.BrinkReached` comes to from a new queue.
- `bucket_insert` answers 0 when it stored, and `cf_insert_internal` takes a nonzero answer for success. So an
  insertion may store nothing: `CuckooOutcomes.InsertThenFound` says exactly when, in terms of the bytes
  before the call, for every draw of `rand` (`CuckooOutcomes.SomeGenuine`), and `CuckooOutcomes.InsertionLost` is a run after which an insertion is lost although it
  returns 0.
- `cf_reinsert` overwrites a fingerprint instead of swapping it. So an earlier key may vanish:
  `CuckooOutcomes.SlotSurvives` and `CuckooOutcomes.EarlierKeySurvives` say, in terms of the bytes before the
  call, exactly when a byte and a key with a single copy survive whatever `rand` gives,
  `CuckooOutcomes.EarlierKeyFound` exactly when a key survives a given draw, and
  `CuckooOutcomes.EarlierKeyLost` is a run in which a key that was never deleted gets lost.
- `cf_delete_internal` reads the answer of `bucket_delete` the same way, so `cf_delete` only goes on to the
  second bucket after it removed a copy from the first. `CuckooTable.DeleteThenLookup` says exactly when a
  deleted key is gone, and `CuckooOutcomes.DeletionLeaves` is a run after which it is not.
- The byte size of a bucket array wraps at 2^64, so an explicit rebuild to 2^60 buckets allocates 8 bytes.
  `HashmapTx.Rebuild` says for every length whether a rebuild that commits leaves a table and whether the code
  stays within the new array, which `HashmapTx.UnfitStrays` shows it does not for a table with any key;
  `PersistentQueue.New` does the same for the capacity of a queue, with `PersistentQueue.UnfitExample`.
- The hash function of the table reduces modulo a prime, but its sum wraps at 2^64 first. Distinct keys below
  the prime collide before the final reduction exactly as `HashLaws.EarlyCollision` says: never when their sums
  wrap equally often (`HashLaws.NoEarlyCollision`), and sometimes otherwise (`HashLaws.CollisionAcrossWrap`).
- A nonzero return of the callback of `hm_tx_foreach` ends the walk along one bucket only, and the comment
  that calls the function a printer does not fit it. `HashmapForeach.ForEach` says what it does.

## Model

| member | source | states |
|---|---|---|
| Pmem.ReplayIgnoresLogged | include/libpmemobj/tx_base.h:194-206 | rolling back restores the snapshotted cells whatever they hold by then |
| Pmem.RecoverIgnoresCovered | include/libpmemobj/tx_base.h:194-206 | changes to snapshotted cells and new objects, torn or partial, leave no trace after recovery |
| Pmem.StoreUndone | include/libpmemobj/tx_base.h:208-220 | a store is undone by recovery if and only if its cell was snapshotted or belongs to an object of the transaction |
| Pmem.RecoverAfterSnapshots | include/libpmemobj/tx_base.h:194-206 | further snapshots, even of cells already logged, do not change what recovery gives |
| Pmem.RecoverAfterAlloc | include/libpmemobj/tx_base.h:245-253 | an object allocated by an unfinished transaction is gone after recovery |
| Pmem.Pool.AddRange | include/libpmemobj/tx_base.h:194-206 | on success all words of the range are in the log, on failure nothing changes; recovery gives the same heap either way |
| Pmem.Pool.Alloc | include/libpmemobj/tx_base.h:270-278 | on success a new object with the words that its bytes have room for, zeroed if asked for and within the size limit; on failure null and no change |
| Pmem.Pool.Free | include/libpmemobj/tx_base.h:352-360 | the object stays until commit; it can be freed once only |
| Pmem.Pool.Commit | include/libpmemobj/tx.h:79-91 | the writes stay and the frees happen; every crash point of the transaction leads to the heap before or after it |
| Pmem.Pool.Abort | include/libpmemobj/tx.h:64-67 | the heap is the one before the transaction, at every crash point too |
| HashmapLayout.Hash | src/map/hashmap_tx.c:46-52 | the index is below the length, for all coefficients and keys, with the sum wrapping at 64 bits |
| HashLaws.HashReduces | src/map/hashmap_tx.c:51 | the index in a table is the index before the final reduction, reduced to the length |
| HashLaws.HashOfZero | src/map/hashmap_tx.c:51 | key 0 goes to the second coefficient modulo p |
| HashLaws.HashNext | src/map/hashmap_tx.c:51 | the next key goes on by the first coefficient modulo p, while the sum does not wrap |
| HashLaws.HashWraps | src/map/hashmap_tx.c:51 | only the value of the sum modulo 2^64 matters, for any coefficients and keys |
| HashLaws.EarlyCollision | src/map/hashmap_tx.c:51 | exactly when two keys collide before the final reduction |
| HashLaws.NoEarlyCollision | src/map/hashmap_internal.h:7-8 | distinct keys below p never do when their sums wrap equally often, for every first coefficient between 0 and p |
| HashLaws.CollisionAcrossWrap | src/map/hashmap_tx.c:51 | two keys below p that do because one sum wraps |
| PrimeModulus.ModulusPrime | src/map/hashmap_internal.h:7-8 | the coefficient p is a prime number |
| PrimeModulus.LargeOrder | src/map/hashmap_internal.h:7-8 | modulo any divisor of p, the order of 2 is a multiple of both large factors of p - 1 |
| PrimeModulus.OrderBelow | src/map/hashmap_internal.h:7-8 | an order is below its modulus, as powers below it are distinct and not zero |
| PrimeModulus.PrimeDivides | src/map/hashmap_internal.h:7-8 | a prime divides a product only if it divides a factor |
| HashmapLayout.RoomOfBytes | src/map/hashmap_tx.c:65-66 | the array that a request for n buckets allocates has room for n modulo 2^60 |
| HashmapTx.RoomIffFits | src/map/hashmap_tx.c:65-66 | of the lengths that can be allocated, exactly the safe ones get room for all their buckets |
| HashmapLayout.UnfitExample | src/map/hashmap_tx.c:65-66 | 2^60 buckets ask for 8 bytes |
| HashmapLayout.ShapeUnique | src/map/hashmap_tx.h:21-39 | a heap determines the chains of its table, so the map it stands for is well defined |
| HashmapSteps.LinkedInYields | src/map/hashmap_tx.c:125-135 | linking a new entry adds exactly its pair, keeps the invariant and touches nothing else in the pool |
| HashmapSteps.TakenOutYields | src/map/hashmap_tx.c:178-189 | unlinking and freeing an entry removes exactly its pair, keeps the invariant and touches nothing else |
| HashmapSteps.PairsSize | src/map/hashmap_tx.c:300-302 | the number of entries on the chains is the size of the map |
| HashmapSteps.KeyAbsent | src/map/hashmap_tx.c:115-121 | a key that is not on the chain of its own bucket is nowhere in the table |
| HashmapRelink.MoveFirstStep | src/map/hashmap_tx.c:75-86 | one round of the inner loop of the rebuild moves one entry to the new chain its key hashes to, and all chains stay acyclic and disjoint |
| HashmapRelink.SwingYields | src/map/hashmap_tx.c:88-89 | when all old chains are empty, leading the header to the new array gives the same map, count and hash function in the new size, and leaks nothing |
| HashmapRelink.SwingUnfit | src/map/hashmap_tx.c:88-89 | with less room than buckets it leaves no table |
| HashmapRelink.NoStray | src/map/hashmap_tx.c:74-87 | entries that all found a place in the new array belong in buckets there is room for |
| HashmapTx.MoveEntry | src/map/hashmap_tx.c:75-86 | the round in place: each store is to a covered cell, so recovery at any point gives the heap from before the rebuild |
| HashmapTx.MoveBucket | src/map/hashmap_tx.c:75-86 | the inner loop terminates with the old bucket empty and all others as they were |
| HashmapTx.MoveAll | src/map/hashmap_tx.c:74-87 | the nested loops terminate with all entries on new chains |
| HashmapTx.Rebuild | src/map/hashmap_tx.c:57-99 | for every length: the table is unchanged if a primitive failed; else a committed rebuild leaves a table exactly for a safe length, with the same map and the asked number of buckets, or as many as before for 0; the code leaves the new array exactly when some key belongs in a bucket there is no room for; nothing else at any crash point |
| HashmapTx.UnfitStrays | src/map/hashmap_tx.c:65-86 | with 2^60 buckets asked for, every key of the table belongs in a bucket there is no room for |
| HashmapTx.Search | src/map/hashmap_tx.c:115-121 | the entry of the key is found exactly if the map has it, with its predecessor and its value |
| HashmapTx.Get | src/map/hashmap_tx.c:268-279 | the value of the key in the map, or null |
| HashmapTx.Lookup | src/map/hashmap_tx.c:284-295 | 1 exactly if the map has the key, else 0 |
| HashmapTx.Count | src/map/hashmap_tx.c:300-302 | the size of the map |
| HashmapTx.Insert | src/map/hashmap_tx.c:108-154 | 1 exactly if the key exists, -1 only if a primitive failed, both with nothing changed; 0 with exactly one pair added; with nothing failed, a chain of up to 5 entries leaves the buckets as many as they were, one of 11 or more doubles them, and one in between does exactly with more than two pairs for each; before or after at every crash point |
| HashmapTx.Remove | src/map/hashmap_tx.c:162-206 | the stored value with exactly that pair gone; with nothing failed, the buckets are halved, rounding down, exactly with fewer pairs than buckets and more than one of them; or null with nothing changed, and then the key was absent or a primitive failed; before or after at every crash point |
| HashmapSteps.GrowthFollows | src/map/hashmap_tx.c:148-151 | the growth rule, in the numbers of the header, on the heaps before and after |
| HashmapSteps.ShrinkFollows | src/map/hashmap_tx.c:202-203 | the halving rule on the heaps before and after |
| HashmapTx.AtomicTwice | src/map/hashmap_tx.c:124-151 | two atomic transactions of which the second keeps the map make one atomic operation, the gap between them included |
| HashmapForeach.ForEach | src/map/hashmap_tx.c:211-228 | for a callback that may remember all earlier calls: the calls are those for one bucket after the other, along each up to the first nonzero return; no pair is visited twice, all are with a callback that returns 0, the first pair of every bucket always is, and the result is that of the last call |
| HashmapForeach.VisitBucket | src/map/hashmap_tx.c:220-224 | the walk along a bucket is a prefix of its chain that ends with the first nonzero return, or the whole chain |
| HashmapForeach.WalkedCalls | src/map/hashmap_tx.c:220-224 | such a prefix is unique: it is what the recursion over the chain gives |
| HashmapForeach.ProgressOnce | src/map/hashmap_tx.c:216-225 | distinct entries have distinct keys, so the calls are distinct pairs of the map |
| HashmapCreate.Create | src/map/hashmap_tx.c:315-329 | an empty map in ten buckets with the given coefficients, its handle in the slot and nothing else changed; or the old heap, exactly if a primitive failed |
| HashmapCreate.FreshTableNew | src/map/hashmap_tx.c:16-40 | the stores of the two initializers make a table for the empty map |
| HashmapRuns.Run | src/map/hashmap_tx.c:108-355 | any sequence of insert, remove, get, lookup, count and rebuild, with failures and power failures anywhere, is a run of a finite map in which a call only fails when a primitive does, up to the first rebuild to a length that is not safe |
| HashmapRuns.DoUnfit | src/map/hashmap_tx.c:57-99 | such a rebuild fails and changes nothing, leaves no table, or goes out of bounds, the last exactly when some key belongs in a bucket there is no room for |
| HashmapRuns.CreateAndRun | src/map/hashmap_tx.c:315-355 | the same from the creation of the table on, starting from the empty map and, but for the handle, the pool as it was |
| HashmapRuns.InsertLasts | src/map/hashmap_tx.c:124-153 | an acknowledged insertion outlives all later failures, rebuilds and crashes until the key is removed |
| HashmapRuns.RemoveLasts | src/map/hashmap_tx.c:177-205 | an acknowledged removal lasts until the key is inserted again |
| HashmapRuns.OthersLast | src/map/hashmap_tx.c:108-206 | what the map says about a key changes by insertions and removals of that key only |
| HashmapRuns.RunKeeps | src/map/hashmap_tx.c:108-206 | over a run nothing outside the table changes, is leaked or is lost, and the hash function stays |
| HashmapRuns.RunSizes | src/map/hashmap_tx.c:59-60 | without explicit lengths the number of buckets is 2^k or 5*2^k and never 0 |
| HashmapRuns.RegularHalf | src/map/hashmap_tx.c:202-203 | halving keeps the form; a single bucket stays one |
| RingArithmetic.CollidesIffUnsafe | src/queue/queue.c:35 | the slot of the next entry is a live one exactly if the counter has wrapped and 2^64 modulo the capacity lies between `back` and the size |
| RingArithmetic.DivisorIsSafe | src/queue/queue.c:35 | that never happens when the capacity divides 2^64 |
| RingArithmetic.UnwrappedIsSafe | src/queue/queue.c:35 | nor before the counter wraps |
| RingArithmetic.UnsafeExample | src/queue/queue.c:35 | it does happen in a ring of three slots |
| PersistentQueue.BrinkBreaks | src/queue/queue.c:31-48 | a queue of three slots, with all its cells, that the next successful enqueue breaks |
| PersistentQueue.BrinkExists | src/queue/queue.h:19-24 | such a heap exists |
| QueueRuns.BrinkReached | src/queue/queue.c:31-64 | 2^64-1 enqueues and dequeues and one more enqueue lead from a new queue of three slots to an enqueue that breaks it |
| PersistentQueue.QueueSize | src/queue/queue.c:27-29 | the number of values in the queue |
| PersistentQueue.Enqueue | src/queue/queue.c:31-48 | -1 exactly without a queue, when full or when a primitive failed; else one entry object more is in use and no cell outside the queue changes, and exactly if the next slot is safe the queue has the value and the entry appended and the rest of the pool is the same; atomic at every crash point |
| PersistentQueue.Dequeue | src/queue/queue.c:50-64 | -1 exactly without a queue, when empty or when a primitive failed; else the oldest value and its object are gone and the rest of the pool is the same; atomic at every crash point |
| PersistentQueue.AppendedSafe | src/queue/queue.c:37-43 | a safe enqueue keeps the invariant, the values, the entries and the rest of the pool, and appends the new value and entry |
| PersistentQueue.AppendedUnsafe | src/queue/queue.c:37-43 | an unsafe one leaves two live slots with one entry, so the queue is broken |
| PersistentQueue.DroppedWf | src/queue/queue.c:56-59 | dropping the oldest keeps the invariant although its slot still holds the stale handle |
| PersistentQueue.New | src/queue/queue.c:16-25 | for every capacity: nothing, or a new object with its handle in the cell or variable of the caller, which is an empty queue exactly for a safe capacity, with the rest of the pool as it was; the constructor leaves the object exactly when it is too small for the counters; atomic at every crash point |
| PersistentQueue.UnfitExample | src/queue/queue.c:17-24 | a capacity of 2^60-1 asks for 8 bytes, and one of 2^60 gets the counters and no slot |
| PersistentQueue.RoomIffFits | src/queue/queue.c:17-24 | of the capacities that can be allocated, exactly the safe ones get an object with room for all their slots |
| QueueRuns.Run | src/queue/queue.c:31-64 | any sequence of calls with failures and power failures anywhere is a run of a bounded FIFO exactly up to the first enqueue that meets a live slot: always to the end when the capacity divides 2^64 or the counters do not wrap; the rest of the pool is the same after it, and entry objects and values change by the same number |
| QueueRuns.DoBreaking | src/queue/queue.c:31-48 | that enqueue breaks the queue exactly if it takes effect |
| QueueRuns.ReadyLasts | src/queue/queue.c:35 | with a capacity that divides 2^64, or fewer enqueues than the counters can count, no call of a run meets a live slot |
| QueueRuns.NewIsReady | src/queue/queue.c:5-14 | for a new queue that covers every run, or every run with fewer than 2^64 enqueues |
| QueueRuns.FirstInFirstOut | src/queue/queue.c:31-64 | after a run the queue holds all values ever added, in order, less the oldest ones that were dropped, and no more than its capacity |
| QueueRuns.Acknowledged | src/queue/queue.c:36-47 | a call that no power failure cut short took effect exactly if it returned 0, which it does unless the queue is full or empty or a primitive failed |
| QueueRuns.Ownership | src/queue/queue.c:37-62 | over a whole run each call takes one new entry, frees the oldest or does neither; the live entries stay distinct and as many as the values, and the rest of the pool never changes |
| QueueRuns.RunConserves | src/queue/queue.c:31-64 | between the heaps at the ends of any run nothing outside the queue changes, is leaked or is lost |
| QueueRuns.OwningAtStart | src/queue/queue.c:37-62 | the live entries of a queue are as many as its values, distinct, and none of the rest |
| QueueRuns.EntriesConserved | src/queue/queue.c:37-62 | between any two such states the number of entry objects in the pool changes as the number of values does, so none is leaked or freed twice |
| QueueRuns.PoolObjects | src/queue/queue.c:37-62 | the objects of the pool are those of the rest, the queue and one entry for each value |
| Fnv.FoldConcat | src/dual_domain/hashing/fnv.c:94-105 | hashing a concatenation is hashing the parts one after the other, for any step |
| Fnv.FoldBijective | src/dual_domain/hashing/fnv.c:94-105 | a step that can be undone makes a loop that can be undone |
| Fnv.FoldConjugate | src/dual_domain/hashing/fnv.c:177-188 | steps that a function carries into each other make loops that it does |
| Fnv.ShiftAddIsMul32 | src/dual_domain/hashing/fnv.c:96-101 | the 32-bit shifts and additions are the multiplication by the FNV prime modulo 2^32 |
| Fnv.ShiftAddIsMul64 | src/dual_domain/hashing/fnv.c:267-272 | the same modulo 2^64 |
| Fnv.PrimeInverse32 | src/dual_domain/hashing/fnv.c:96-101 | multiplication by the 32-bit prime has an inverse modulo 2^32 |
| Fnv.PrimeInverse64 | src/dual_domain/hashing/fnv.c:267-272 | the same modulo 2^64 |
| Fnv.Fnv32Bijective | src/dual_domain/hashing/fnv.c:85-109 | for every buffer both 32-bit hashes are bijections of the incoming state, by an explicit inverse |
| Fnv.Fnv64Bijective | src/dual_domain/hashing/fnv.c:255-280 | the same at 64 bits |
| Fnv.Fnv32Injective | src/dual_domain/hashing/fnv.c:177-188 | distinct 32-bit states never merge on a common suffix |
| Fnv.Fnv64Injective | src/dual_domain/hashing/fnv.c:349-361 | nor do 64-bit states |
| Fnv.Fnv32Concat | src/dual_domain/hashing/fnv.c:85-109 | hashing a concatenation equals chaining two calls, for both 32-bit functions |
| Fnv.Fnv64Concat | src/dual_domain/hashing/fnv.c:255-280 | the same at 64 bits |
| Fnv.Fnv32Conjugate | src/dual_domain/hashing/fnv.c:168-192 | multiplication by the prime turns FNV-1 into FNV-1a, for every buffer and state |
| Fnv.Fnv64Conjugate | src/dual_domain/hashing/fnv.c:340-365 | the same at 64 bits |
| Fnv.Fnv32LastOctet | src/dual_domain/hashing/fnv.c:104-180 | for both 32-bit functions, two buffers that differ in their last octet only have different hashes |
| Fnv.Fnv64LastOctet | src/dual_domain/hashing/fnv.c:267-361 | the same at 64 bits |
| Fnv.Fnv32LastDigits | src/dual_domain/hashing/fnv.c:103-104 | the last octet of FNV-1 changes a digit exactly where it has a one, which is among the low eight |
| Fnv.Fnv64LastDigits | src/dual_domain/hashing/fnv.c:274-276 | the same at 64 bits |
| KnownValues.Signature32 | src/dual_domain/hashing/fnv.h:74 | the initial value is the 32-bit FNV-1 hash of the FNV signature from state 0, which pins prime and order |
| KnownValues.Signature64 | src/dual_domain/hashing/fnv.h:90 | the same at 64 bits |
| Fnv.Fnv32Buf | src/dual_domain/hashing/fnv.c:85-109 | the shift-and-add loop computes the fold of multiply and xor |
| Fnv.Fnv32Str | src/dual_domain/hashing/fnv.c:128-151 | the string loop is the buffer hash of what comes before the first NUL |
| Fnv.Fnv32aBuf | src/dual_domain/hashing/fnv.c:168-192 | the shift-and-add loop computes the fold of xor and multiply |
| Fnv.Fnv32aStr | src/dual_domain/hashing/fnv.c:208-231 | the string loop is the buffer hash of what comes before the first NUL |
| Fnv.Fnv64Buf | src/dual_domain/hashing/fnv.c:255-280 | as at 32 bits |
| Fnv.Fnv64Str | src/dual_domain/hashing/fnv.c:299-323 | as at 32 bits |
| Fnv.Fnv64aBuf | src/dual_domain/hashing/fnv.c:340-365 | as at 32 bits |
| Fnv.Fnv64aStr | src/dual_domain/hashing/fnv.c:381-405 | as at 32 bits |
| HashFp.MixBijective | src/dual_domain/hashing/hash_funcs.h:72-77 | the finalizer is a bijection of 64-bit words, by an explicit inverse in both directions |
| HashFp.ShiftInverse | src/dual_domain/hashing/hash_funcs.h:73-75 | xor with the word shifted by a third of its width or more can be undone |
| HashFp.XorShiftDigits | src/dual_domain/hashing/hash_funcs.h:73-75 | a shift by k changes a digit exactly where the one k places above it is a one |
| HashFp.XorShiftTop | src/dual_domain/hashing/hash_funcs.h:73-75 | the top k digits are kept |
| HashFp.XorShiftFixed | src/dual_domain/hashing/hash_funcs.h:73-75 | exactly the words of at most k digits stay as they are |
| KnownValues.FinalizerOfOne | src/dual_domain/hashing/hash_funcs.h:72-77 | the value at 1, which pins shifts, factors and their order |
| FilterSizing.NextPow2 | src/dual_domain/filter/cuckoo_filter.c:8-18 | the six smearing steps compute the power of two of the digit count, cut off to 32 bits |
| FilterSizing.SmearedOnes | src/dual_domain/filter/cuckoo_filter.c:10-15 | they fill all digits below the highest one, for every 64-bit word |
| FilterSizing.RoundUpLeast | src/dual_domain/filter/cuckoo_filter.c:8-18 | for 1 to 2^31 the result is the least power of two that is no smaller |
| FilterSizing.RoundUpZero | src/dual_domain/filter/cuckoo_filter.c:8-18 | for 0 and beyond 2^31 it is 0 |
| FilterSizing.TrailingZeros | src/dual_domain/filter/cuckoo_filter.c:20-29 | the number of zeros below the lowest one, or 32 |
| FilterSizing.TableSize | src/dual_domain/filter/cuckoo_filter.c:41-45 | for every 32-bit capacity the bucket count is 2^`bucketPower`; it has room for 1 to 2^31 entries with less than half to spare, and is 1 otherwise |
| CuckooTable.InsertWrites | src/dual_domain/filter/cuckoo_filter.c:111-140 | whatever chance decides, an insertion writes copies of its fingerprint into its two buckets and nothing else, through all kick-out rounds |
| CuckooTable.InsertResult | src/dual_domain/filter/cuckoo_filter.c:111-140 | the result is 1 exactly if no attempt was taken for success and one of the ten rounds met a full bucket that passed the pointer test; `count` goes up then and when an attempt was |
| CuckooTable.InsertThenLookup | src/dual_domain/filter/cuckoo_filter.c:127-140 | for any outcomes of the pointer test, an inserted key is found if and only if its fingerprint was there before or the insertion was not lost to a full bucket |
| CuckooOutcomes.InsertThenFound | src/dual_domain/filter/cuckoo_filter.c:101-140 | with the outcomes that the bytes give, the same in terms of the bytes before the call, whatever `rand` gives |
| CuckooOutcomes.SomeGenuine | src/dual_domain/filter/cuckoo_filter.c:104-140 | for every draw of `rand` and `rand_bool` the bytes give outcomes for all tests of an insertion |
| CuckooTable.ClaimedKeeps | src/dual_domain/filter/cuckoo_filter.c:101-109 | an attempt that is reported as successful stored nothing |
| CuckooOutcomes.SlotSurvives | src/dual_domain/filter/cuckoo_filter.c:111-140 | another fingerprint stays in its slot whatever `rand` gives if and only if the slot is in neither bucket of the inserted key or one of the two attempts is taken for success |
| CuckooOutcomes.EarlierKeySurvives | src/dual_domain/filter/cuckoo_filter.c:111-140 | an earlier key with a single copy is found whatever `rand` gives if and only if that holds of its slot or it has the fingerprint of the inserted key |
| CuckooOutcomes.EarlierKeyFound | src/dual_domain/filter/cuckoo_filter.c:111-140 | for a given draw, an earlier key is found after an insertion if and only if it has the same fingerprint or a copy of it is in a slot that no kick-out round hits |
| CuckooOutcomes.InsertSpares | src/dual_domain/filter/cuckoo_filter.c:111-140 | for a given draw, another fingerprint stays in its slot if and only if no kick-out round hits the slot |
| CuckooOutcomes.EarlierKeySafe | src/dual_domain/filter/cuckoo_filter.c:111-140 | a copy outside the two buckets of the inserted key is safe, whatever chance decides |
| CuckooOutcomes.InsertionLost | src/dual_domain/filter/cuckoo_filter.c:101-140 | a run after which an insertion, of which there is one, returns 0 whatever `rand` gives, and its key is not found |
| CuckooOutcomes.EarlierKeyLost | src/dual_domain/filter/cuckoo_filter.c:111-140 | a run in which a key is inserted, never deleted, found, and not found after one more insertion |
| CuckooOutcomes.DeletionLeaves | src/dual_domain/filter/cuckoo_filter.c:161-171 | a run after which a deletion returns 0 and its key is still found |
| CuckooTable.DeleteThenLookup | src/dual_domain/filter/cuckoo_filter.c:161-171 | how many copies the two buckets may hold for a deleted key to be gone, both ways |
| CuckooTable.DeleteEmpties | src/dual_domain/filter/cuckoo_filter.c:149-171 | a deletion only empties slots of the two buckets |
| CuckooHash.Masked | src/dual_domain/filter/util.h:18-20 | masking keeps an index in bounds and does not change one that is |
| CuckooHash.IndexAndFingerprint | src/dual_domain/filter/util.h:28-36 | the first index is the remainder of the unmasked one by the number of buckets, and the fingerprint is from 1 to 255, for every key |
| CuckooHash.FingerprintFrom | src/dual_domain/filter/util.h:31-32 | the fingerprint is one more than the remainder by 255 of the word that the finalizer makes of the FNV-1a hash of the key |
| CuckooHash.AltInvolution | src/dual_domain/filter/util.h:38-42 | the alternate index is in bounds, and its alternate is the index itself |
| CuckooHash.AltDigits | src/dual_domain/filter/util.h:38-42 | a digit of the alternate index differs exactly where the word of the fingerprint has a one |
| CuckooHash.AltFixed | src/dual_domain/filter/util.h:38-42 | the two buckets are one exactly if the word is a multiple of the number of buckets |
| CuckooHash.AltShared | src/dual_domain/filter/util.h:38-42 | two fingerprints share alternates exactly if their words agree modulo the number of buckets |
| CuckooHash.OctetParity | src/dual_domain/filter/util.h:14-17 | the words that `init` computes are odd exactly for the even fingerprints |
| CuckooHash.OddHasTwo | src/dual_domain/filter/util.h:38-42 | a fingerprint with an odd word has two buckets in every filter of more than one |
| CuckooHash.CodeLawful | src/dual_domain/filter/util.h:28-42 | the hash functions of the code have all that the placement proofs need, whatever the table of alternate hashes holds |
| CuckooPlacement.RunPlaced | src/dual_domain/filter/cuckoo_filter.c:101-171 | after any run of insertions and deletions every nonzero byte is the fingerprint of an inserted key in one of its two buckets |
| CuckooPlacement.RunSound | src/dual_domain/filter/cuckoo_filter.c:89-99 | a key found after any run has the fingerprint and the pair of buckets of an inserted key |
| CuckooPlacement.FoundAlike | src/dual_domain/filter/cuckoo_filter.c:89-99 | one fingerprint in one common bucket already makes two keys indistinguishable |
| CuckooFilter.BucketInsert | src/dual_domain/filter/bucket.c:23-31 | the first empty slot takes the byte and the result is 0, or -1 for a full bucket |
| CuckooFilter.BucketDelete | src/dual_domain/filter/bucket.c:33-41 | the first copy is removed and the result is 0, or -1 without one |
| CuckooFilter.BucketFpIndex | src/dual_domain/filter/bucket.c:43-50 | the first slot that holds the byte, or -1 |
| CuckooFilter.Tables.constructor | src/dual_domain/filter/util.h:13-21 | the alternate hashes are the FNV-1a hashes of single octets and the masks are runs of ones |
| CuckooFilter.Tables.IndexAndFingerprint | src/dual_domain/filter/util.h:28-36 | the computation over the tables is the function with the proved bounds |
| CuckooFilter.Tables.AltIndex | src/dual_domain/filter/util.h:38-42 | the computation over the tables is the proved involution |
| CuckooFilter.Filter.constructor | src/dual_domain/filter/cuckoo_filter.c:35-59 | an empty filter of exactly the proved size, or one without buckets |
| CuckooFilter.Filter.Lookup | src/dual_domain/filter/cuckoo_filter.c:89-99 | 1 exactly if one of the two buckets holds the fingerprint, and only for a key like an inserted one; -1 without buckets |
| CuckooFilter.Filter.InsertInternal | src/dual_domain/filter/cuckoo_filter.c:101-109 | what an attempt does to the bytes, to `count` and as a result |
| CuckooFilter.Filter.Reinsert | src/dual_domain/filter/cuckoo_filter.c:111-125 | the kick-out loop in place is the recursive one, `count` included |
| CuckooFilter.Filter.Insert | src/dual_domain/filter/cuckoo_filter.c:127-140 | bytes, result and `count` as the code gives them, and the placement invariant kept |
| CuckooFilter.Filter.Delete | src/dual_domain/filter/cuckoo_filter.c:161-171 | bytes, result and `count` as the code gives them, and the placement invariant kept |

## Left out

- CuckooOutcomes.EarlierKeySurvives: is for a key with a single copy; how many of several copies the rounds of one insertion can hit is left to `CuckooOutcomes.EarlierKeyFound`, draw by draw.
- HashmapForeach.ForEach: assumes that the callback does not change the table it is called for.
- CuckooOutcomes.EarlierKeyLost: is stated for any two keys with different fingerprints and a filter with one bucket, without computing two such keys.
- HashmapTx.Find: counts the entries of a chain without the 32-bit width of `num`.
- HashmapCreate.Create: takes the two values of `rand` as parameters, so the loop that draws the first one until it is not zero is not modelled.
- CuckooFilter.Tables.constructor: says nothing about masks of 31 bits and more.
- CuckooFilter.Filter.constructor: is the filter that `cf_new` builds; that `cf_new` assigns it to its own parameter, where no caller sees it, is not modelled.
- QueueRuns.Run: after a crash the run goes on from the recovered heap; what a call cut short returned is not part of the run.
- The order in which cache lines are flushed inside the library, locks, and creating and opening pools: the contract of the headers is assumed.
- `hm_tx_debug`, `hm_tx_init`, `hm_tx_check` and the debug command of `hm_tx_cmd`: printing, seeding and type checks.
- `cf_free`, `cf_reset`, `cf_insert_unique`, `bucket_new` and `bucket_free`: allocation plumbing and a wrapper.
- `src/cache/cache.c`: its list ends are never initialised and its entries never reach the map.
- `src/dual_domain/filter/scalable_cuckoo_filter.c`: floating-point load factors around a filter array that never grows.
- The murmur functions, `int2bin`, `src/random/random.h`, `src/hash_ss`, `src/pmem.c` and `src/dual_domain/tfidf`.
