# NativeCollections: concurrent hash set and chunked stream

A Dafny model of two collections from the NativeCollections library, with
proofs of what each of their operations promises.

- **`NativeConcurrentHashSet<T>`** is a striped hash set. A handle points at a
  `Tables` record. That record holds:
  - the bucket array, where each bucket heads a singly linked chain of nodes
    that carry a key and its cached hash code;
  - the number of locks;
  - one node count per lock.

  Bucket `b` belongs to lock `b % locks`. When an insertion pushes a lock's
  count past the *budget*, `GrowTable` runs:
  - a sparse table only doubles the budget;
  - otherwise every node is rehashed into a table about twice as large, with
    twice as many locks when `GrowLockArray` is set and there are fewer than
    1024 locks.

  The model is single-threaded: every lock is free, so the "tables were
  replaced, retry" branches are never taken.
  - Module `HashChains` (`hash_chains.dfy`) is the value-level table: chains as
    sequences of nodes, the placement, uniqueness and count invariants, and the
    lemmas showing that each update keeps them.
  - Module `ConcurrentHashSet` (`concurrent_hash_set.dfy`) holds the classes
    `Tables`, `HashSet` and `Enumerator`. Their methods update arrays and fields
    in place, like the source.
  - The abstract state of a set is the ghost field `Contents`. `HashSet.Valid()`
    ties it to the arrays.
- **`NativeChunkedStream`** is a byte FIFO. It is a linked list of fixed-size
  chunks, with a read offset into the head chunk and a write offset into the
  tail chunk. Chunks that are emptied go to a bounded free list and are reused
  by later writes.
  - Module `ChunkedStream` (`chunked_stream.dfy`) holds the class `Stream`. Its
    chunk list and free list are sequences of arrays.
  - Its abstract state is `Contents()`: the bytes from the read offset of the
    head chunk to the write offset of the tail chunk.
  - `Write` appends to `Contents()`, and `Read` removes a prefix of it and copies
    that prefix out.
- Module `Results` (`results.dfy`) holds `Result` and `Option`. An exception the
  source throws is an `Err` value carrying the exception's kind.

## Model

| member | source | states |
|---|---|---|
| HashChains.Wrap32 | NativeCollections/NativeCollections/NativeConcurrentHashSet.cs:396-402 | the 32-bit signed result of `2 * Budget` and `Length * 2`: congruent to the exact value modulo 2^32, equal to it inside the int range, and that value minus 2^32 just above it |
| HashChains.ToUInt32 | NativeCollections/NativeCollections/NativeConcurrentHashSet.cs:598 | the `(uint)hashCode` cast is the value in [0, 2^32) congruent to the hash code |
| HashChains.BucketIndex | NativeCollections/NativeCollections/NativeConcurrentHashSet.cs:581-600 | the bucket of a hash code is below the bucket count, and is the hash code modulo the count when the hash code is non-negative |
| HashChains.ChainHas | NativeCollections/NativeCollections/NativeConcurrentHashSet.cs:322-326 | in a chain whose nodes all belong to its bucket, a key is present exactly when some node has the key's hash code and an equal key, which is the match test of every chain walk |
| HashChains.StripeZero | NativeCollections/NativeCollections/NativeConcurrentHashSet.cs:272 | a zero count for a lock means every bucket of that lock is empty, which justifies `Remove` skipping the walk |
| HashChains.CountsAddUp | NativeCollections/NativeCollections/NativeConcurrentHashSet.cs:560-572 | the per-lock counts sum to the number of nodes in the table |
| HashChains.CountsBounded | NativeCollections/NativeCollections/NativeConcurrentHashSet.cs:434-437 | when the table has at most int.MaxValue nodes, every lock count lies in [0, int.MaxValue] |
| HashChains.EmptyTable | NativeCollections/NativeCollections/NativeConcurrentHashSet.cs:90-91 | empty buckets with zero counts form a valid table holding no keys |
| HashChains.EmptyIffZeroCounts | NativeCollections/NativeCollections/NativeConcurrentHashSet.cs:360-375 | a valid table holds no keys exactly when every lock count is zero |
| HashChains.KeysListContents | NativeCollections/NativeCollections/NativeConcurrentHashSet.cs:784-817 | listing the chains bucket by bucket gives each key of the set exactly once, and the number of keys is the number of nodes |
| HashChains.Prepend | NativeCollections/NativeCollections/NativeConcurrentHashSet.cs:537-538 | linking a new key's node in front of its bucket keeps nodes placed and chains duplicate-free, and the chains then hold the old keys plus the new one |
| HashChains.Splice | NativeCollections/NativeCollections/NativeConcurrentHashSet.cs:283-291 | unlinking the node of a key keeps the table placed and duplicate-free, and the chains then hold the old keys minus that key |
| HashChains.CountedUpdate | NativeCollections/NativeCollections/NativeConcurrentHashSet.cs:295 | replacing a bucket's chain and adjusting its lock's count by the change in length keeps every count equal to its lock's nodes |
| HashChains.RehashStep | NativeCollections/NativeCollections/NativeConcurrentHashSet.cs:428-437 | moving one node to the bucket its cached hash code selects keeps the new table placed, duplicate-free and counted; the incremented count stays within the old node count, so the checked increment cannot overflow |
| HashChains.RehashDone | NativeCollections/NativeCollections/NativeConcurrentHashSet.cs:423-441 | once every old bucket has been moved, the new table holds exactly the keys of the old one |
| ConcurrentHashSet.DoubledBudget | NativeCollections/NativeCollections/NativeConcurrentHashSet.cs:396-398 | the budget doubled in 32-bit arithmetic, with a negative result replaced by int.MaxValue, is twice the budget saturated at int.MaxValue |
| ConcurrentHashSet.GrownLength | NativeCollections/NativeCollections/NativeConcurrentHashSet.cs:402-405 | the grown bucket count is at least twice the length (capped) and at most 2147483591; it is `GetPrime(2 * length)` capped at 2147483591 when the doubling fits, and 2147483591 when the doubling overflows |
| ConcurrentHashSet.PerLockBounds | NativeCollections/NativeCollections/NativeConcurrentHashSet.cs:443-444 | buckets per lock never exceed the bucket count, and are at least 1 when there are no fewer buckets than locks |
| ConcurrentHashSet.FindNode | NativeCollections/NativeCollections/NativeConcurrentHashSet.cs:528-531 | the chain walk returns the first node matching the hash code and key, or -1 when no node matches |
| ConcurrentHashSet.AddAsWritten | NativeCollections/NativeCollections/NativeConcurrentHashSet.cs:537-541 | insertion in the source's order: the node is linked first; the checked increment then fails exactly when the lock count is int.MaxValue, and in that case the counts are left as they were; otherwise it succeeds and that lock count goes up by one |
| ConcurrentHashSet.AddAsWrittenOverflow | NativeCollections/NativeCollections/NativeConcurrentHashSet.cs:537-541 | after that overflow, the chains hold the new key but the counts no longer match the chains |
| ConcurrentHashSet.MoveNode | NativeCollections/NativeCollections/NativeConcurrentHashSet.cs:430-437 | the node goes in front of its new bucket, its lock's count goes up by one, and nothing else changes |
| ConcurrentHashSet.MoveChain | NativeCollections/NativeCollections/NativeConcurrentHashSet.cs:425-440 | moving one old bucket keeps the new table placed, duplicate-free and counted, and adds that bucket's nodes to it |
| ConcurrentHashSet.NewTable | NativeCollections/NativeCollections/NativeConcurrentHashSet.cs:418-419 | fresh arrays of empty buckets and zero counts |
| ConcurrentHashSet.Rehash | NativeCollections/NativeCollections/NativeConcurrentHashSet.cs:418-441 | the rehash gives a valid table of the requested size and lock count, holding exactly the keys of the old table |
| ConcurrentHashSet.Tables.Initialize | NativeCollections/NativeCollections/NativeConcurrentHashSet.cs:681-687 | `Initialize` stores the bucket array, the lock count and the count array |
| ConcurrentHashSet.HashSet.constructor | NativeCollections/NativeCollections/NativeConcurrentHashSet.cs:78-99 | a valid empty set; a non-positive concurrency level means one lock per processor; there are `GetPrime(max(capacity, level))` buckets; the budget is buckets per lock, at least 1 |
| ConcurrentHashSet.HashSet.Contains | NativeCollections/NativeCollections/NativeConcurrentHashSet.cs:318-329 | true exactly when the key is in the set |
| ConcurrentHashSet.HashSet.TryGetValue | NativeCollections/NativeCollections/NativeConcurrentHashSet.cs:338-353 | a value exactly when an equal key is in the set, and then that key |
| ConcurrentHashSet.HashSet.AreAllBucketsEmpty | NativeCollections/NativeCollections/NativeConcurrentHashSet.cs:360-375 | true exactly when every lock count is zero, which is exactly when the set is empty |
| ConcurrentHashSet.HashSet.IsEmpty | NativeCollections/NativeCollections/NativeConcurrentHashSet.cs:109-127 | true exactly when the set is empty |
| ConcurrentHashSet.HashSet.GetCountNoLocks | NativeCollections/NativeCollections/NativeConcurrentHashSet.cs:560-572 | the number of keys, or an overflow error exactly when that number exceeds int.MaxValue |
| ConcurrentHashSet.HashSet.Count | NativeCollections/NativeCollections/NativeConcurrentHashSet.cs:132-148 | the number of keys, or an overflow error exactly when that number exceeds int.MaxValue |
| ConcurrentHashSet.HashSet.LinkNode | NativeCollections/NativeCollections/NativeConcurrentHashSet.cs:537-541 | the node goes in front of its bucket and the lock's count goes up by one; the set stays valid and gains the key |
| ConcurrentHashSet.HashSet.Add | NativeCollections/NativeCollections/NativeConcurrentHashSet.cs:510-531 | false (and nothing changes) exactly when the key was present; otherwise the key is added. An error is an overflow for a new key, either leaving the set as it was (its lock count was int.MaxValue) or arising in the count check of `GrowTable`, when the set has more than int.MaxValue keys. A new key whose lock count is below the budget is linked in front of its bucket, its lock count goes up by one, and the tables and the budget stay; one whose lock count reaches the budget grows the table as `GrowTable` does; when that grow step overflows, the node is linked and the tables and the budget stay |
| ConcurrentHashSet.HashSet.Insert | NativeCollections/NativeCollections/NativeConcurrentHashSet.cs:534-555 | the insertion path for a new key, with the corrected order: success means the key was added; an error is an overflow, either before any change or from `GrowTable` with more than int.MaxValue keys. Below the budget the node is linked in front of its bucket, the lock count goes up by one, and the tables and the budget stay; a lock count above the budget after the increment runs the grow step, with `GrowTable`'s outcome; an overflow from that grow step leaves the node linked, and the tables and the budget as they were |
| ConcurrentHashSet.HashSet.UnlinkNode | NativeCollections/NativeCollections/NativeConcurrentHashSet.cs:283-295 | the node leaves its chain, whether it is first or later in it, and the lock's count goes down by one; the set stays valid and loses the key |
| ConcurrentHashSet.HashSet.Remove | NativeCollections/NativeCollections/NativeConcurrentHashSet.cs:264-310 | true exactly when the key was present; afterwards the key is absent, and nothing changes when it returns false; when it returns true, exactly the key's node is spliced out of its bucket, the count of that bucket's lock goes down by one, and every other bucket and count is unchanged |
| ConcurrentHashSet.HashSet.GrowTable | NativeCollections/NativeCollections/NativeConcurrentHashSet.cs:383-456 | the keys never change; an overflow error exactly when there are more than int.MaxValue keys; a sparse table keeps its tables and doubles the budget (saturated); otherwise a fresh table, lock count doubled when growing locks below 1024, `GetPrime(2 * length)` buckets capped at 2147483591 (2147483591 when the doubling overflows), budget = buckets per lock (at least 1) |
| ConcurrentHashSet.HashSet.Resize | NativeCollections/NativeCollections/NativeConcurrentHashSet.cs:418-450 | the set now uses a fresh valid table of the given size and lock count with the same keys, and the budget is buckets per lock, at least 1 |
| ConcurrentHashSet.HashSet.Install | NativeCollections/NativeCollections/NativeConcurrentHashSet.cs:443-450 | the new tables are published and the budget is set from them; the set is valid afterwards |
| ConcurrentHashSet.HashSet.Clear | NativeCollections/NativeCollections/NativeConcurrentHashSet.cs:210-248 | the set is empty and valid afterwards; an empty set is untouched; otherwise there are `GetPrime(31)` buckets, reusing the array when its length already matches and in a fresh array otherwise, and the budget is buckets per lock, at least 1 |
| ConcurrentHashSet.Enumerator.constructor | NativeCollections/NativeCollections/NativeConcurrentHashSet.cs:769-777 | an enumerator over the set, not yet started, at index -1 |
| ConcurrentHashSet.Enumerator.Start | NativeCollections/NativeCollections/NativeConcurrentHashSet.cs:788-791 | takes the set's buckets; their keys, in walking order, are exactly the set's keys with no repeats |
| ConcurrentHashSet.Enumerator.MoveNext | NativeCollections/NativeCollections/NativeConcurrentHashSet.cs:784-817 | each true result yields a key of the set not yielded before; false means every key has been yielded exactly once, in bucket order, and every later call returns false |
| ConcurrentHashSet.AtStart | NativeCollections/NativeCollections/NativeConcurrentHashSet.cs:788-790 | before the first bucket, nothing has been yielded and all keys are still ahead |
| ConcurrentHashSet.Walk | NativeCollections/NativeCollections/NativeConcurrentHashSet.cs:792-815 | the outer and inner loop states stop at the next node, or past the last bucket when every key has been yielded |
| ConcurrentHashSet.NextBucket | NativeCollections/NativeCollections/NativeConcurrentHashSet.cs:792-802 | stepping to the next bucket puts its chain next in line, and past the last bucket nothing remains |
| ConcurrentHashSet.NextNode | NativeCollections/NativeCollections/NativeConcurrentHashSet.cs:804-809 | yielding the node at the head of the rest of the chain gives a key of the set that was not yielded before |
| ChunkedStream.Stream.constructor | NativeCollections/NativeCollections/NativeChunkedStream.cs:105-123 | a valid empty stream of one chunk, with no free chunks and both offsets at 0 |
| ChunkedStream.Stream.Create | NativeCollections/NativeCollections/NativeChunkedStream.cs:105-110 | an argument error for a non-positive size or a negative free-chunk limit, otherwise a valid empty stream |
| ChunkedStream.Stream.Chunks | NativeCollections/NativeCollections/NativeChunkedStream.cs:133 | the number of chunks in the list, at least 1 |
| ChunkedStream.Stream.FreeChunks | NativeCollections/NativeCollections/NativeChunkedStream.cs:138 | the length of the free list, never above the limit |
| ChunkedStream.Stream.Length | NativeCollections/NativeCollections/NativeChunkedStream.cs:153 | the number of bytes in the stream |
| ChunkedStream.Stream.FillTail | NativeCollections/NativeCollections/NativeChunkedStream.cs:298-303 | copying into the tail chunk at the write offset leaves the stream's bytes unchanged |
| ChunkedStream.Stream.Commit | NativeCollections/NativeCollections/NativeChunkedStream.cs:299 | moving the write offset appends the bytes it passes over |
| ChunkedStream.Stream.AppendToTail | NativeCollections/NativeCollections/NativeChunkedStream.cs:296-300 | a write that fits the tail chunk appends its bytes |
| ChunkedStream.Stream.TakeChunk | NativeCollections/NativeCollections/NativeChunkedStream.cs:305-315 | the next chunk is the head of the free list when there is one, otherwise a fresh allocation |
| ChunkedStream.Stream.Link | NativeCollections/NativeCollections/NativeChunkedStream.cs:317-320 | linking a chunk after the full tail leaves the bytes unchanged and resets the write offset |
| ChunkedStream.Stream.LinkChunk | NativeCollections/NativeCollections/NativeChunkedStream.cs:305-320 | a full tail is followed by a spare or fresh chunk; the bytes are unchanged and the free list shrinks by the chunk it gave |
| ChunkedStream.Stream.WriteStep | NativeCollections/NativeCollections/NativeChunkedStream.cs:294-320 | one loop iteration of `Write` appends the prefix that fits the tail, and moves to a new chunk when the tail fills |
| ChunkedStream.Stream.WriteFrom | NativeCollections/NativeCollections/NativeChunkedStream.cs:292-321 | the loop of `Write` from a given position appends the rest of the buffer |
| ChunkedStream.Stream.Append | NativeCollections/NativeCollections/NativeChunkedStream.cs:292-321 | the whole buffer is appended to the stream |
| ChunkedStream.Stream.Write | NativeCollections/NativeCollections/NativeChunkedStream.cs:287-324 | an argument error for a negative length, with the fields and the bytes unchanged; otherwise the first `length` bytes of the buffer are appended and `Length` grows by `length` |
| ChunkedStream.Stream.CopyFromHead | NativeCollections/NativeCollections/NativeChunkedStream.cs:246-251 | copies the next bytes of the head chunk into the buffer at the given offset, touching nothing else |
| ChunkedStream.Stream.Advance | NativeCollections/NativeCollections/NativeChunkedStream.cs:247 | moving the read offset drops that many bytes from the front |
| ChunkedStream.Stream.Unlink | NativeCollections/NativeCollections/NativeChunkedStream.cs:255-257 | unlinking the head chunk drops its unread bytes and resets the read offset |
| ChunkedStream.Stream.Recycle | NativeCollections/NativeCollections/NativeChunkedStream.cs:258-266 | an unlinked chunk is freed when the free list is full, and otherwise goes in front of it |
| ChunkedStream.Stream.DropHead | NativeCollections/NativeCollections/NativeChunkedStream.cs:252-269 | the head chunk leaves the list and is recycled; the stream loses the head's unread bytes |
| ChunkedStream.Stream.Reset | NativeCollections/NativeCollections/NativeChunkedStream.cs:252-273 | a single chunk read to its end rewinds both offsets, leaving an empty stream |
| ChunkedStream.Stream.ReadWithinHead | NativeCollections/NativeCollections/NativeChunkedStream.cs:244-248 | a read that ends inside the head chunk copies the first bytes and drops them |
| ChunkedStream.Stream.ReadHead | NativeCollections/NativeCollections/NativeChunkedStream.cs:251-274 | a read of the rest of the head chunk copies it out and drops it: a head chunk with more chunks behind it is recycled and the write offset kept, and the last chunk stays in place with both offsets rewound to zero |
| ChunkedStream.Stream.ReadStep | NativeCollections/NativeCollections/NativeChunkedStream.cs:242-274 | one loop iteration of `Read` copies out and drops a non-empty prefix of the bytes; the write offset is kept unless the iteration empties a full last chunk, which rewinds both offsets to zero |
| ChunkedStream.Stream.ReadFrom | NativeCollections/NativeCollections/NativeChunkedStream.cs:239-275 | the loop of `Read` from a given position delivers the requested bytes in order, and keeps the write offset unless it empties a full last chunk, which rewinds both offsets to zero |
| ChunkedStream.Stream.Drain | NativeCollections/NativeCollections/NativeChunkedStream.cs:239-275 | the first `n` bytes are copied into the buffer and dropped, and the rest of the buffer is untouched; the write offset is kept unless the loop empties a full last chunk, which leaves one chunk with both offsets at zero |
| ChunkedStream.Stream.Read | NativeCollections/NativeCollections/NativeChunkedStream.cs:233-279 | an argument error for a negative length, with the fields, the bytes and the buffer unchanged; otherwise it returns `min(length, Length)` and copies that many front bytes out, removing them, and leaves the rest of the buffer untouched; the write offset is kept unless the read empties a full last chunk, which leaves one chunk with both offsets at zero |
| ChunkedStream.Stream.PushSpare | NativeCollections/NativeCollections/NativeChunkedStream.cs:340-343 | a fresh chunk goes in front of the free list |
| ChunkedStream.Stream.EnsureCapacity | NativeCollections/NativeCollections/NativeChunkedStream.cs:332-347 | an argument error for a negative capacity; otherwise the free list grows to the capacity (capped at the limit), never shrinks, and its count is returned; the bytes and `Length` are unchanged |
| ChunkedStream.Stream.ReleaseSpares | NativeCollections/NativeCollections/NativeChunkedStream.cs:377-385 | the free list keeps its last `capacity` chunks, and the ones dropped are released |
| ChunkedStream.Stream.TrimExcess | NativeCollections/NativeCollections/NativeChunkedStream.cs:353-365 | every free chunk is released; the bytes and `Length` are unchanged |
| ChunkedStream.Stream.TrimExcessTo | NativeCollections/NativeCollections/NativeChunkedStream.cs:372-387 | an argument error for a negative capacity; otherwise the free list shrinks to the capacity, releasing the chunks dropped, and its count is returned; the bytes and `Length` are unchanged |
| ChunkedStream.WriteThenRead | NativeCollections/NativeCollections/NativeChunkedStream.cs:233-324 | FIFO round trip: writing data and then reading everything gives back the old bytes followed by the data, and leaves the stream empty |

## Notes on the code

- **GrowTable's sparse check.** `GrowTable` tests whether the table is sparse
  (fewer keys than a quarter of the buckets) first, for every growth request,
  before it computes the new length (NativeConcurrentHashSet.cs:394-400).
  `ConcurrentHashSet.HashSet.GrowTable` keeps that order.
- **When the enumerator takes the bucket array.** The enumerator takes the
  bucket array on its first `MoveNext` (NativeConcurrentHashSet.cs:788-790),
  not when it is created, and so does `ConcurrentHashSet.Enumerator.MoveNext`.

## Left out

- Concurrency. Locks, `Volatile` accesses and the retry branches that follow
  a table swap by another thread are not modelled, because the model is
  single-threaded. Neither are `resizeDesired` and the stale-tables check of
  `GrowTable`: the only caller passes true, and the tables are always current.
- Node memory. `NativeMemoryPool`, the node lock, and `Node.Initialize` with
  pointer identity are not modelled. A chain is a sequence of key and
  hash-code values, so a new node is a new sequence element, an unlink is a
  splice, and `Clear`'s loop that returns nodes to the pool has nothing to do.
  The constructor's `size` and `maxFreeSlabs` arguments only configure the pool
  and are not modelled.
- ConcurrentHashSet.HashSet.GrowTable: the source relinks the existing nodes
  rather than allocating new ones. Nodes are values here, so the contract does
  not state that.
- Outside functions are parameters of the set:
  - `Environment.ProcessorCount` is a constructor argument.
  - `HashHelpers.GetPrime` is a function parameter, assumed to return at least
    its argument.
  - `key.GetHashCode()` is a function parameter.
  - Key equality is Dafny's `==`.
- HashChains.BucketIndex: it is the 32-bit path of `GetBucket` and
  `GetBucketAndLock`, `(uint)hashCode % length`. The 64-bit path,
  `HashHelpers.FastMod` with `FastModBucketsMultiplier`, is not modelled. It
  gives the same bucket while the multiplier belongs to the current bucket
  count, which holds after `Tables.Initialize` (NativeConcurrentHashSet.cs:686).
- ConcurrentHashSet.HashSet.Clear: on 64-bit platforms the source's `Clear`
  replaces the bucket array with `GetPrime(31)` buckets but keeps the old
  `FastModBucketsMultiplier` (NativeConcurrentHashSet.cs:229-234, 686). After a
  `GrowTable` and then a `Clear`, `FastMod` there no longer computes
  `hashCode % length` (NativeConcurrentHashSet.cs:584, 598). The model uses
  `hashCode % length` throughout, as on 32-bit platforms. Lookups and inserts
  still agree with each other there, because both use the same bucket function.
  Which
  bucket holds a key, the enumeration order, the per-lock counts and when
  `GrowTable` runs can differ from the 64-bit source after such a `Clear`.
- The lock array itself is not modelled, only its length. This leaves out the
  monitor objects and the copying of old locks when the array grows.
- ConcurrentHashSet.HashSet.GrowTable: the capped branch also stores
  `int.MaxValue` as the budget. The model does not store it, because the same
  call overwrites that value with buckets per lock before returning.
- ConcurrentHashSet.Enumerator.MoveNext: on its first call, the enumerator takes
  a value copy of the bucket array. The source keeps a pointer to the array, so
  changes made during an enumeration are not modelled.
- Results of `Add`, `Remove`, `Count` and `Read`/`Write`:
  - The exceptions of the source (`OverflowException`,
    `ArgumentOutOfRangeException`) are `Err` results.
  - `TryGetValue`'s out-parameter is the value of an `Option`.
- `Dispose` of both types is not modelled. Nor are their identity members
  (`IsCreated`, `Equals`, `GetHashCode`, `ToString`, `==`, `!=`, `Empty`) and
  the `Size`/`MaxFreeChunks` getters, which read a field.
- `Current` of the enumerator is the field `current`.
- Chunk memory:
  - `NativeMemoryChunk` pointers and `Next` links are modelled as an ordered
    sequence of byte arrays.
  - `NativeMemoryAllocator.Alloc` is `new`, and `Free` is dropping the array
    from the footprint.
  - `Read` and `Write` take an array and a sequence in place of raw pointers.
    Their requires say how many bytes the pointer must make accessible.
- ChunkedStream.Stream.Write: `Length` is an unbounded integer. The source's
  `int` `Length` and `Chunks` fields would wrap past int.MaxValue, and that
  wrap is not modelled.
- ChunkedStream.Stream.TrimExcessTo: this is the `TrimExcess(int)` overload,
  renamed because Dafny has no overloading.

## Findings

| source | as written | input that shows it | evidently intended | confidence | as-written member | corrected member |
|---|---|---|---|---|---|---|
| NativeCollections/NativeCollections/NativeConcurrentHashSet.cs:537-541 | `TryAddInternal` links the new node into its bucket before the checked increment of the lock count, so an `OverflowException` from that increment leaves the key in the set while its lock count is one short | a set whose lock count for the key's bucket is int.MaxValue, and `Add` of a key that is not in it | check (or increment) the count before linking, so that an overflow leaves the set unchanged | not executed | ConcurrentHashSet.AddAsWrittenOverflow | ConcurrentHashSet.HashSet.Insert |
