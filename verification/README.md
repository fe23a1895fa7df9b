# gredis, verified

A Dafny model of the parts of gredis that carry its logic: the storage engine, the snapshot codec, the RESP2 layer, the
hand-off between threads, and the bookkeeping of the event loop. Each component keeps a simple abstract value through
complicated mutation; the project states that value and proves, for every input and every run, that the code keeps it.

Verify everything with `dafny verify dfyconfig.toml`.

| file | component |
|---|---|
| `HashTable.dfy` | the incrementally rehashed table as one finite map, with its amortised bounds |
| `AvlShapes.dfy`, `AvlTree.dfy`, `AvlQueries.dfy` | the AVL tree: shapes and balance, parent-linked nodes in an arena, read-only descents |
| `ZSet.dfy`, `ZRange.dfy`, `ZPop.dfy`, `ZLaws.dfy` | the sorted set, its range and count commands, popping, and what its answers mean in numbers and positions |
| `Database.dfy` | the keyspace with TTLs against a timed map |
| `Crc32.dfy`, `Snapshot.dfy`, `SnapshotCodec.dfy` | the checksum, the file format, saving and loading |
| `Resp.dfy`, `RespStream.dfy`, `RespReplies.dfy`, `RespGrammar.dfy` | request parser, buffer and processing loop, writer and reply scanner, and their verdicts in terms of the text |
| `HandOff.dfy`, `Connections.dfy` | thread pool, completion queue and BGSAVE flag; idle list, output limits and registered interest |
| `Histogram.dfy` | the latency histogram's percentiles |
| `Aggregates.dfy`, `Restart.dfy` | commands on hashes, lists, sets and sorted sets; serving from a loaded snapshot |
| `Runs.dfy` | whole runs of the stores against their references |

How the source's form is kept:

- Objects that are updated in place are classes with `modifies` clauses; loops are loops with invariants; each is proved
  against a function or predicate, and the laws are proved about those.
- Hash functions are arbitrary; `h & (n - 1)` is written as the remainder modulo `n`, which it is proved to be for the
  powers of two that all bucket counts are.
- AVL nodes are numbers into an arena of cells with height, size, left, right and parent, so a node's identity is
  observable and dangling or shared links would be errors of the proof.
- Clocks, the wall-clock budget of an expiry cycle, capacities of strings, received byte counts, the random pick of SPOP
  and the iteration order of containers are parameters or nondeterministic choices.
- Threads are interleaved atomic steps: what the source does under one lock or in one system call is one step.
- Scores in the sorted set are reals with two infinities and no NaN. The codec works on any type of scores with given
  64-bit patterns: the patterns themselves, or the scores of the sorted set.
- Rounding of doubles is an arbitrary function where it matters.
- `find` on the table being iterated advances its rehash (src/storage/hash_table.h:76-77), although the comment on
  `for_each` (line 183) forbids only insert and erase. The model follows the code: iteration is one step during which the
  table is not touched.

## Model

| member | source | states |
|---|---|---|
| `HashTables.HashTable.constructor` | src/storage/hash_table.h:475-481 | A new table is valid, has four buckets and stands for the empty map. |
| `HashTables.HashTable.Find` | src/storage/hash_table.h:75-88 | The answer is the plain map's, at any cursor position; the map is unchanged; if a rehash is still under way afterwards, the work left (one per old bucket ahead of the cursor and ten per entry in them) fell by at least ten. |
| `HashTables.HashTable.Peek` | src/storage/hash_table.h:90-102 | The const lookup gives the same answer and changes nothing. |
| `HashTables.HashTable.InsertOrAssign` | src/storage/hash_table.h:105-132 | The map gains exactly this binding and the flag says whether the key was new, in every phase of a grow or shrink; a doubling starts exactly when a new key brings the load to one; the amortised bounds survive, so no target table fills before its rehash ends. |
| `HashTables.HashTable.Erase` | src/storage/hash_table.h:134-148 | The key and nothing else goes; the flag says whether it was there; a shrink may start and all size bounds hold. |
| `HashTables.HashTable.Take` | src/storage/hash_table.h:152-167 | As erase, handing out the value the map held. |
| `HashTables.HashTable.Clear` | src/storage/hash_table.h:172-176 | The map is empty and no rehash is under way, from any state at all. |
| `HashTables.HashTable.ForEach` | src/storage/hash_table.h:183-198 | The visited entries, as a multiset, are the entries of the map: each key exactly once even when both tables are live. |
| `HashTables.HashTable.RehashStep` | src/storage/hash_table.h:256-302 | No mapping and no count changes; the cursor moves by at most eleven buckets per unit of budget; a step with a budget either ends the rehash or reduces the remaining work by at least ten, leaving room for one more insertion. |
| `HashTables.HashTable.StepCursor` | src/storage/hash_table.h:268-294 | The cursor moves by one bucket; a non-empty bucket is moved as a whole; the map is unchanged. |
| `HashTables.HashTable.MigrateBucket` | src/storage/hash_table.h:278-290 | Moving one chain empties its old bucket, keeps the total count, and places each entry where its hash puts it in the new table. |
| `HashTables.HashTable.Finish` | src/storage/hash_table.h:296-301 | When the cursor reaches the end the old table is empty, so the new one alone stands for the same map. |
| `HashTables.HashTable.MaybeRehashStep` | src/storage/hash_table.h:434-438 | The implicit step of every operation keeps the map and makes the amortised progress. |
| `HashTables.HashTable.StartRehash` | src/storage/hash_table.h:440-445 | Opening the second table, doubled or halved and a power of two of at least 4, changes no mapping. |
| `HashTables.HashTable.MaybeStartShrink` | src/storage/hash_table.h:447-462 | A shrink starts exactly when the load is below one tenth and there are more than 4 buckets; the bound that lets it finish before the halved table fills is established. |
| `HashTables.HashTable.LoadBelowOne` | src/storage/hash_table.h:120-132 | In every valid state the size is that of the map and strictly below the bucket count of the table new keys go into, and all bucket counts are powers of two of at least 4. |
| `Buckets.MaskIsMod` | src/storage/hash_table.h:127-127 | Masking a hash with n - 1, for a power of two n, selects the bucket of its remainder modulo n. |
| `Buckets.AndDigit` | src/storage/hash_table.h:127-127 | The bitwise and used for the mask has a digit set exactly where both operands have. |
| `HashTables.HashTable.WriteThrough` | src/storage/zset.h:44-52 | Writing through the pointer that find returned rebinds that key alone. |
| `HashTables.FindIn` | src/storage/hash_table.h:390-401 | The index found holds the key with the hash; a miss means the key's bucket does not hold it. |
| `HashTables.Missing` | src/storage/hash_table.h:390-401 | Looking in one bucket is enough: a key not in its own bucket is nowhere in that table, for every hash function, colliding or not. |
| `HashTables.Spread` | src/storage/hash_table.h:278-287 | Every node of a chain lands in the bucket its hash selects and none is lost. |
| `HashTableRuns.Replay` | src/storage/hash_table.h:76-302 | For every hash function and every run from an empty table, all answers are those of one finite map, the final size is the map's and below the bucket count, and iteration lists the map once. |
| `AvlShapes.BalanceAvl` | src/storage/avl_tree.h:305-319 | Single and double rotations restore the balance of a node whose subtrees are off by up to two, and the height changes by at most one; a balanced node is left alone. |
| `AvlShapes.BalanceInorder` | src/storage/avl_tree.h:263-319 | Rebalancing a node keeps the order, the node set and the separateness of nodes. |
| `AvlShapes.RebalanceAvl` | src/storage/avl_tree.h:321-330 | Rebalancing every ancestor of a subtree whose height moved by one yields a balanced tree, whatever the path. |
| `AvlShapes.RebalanceInorder` | src/storage/avl_tree.h:321-330 | The whole climb keeps the in-order sequence. |
| `AvlShapes.HeightBound` | src/storage/avl_tree.h:206-218 | A balanced tree of height h has at least Fib(h + 2) - 1 nodes. |
| `AvlShapes.HeightNumbers` | src/storage/avl_tree.h:206-218 | In numbers: a tree with a path of 64 nodes has at least 2^32 - 1 nodes. |
| `AvlShapes.SpliceShape` | src/storage/avl_tree.h:104-117 | Replacing an inner node by its successor removes exactly that node from the order and leaves one path to rebalance. |
| `AvlTrees.AvlTree.Update` | src/storage/avl_tree.h:225-228 | Height and size of a node become exact once its subtrees' are; no other cell changes. |
| `AvlTrees.AvlTree.RotateLeft` | src/storage/avl_tree.h:261-282 | The links after the rotation are those of the rotated tree, heights and sizes included, hooked to the old parent. |
| `AvlTrees.AvlTree.RotateRight` | src/storage/avl_tree.h:284-303 | The mirror image. |
| `AvlTrees.AvlTree.RebalanceNode` | src/storage/avl_tree.h:305-319 | Rewriting the links cell by cell produces exactly the balanced shape. |
| `AvlTrees.AvlTree.RebalanceUp` | src/storage/avl_tree.h:321-330 | After the climb the linked structure is the rebalanced tree from the root down. |
| `AvlTrees.AvlTree.Transplant` | src/storage/avl_tree.h:246-259 | The slot of one node in its parent, or the root, holds the other subtree with its parent link set; nothing else moves. |
| `AvlTrees.AvlTree.Insert` | src/storage/avl_tree.h:57-91 | A present key changes nothing and yields null; a new key gets a fresh node, every other node keeps its key, and order, links, heights, sizes and balance stay exact. |
| `AvlTrees.AvlTree.Erase` | src/storage/avl_tree.h:93-122 | Exactly the given node goes; every other node keeps its identity and key although links are rewired, and the tree stays ordered, balanced and exactly linked. |
| `AvlTrees.AvlTree.Remove` | src/storage/avl_tree.h:95-122 | The in-order node sequence loses that one node and keeps the order of the rest. |
| `AvlTrees.AvlTree.Descend` | src/storage/avl_tree.h:66-80 | The descent ends at the node with the key, or at the one empty slot between the smaller and the larger keys. |
| `AvlQueries.Find` | src/storage/avl_tree.h:124-136 | The node holding the key if one does, else null. |
| `AvlQueries.LowerBound` | src/storage/avl_tree.h:138-151 | The node with the least key that is not below the argument, null exactly when all keys are below it; all earlier in-order positions hold smaller keys. |
| `AvlQueries.Rank` | src/storage/avl_tree.h:153-162 | The climb computes the node's unique in-order position. |
| `AvlQueries.Select` | src/storage/avl_tree.h:164-179 | The node at that in-order position, null past the end; with Rank, each undoes the other. |
| `AvlQueries.Next` | src/storage/avl_tree.h:181-190 | The node one in-order position later, null after the last. |
| `AvlQueries.Prev` | src/storage/avl_tree.h:192-201 | The node one in-order position earlier, null before the first. |
| `AvlRuns.Replay` | src/storage/avl_tree.h:57-122 | For every strict total order and every run of insert and erase from an empty tree: the keys are those of the reference set, strictly increasing in order, links, heights and sizes exact, balanced, and Fib(height + 2) <= size + 1. |
| `ScoreOrder.ScoredOrder` | src/storage/zset.h:24-34 | Score, then member bytes, is a strict total order, infinities included. |
| `ZLaws.ScoreNumeric` | src/storage/zset.h:27-33 | Finite scores compare as the numbers they are, -inf is below and +inf above them. |
| `ZLaws.BytesNumeric` | src/storage/zset.h:27-33 | A member precedes another exactly if at the first difference it ends or has the smaller byte. |
| `ZLaws.SortedNumerically` | src/storage/zset.h:24-36 | In the listing of every sorted set the scores ascend as numbers, -inf first and +inf last, and members of equal score are in byte order. |
| `ZSets.ZSet.constructor` | src/storage/zset.h:19-36 | A new sorted set is the empty map of scores. |
| `ZSets.ZSet.Upsert` | src/storage/zset.h:38-58 | The member-to-score map gains this binding; every other member's dictionary pointer, node and key are the same as before. |
| `ZSets.ZSet.Erase` | src/storage/zset.h:60-68 | The member alone goes; every other member's node identity and key survive the relinking. |
| `ZSets.ZSet.ScoreOf` | src/storage/zset.h:70-78 | The map's answer; only the dictionary's rehash may move. |
| `ZSets.ZSet.SizesAgree` | src/storage/zset.h:88-101 | Dictionary size, tree count, number of members and length of the listing are one number. |
| `ZSets.AgreesReplace` | src/storage/zset.h:43-54 | Replacing one member's node keeps every dictionary entry pointing at the one live node of its member. |
| `SortedRuns.Replay` | src/storage/zset.h:43-68 | After any run of upserts and erases the set is the reference map, listed strictly ascending, over a tree of logarithmic height. |
| `ZRanges.ZRank` | src/commands/cmd_zset.cpp:348-364 | A member's rank is its position in the listing; none exactly when it is absent. |
| `ZRanges.TreeRoot` | src/commands/cmd_zset.cpp:70-82 | Climbing from the smallest node reaches the root. |
| `ZRanges.FirstAbove` | src/commands/cmd_zset.cpp:84-99 | Descending from the root that the climb found: the first node and position whose score is strictly greater, ties in the score skipped; null if there is none. |
| `ZRanges.ZCount` | src/commands/cmd_zset.cpp:488-501 | The rank difference is the number of members in range, for inclusive, exclusive, infinite and crossed bounds; hence the length of ZRANGEBYSCORE's answer. |
| `ZRanges.ZRangeByScore` | src/commands/cmd_zset.cpp:440-465 | The answer is exactly the in-range members in order, cut by LIMIT with its negative-argument rules. |
| `ZRanges.Walk` | src/commands/cmd_zset.cpp:440-451 | Stopping at the first score past the maximum loses no member in range. |
| `ZRanges.SplitPoints` | src/commands/cmd_zset.cpp:491-500 | The in-range members are one slice of the listing between the two descents, empty when they cross. |
| `ZRanges.ZRange` | src/commands/cmd_zset.cpp:162-217 | For all signed indices, the clamped slice of the listing or of its reverse. |
| `ZLaws.RangeNumeric` | src/commands/cmd_zset.cpp:440-451 | A member with a finite score is in range exactly if its score lies between the bounds as numbers, each end included unless marked exclusive. |
| `ZLaws.RangeInfinite` | src/commands/cmd_zset.cpp:440-451 | A member with an infinite score is in range exactly at a bound that is that infinity and includes it. |
| `ZLaws.CountPositions` | src/commands/cmd_zset.cpp:491-501 | The count is the number of positions of the listing whose member is in range. |
| `ZLaws.RangeIsSlice` | src/commands/cmd_zset.cpp:440-451 | Every range is one run of the listing: the members from some position up to another are in it and no others. |
| `ZLaws.LimitLaws` | src/commands/cmd_zset.cpp:453-457 | LIMIT takes at most count members from the offset on; a negative offset is 0, a negative count no limit, an offset past the end nothing. |
| `ZLaws.WindowInside` | src/commands/cmd_zset.cpp:189-216 | For two positions inside, the answer is the slice with both ends included. |
| `ZLaws.WindowNegative` | src/commands/cmd_zset.cpp:66-68 | A negative index counts from the end. |
| `ZLaws.WindowOutside` | src/commands/cmd_zset.cpp:191-203 | A start before the first is the first, a stop after the last is the last; beyond that, or with the start after the stop, nothing is returned. |
| `ZLaws.WindowReversed` | src/commands/cmd_zset.cpp:208-211 | The reverse command's window holds the members counted from the other end. |
| `ZPops.ListingUnique` | src/storage/zset.h:24-36 | A map of scores has exactly one listing in score order. |
| `ZPops.PoppedListing` | src/commands/cmd_zset.cpp:539-546 | Taking the least member n times takes the first n of the listing and leaves the rest of it. |
| `ZPops.ZPopMin` | src/commands/cmd_zset.cpp:536-546 | select(0) and erase, repeated on tree and dictionary: the members and scores popped are the front of the listing and the listing keeps its rest. |
| `TimedMaps.LiveLater` | src/storage/database.cpp:37-45 | Dropping overdue keys early cannot be seen at any later time. |
| `TimedMaps.DropOverdue` | src/storage/database.cpp:37-45 | Taking an overdue key out of both tables changes nothing that is live. |
| `ExpiryHeaps.ExpiryHeap.Push` | src/storage/expiry.h:25-25 | The multiset of entries gains this one. |
| `ExpiryHeaps.ExpiryHeap.Top` | src/storage/expiry.h:30-31 | An entry of least deadline. |
| `ExpiryHeaps.ExpiryHeap.Pop` | src/storage/expiry.h:32-32 | Exactly the top entry goes. |
| `ExpiryHeaps.ExpiryHeap.RebuildFrom` | src/storage/expiry.h:34-42 | One entry for each TTL and no other, whatever was there before. |
| `ExpiryHeaps.ExpiryHeap.Clear` | src/storage/expiry.h:44-45 | No entries. |
| `Databases.AddWouldOverflow` | src/storage/database.cpp:13-21 | True exactly when the sum is no 64-bit value. |
| `Databases.SubWouldOverflow` | src/storage/database.cpp:23-31 | True exactly when the difference is no 64-bit value. |
| `Databases.Database.constructor` | src/storage/database.h:25-54 | A new database stores nothing. |
| `Databases.Database.LookupAndExpire` | src/storage/database.cpp:37-53 | Answers with the value exactly if the key exists at that time, and leaves what is live unchanged. |
| `Databases.Database.Set` | src/storage/database.cpp:55-58 | The key holds the value at every time, without a TTL; everything else stays. |
| `Databases.Database.Del` | src/storage/database.cpp:60-63 | The key and its TTL go, expired or not; the flag tells physical presence. |
| `Databases.Database.Take` | src/storage/database.cpp:65-71 | Answers and removes as the timed map does; an overdue key is not handed out. |
| `Databases.Database.TakeAll` | src/storage/database.cpp:73-78 | What was stored is handed out whole, the database is left with fresh tables and no heap entries. |
| `Databases.Database.Clear` | src/storage/database.cpp:80-83 | Nothing is stored; entries left in the heap are harmless. |
| `Databases.Database.ForEachForSnapshot` | src/storage/database.cpp:85-98 | Exactly one record for each live key, its deadline moved to the wall clock; expired keys are left out but not deleted. |
| `Databases.RecordRemaining` | src/storage/database.cpp:88-96 | A record has the key, the value, and as much time left on the wall clock as the key has on the monotonic one. |
| `Databases.LoadRemaining` | src/storage/database.cpp:102-112 | A record with a TTL is dropped exactly if no time is left or the conversion does not fit; otherwise it keeps the time it has left. |
| `Databases.Database.LoadKey` | src/storage/database.cpp:100-117 | A record is dropped if its TTL is past or does not convert, else stored with its deadline on the monotonic clock. |
| `Databases.Database.ExpireAt` | src/storage/database.cpp:119-133 | With a future deadline a live key exists from now on at exactly the times before it, with the same value; with a past one it is gone; a missing key gives false; no other key changes. |
| `Databases.Database.Persist` | src/storage/database.cpp:135-140 | A live key exists at every later time, with the same value; the flag says whether it would have vanished otherwise; no other key changes. |
| `Databases.Database.Pttl` | src/storage/database.cpp:142-152 | -2 exactly if the key does not exist, -1 exactly if it exists at every later time, else the positive time after which it is gone and before which it is there. |
| `Databases.Database.Future` | src/storage/database.cpp:37-45 | A stored key lives on exactly if it has no TTL, and otherwise exists at exactly the times before its deadline. |
| `Databases.Database.RunActiveExpirationCycle` | src/storage/database.cpp:154-188 | Deletes only overdue keys and at most the budget, changes nothing live; unless it stopped for a budget, no overdue key is left stored; the heap ends with at most 2 * (TTLs + 1024) entries. |
| `Databases.Database.NothingOverdue` | src/storage/database.cpp:160-164 | An empty heap, or a top that is not due, means no stored key is overdue, because each TTL has its heap entry. |
| `Databases.Database.PopDue` | src/storage/database.cpp:165-175 | A popped entry deletes its key exactly when it still describes the key's TTL. |
| `Databases.Database.MaybeCompactExpiryHeap` | src/storage/database.cpp:190-195 | Compaction bounds the heap and keeps an entry for every TTL. |
| `Databases.Database.RehashStep` | src/storage/database.h:76-78 | The cron tick's rehash changes nothing stored. |
| `Databases.RecordsSnapshot` | src/storage/database.cpp:85-98 | The callback's records are sound, complete and free of duplicates for what is live. |
| `DatabaseRuns.Replay` | src/storage/database.cpp:37-195 | For every run with a clock that does not go back, with active cycles, rehash steps and flushes interleaved anywhere, every answer is the timed map's. |
| `DatabaseRuns.Delete` | src/commands/cmd_keys.cpp:105-110 | Guarded by a lookup, deleting counts and removes a live key only. |
| `DatabaseRuns.DeleteAll` | src/commands/cmd_keys.cpp:101-113 | All keys named go; the reply is how many live keys that cost, a repeated key counting once. |
| `Crc32s.StepLinear` | src/util/crc32.cpp:14-16 | One bit of division is linear over exclusive or. |
| `Crc32s.StepInjective` | src/util/crc32.cpp:14-16 | One bit of division loses no information. |
| `Crc32s.TableIdentity` | src/util/crc32.cpp:29-31 | Eight steps of any word are the table entry of its low byte, xored with the rest shifted down. |
| `Crc32s.CrcTable` | src/util/crc32.cpp:9-22 | Each entry is eight bit-steps of its index. |
| `Crc32s.Update` | src/util/crc32.cpp:29-31 | The table-driven update of a byte equals the bit-at-a-time one. |
| `Crc32s.Crc32` | src/util/crc32.cpp:26-33 | On every byte string the table-driven checksum equals the bit-at-a-time definition. |
| `Crc32s.CheckValue` | tests/unit/test_crc32.cpp:11-19 | The published check value: the digits 1 to 9 give 0xCBF43926, the empty string 0. |
| `Crc32s.FeedAllInjective` | src/util/crc32.cpp:26-33 | Different states stay different under any common continuation. |
| `Crc32s.BurstChanges` | src/util/crc32.cpp:26-33 | Byte strings that differ only within four consecutive bytes never reach the same state. |
| `Crc32s.Residue` | src/persistence/snapshot.cpp:425-429 | A file ends with the checksum of what precedes it exactly when feeding the whole file leaves the published residue 0xDEBB20E3. |
| `SnapshotFormat.UnLeExact` | src/persistence/snapshot.cpp:37-54 | An n-byte little-endian read gives v exactly when v fits and its n bytes stand there. |
| `SnapshotFormat.ReadLpExact` | src/persistence/snapshot.cpp:144-155 | A length-prefixed read gives s exactly when s is shorter than 2^32 and its encoding stands there; truncated lengths of longer strings never read back. |
| `SnapshotFormat.ReadItemsExact` | src/persistence/snapshot.cpp:218-307 | The element loop reads exactly the encoded element sequence, element by element, of the given type. |
| `SnapshotFormat.ReadPayloadExact` | src/persistence/snapshot.cpp:218-307 | A payload is read back from exactly its own encoding, for all five types. |
| `SnapshotFormat.ReadRecordExact` | src/persistence/snapshot.cpp:310-355 | A record is read back from exactly its own encoding: tag, TTL flag and time, key, payload. |
| `SnapshotFormat.ReadRecordsExact` | src/persistence/snapshot.cpp:433-444 | The record loop yields a record sequence exactly when its encoding fills the space up to the footer. |
| `SnapshotFormat.ParseEncode` | src/persistence/snapshot.cpp:359-454 | What is written is accepted and read back record for record if and only if every length and count fits its field. |
| `SnapshotFormat.ParseOnlyEncoded` | src/persistence/snapshot.cpp:387-454 | The loader accepts nothing else: an accepted file is byte for byte the saving of the records it yields. |
| `SnapshotFormat.CorruptionDetected` | src/persistence/snapshot.cpp:425-429 | An accepted file with any change confined to four consecutive bytes is refused, wherever they are. |
| `SnapshotFormat.OneByteDetected` | src/persistence/snapshot.cpp:387-454 | An accepted file with one byte changed is refused. |
| `SnapshotFormat.LeDigit` | src/persistence/snapshot.cpp:32-54 | Byte i of an integer is its digit i to the base 256: low byte first. |
| `SnapshotFormat.TwosComplement` | src/persistence/snapshot.cpp:54-54 | Negative times are written in two's complement and read back. |
| `SnapshotFormat.FileLayout` | src/persistence/snapshot.cpp:22-25 | Magic, version 1, flags and time fill the first 16 bytes, the end tag 0xFF, the record count and the checksum the last 13, the records what lies between. |
| `SnapshotFormat.RecordLayout` | src/persistence/snapshot.cpp:369-377 | A record is its type number, a byte 0 or 1, the time if 1, the key and the payload. |
| `SnapshotFormat.PayloadLayout` | src/persistence/snapshot.cpp:159-198 | A string is its length and bytes, a container its count and elements; a field comes before its value, a member before its score. |
| `SnapshotFormat.CrcOrder` | src/persistence/snapshot.cpp:42-46 | The checksum's low byte comes first. |
| `SnapshotCodec.TagNumbers` | src/persistence/snapshot.cpp:27-31 | Strings, hashes, lists, sets and sorted sets have the numbers 1 to 5. |
| `SnapshotCodec.WriteUint` | src/persistence/snapshot.cpp:37-54 | Appends the n low bytes, least significant first. |
| `SnapshotCodec.WriteLp` | src/persistence/snapshot.cpp:71-75 | Appends the length prefix and the bytes. |
| `SnapshotCodec.Enumerate` | src/persistence/snapshot.cpp:159-198 | Each element written is a field with its value, the list element of that position, a member, or a member with its score; and whatever the order, loading them back rebuilds the same value. |
| `SnapshotCodec.EncodePayload` | src/persistence/snapshot.cpp:159-198 | The bytes appended are the encoding of a payload that stands for the value. |
| `SnapshotCodec.EncodeRecord` | src/persistence/snapshot.cpp:368-378 | The bytes appended encode the record's type, TTL, key and value. |
| `SnapshotCodec.ConvertibleExact` | src/storage/database.cpp:93-96 | For a live key the wall-clock deadline is a 64-bit value exactly up to the stated bound on the stored deadline. |
| `SnapshotCodec.PexpireConvertible` | src/commands/cmd_keys.cpp:56-72 | A relative expiry the command accepts can be saved at the same clocks if and only if it also fits on top of the wall clock. |
| `SnapshotCodec.PexpireOverflows` | src/commands/cmd_keys.cpp:65-70 | An accepted relative expiry whose wall-clock form does not fit. |
| `SnapshotCodec.EncodeSnapshot` | src/persistence/snapshot.cpp:359-385 | Given deadlines that convert, the file is the saving of one record for each live key; the database stores the same as before. |
| `SnapshotCodec.ReadUintAt` | src/persistence/snapshot.cpp:79-131 | Succeeds exactly when the bytes are there, and gives the number whose little-endian digits they are. |
| `SnapshotCodec.ReadLpAt` | src/persistence/snapshot.cpp:142-155 | Fails on a length that points past the end, else gives those bytes. |
| `SnapshotCodec.DecodeItems` | src/persistence/snapshot.cpp:227-300 | Inserting elements as they are read builds the value of the whole element sequence; a repeated member keeps its first score if the next compares equal; any failure fails the payload. |
| `SnapshotCodec.DecodePayload` | src/persistence/snapshot.cpp:216-307 | The value built is the one the bytes stand for. |
| `SnapshotCodec.DecodeOneRecord` | src/persistence/snapshot.cpp:309-355 | A good record has the loader's effect on the scratch database, a bad one is reported. |
| `SnapshotCodec.DecodeRecords` | src/persistence/snapshot.cpp:431-444 | The loop loads exactly the records up to the footer and counts them. |
| `SnapshotCodec.DecodeSnapshot` | src/persistence/snapshot.cpp:387-454 | Succeeds exactly on acceptable files; then the database is what loading the records in turn gives; otherwise it is untouched. |
| `SnapshotCodec.LoadOfSave` | src/storage/database.cpp:85-117 | Loading a save yields exactly the keys whose wall-clock deadline is still ahead, with equal values and deadlines shifted by the clock difference. |
| `SnapshotCodec.SaveAndLoad` | src/persistence/snapshot.cpp:359-454 | A save at one pair of clocks loaded at any other succeeds and gives exactly the unexpired keys, equal values of all five types, and shifted deadlines. |
| `LoadedAggregates.BuildEmpty` | src/persistence/snapshot.cpp:227-300 | What the loader builds has no elements exactly when none was read, for all four container types. |
| `LoadedAggregates.LoadedValue` | src/storage/database.cpp:100-117 | A key is loaded exactly if some record for it is kept, with the value of the last such record, also in files that repeat keys. |
| `LoadedAggregates.AcceptedNoEmpty` | src/persistence/snapshot.cpp:387-454 | For every accepted file: the loaded database is free of empty aggregates if and only if no record that decides its key's value is an aggregate with no elements. |
| `LoadedAggregates.EmptyListLoaded` | src/persistence/snapshot.cpp:248-265 | The failing input: a file with one list of no elements is accepted and stores the empty list. |
| `LoadedAggregates.ReloadedNoEmpty` | src/persistence/snapshot.cpp:359-454 | Saving and loading a database without empty aggregates gives one without. |
| `RespLines.FindStable` | src/protocol/resp_parser.cpp:15-29 | A line end found in a prefix is found at the same place in any longer input. |
| `RespLines.FindCrlfFrom` | bench/loadgen/reply_parser.cpp:16-24 | The scan gives the first CRLF lying within the window, none if there is none. |
| `RespLines.ParseIntText` | src/protocol/resp_parser.cpp:31-41 | Printing and parsing a 64-bit integer gives it back. |
| `RespLines.IntTextShort` | src/protocol/resp_writer.cpp:35-39 | A 64-bit integer prints in at most twenty characters, well inside a header line. |
| `RespParser.ReadHeader` | src/protocol/resp_parser.cpp:51-68 | The header line's verdict: too long, not a number, out of range, incomplete, or its value and end. |
| `RespParser.ReadBulk` | src/protocol/resp_parser.cpp:110-152 | One bulk string's verdict, its payload and its end. |
| `RespParser.ReadCommand` | src/protocol/resp_parser.cpp:72-157 | The parser's loop computes the recursive definition of a command. |
| `RespParser.CommandStable` | src/protocol/resp_parser.cpp:72-157 | An Ok or Error on a prefix is unchanged by any further bytes. |
| `RespParser.CommandLocal` | src/protocol/resp_parser.cpp:72-157 | Parsing depends on no byte beyond those it consumes. |
| `RespGrammar.HeaderVerdict` | src/protocol/resp_parser.cpp:51-68 | A header is waited for exactly if it is cut off within 64 bytes, refused exactly if it is too long or, complete, negative, no number or over its limit. |
| `RespGrammar.BulkVerdict` | src/protocol/resp_parser.cpp:110-152 | A bulk string is read, refused or waited for exactly as its text says: marker, header, payload and the CRLF behind it. |
| `RespGrammar.CommandVerdict` | src/protocol/resp_parser.cpp:72-157 | The verdict on every input, exactly, in terms of the text: Ok for the text of a command, Error for text no continuation makes one, Incomplete for text cut off. |
| `RespGrammar.IncompleteBound` | src/protocol/resp_parser.cpp:72-157 | Input that is waited for is bounded by the limits on count, header and payload. |
| `RespGrammar.Completable` | src/protocol/resp_parser.cpp:72-157 | Input that is waited for has a continuation that is a command, unless it ends inside a header line or with a stray byte behind a payload. |
| `RespGrammar.StrayFails` | src/protocol/resp_parser.cpp:138-147 | Input ending one byte behind a payload with something else than CR is still waited for, and every further byte makes it an error. |
| `RespGrammar.StrayInput` | src/protocol/resp_parser.cpp:138-147 | Such an input. |
| `StreamGrammar.ParseIntLaws` | src/protocol/resp_parser.cpp:31-41 | Only an optional minus and digits are a number; it must be a 64-bit value; leading zeros do not matter. |
| `StreamGrammar.DecimalExample` | src/protocol/resp_writer.cpp:35-57 | Numbers are decimal. |
| `RespStream.RunSplit` | src/net/server.cpp:278-311 | Cutting a stream anywhere: what the first part yields stays, and parsing goes on from its rest. |
| `StreamGrammar.RunFront` | src/net/server.cpp:278-311 | What stands first in the stream decides: a command without arguments is skipped, one that closes is the last, malformed text ends it, cut text is waited on. |
| `StreamGrammar.RunReads` | src/net/server.cpp:278-311 | Complete commands of which none closes are dispatched in order, and the rest is read as if it came first. |
| `StreamGrammar.RunMalformed` | src/net/server.cpp:289-297 | A stream ends as malformed exactly if malformed text follows complete commands of which none closes; it waits exactly if cut text does. |
| `StreamGrammar.NotAnArray` | src/protocol/resp_parser.cpp:83-86 | Input that does not start with an asterisk is an error at once and closes the connection. |
| `Buffers.Buffer.constructor` | src/net/buffer.h:11-50 | A new buffer is empty. |
| `Buffers.Buffer.Append` | src/net/buffer.cpp:5-8 | The contents grow by the bytes, whether or not the buffer compacts. |
| `Buffers.Buffer.Consume` | src/net/buffer.cpp:10-15 | The contents lose their first n bytes. |
| `Buffers.Buffer.MaybeCompact` | src/net/buffer.cpp:28-37 | Compacting, at whatever capacity, does not change the contents. |
| `Buffers.Buffer.PrepareWrite` | src/net/buffer.cpp:17-22 | The contents are kept in front of n reserved bytes. |
| `Buffers.Buffer.CommitWritten` | src/net/buffer.cpp:24-26 | Of the reservation exactly the written part becomes contents. |
| `Buffers.Buffer.Receive` | src/net/server.cpp:236-249 | One recv adds exactly the received bytes. |
| `RespStream.Connection.Process` | src/net/server.cpp:278-311 | Every complete command in the buffer is dispatched in order, up to an error or a closing command; the rest stays buffered. |
| `RespStream.Connection.HandleRead` | src/net/server.cpp:236-276 | After a wakeup the commands dispatched so far and the buffered rest are those of the whole stream so far, or the input limit was exceeded. |
| `RespStream.Serve` | src/net/server.cpp:236-311 | However a stream is cut into recv results and wakeups, the commands are those of the whole stream; exceeding the input limit can only cut the sequence short. |
| `RespWriter.WriteBulk` | src/protocol/resp_writer.cpp:41-47 | Appends length line, bytes and CRLF. |
| `RespWriter.SanitizeErrorText` | src/protocol/resp_writer.cpp:11-19 | Same length, every CR and LF blanked and nothing else changed. |
| `RespWriter.WriteError` | src/protocol/resp_writer.cpp:29-33 | Appends one error line with the cleaned text. |
| `RespWriter.WriteReply` | src/protocol/resp_writer.cpp:23-61 | A nested reply is appended depth first. |
| `RespWriter.WriteCommand` | src/protocol/resp_writer.cpp:41-57 | Appends a request: array header and bulk strings. |
| `RespWriter.CommandRoundTrip` | src/protocol/resp_parser.cpp:72-157 | A written command parses back to itself, consuming exactly its bytes whatever follows, if and only if it is within the parser's limits. |
| `RespWriter.CommandPrefix` | src/protocol/resp_parser.cpp:72-157 | Every strict prefix of a written command is Incomplete. |
| `StreamGrammar.WireCommand` | src/protocol/resp_writer.cpp:41-57 | A request's bytes. |
| `StreamGrammar.WireReplies` | src/protocol/resp_writer.cpp:23-61 | The bytes of simple strings, integers and the two nulls. |
| `StreamGrammar.WireError` | src/protocol/resp_writer.cpp:11-33 | The bytes of an error with a line break in it. |
| `StreamGrammar.WireArray` | src/protocol/resp_writer.cpp:53-57 | The bytes of an array reply. |
| `ReplyParser.ReadValue` | bench/loadgen/reply_parser.cpp:38-105 | The recursive scan with its cursor loop computes the definition of one reply. |
| `ReplyParser.ReadReply` | bench/loadgen/reply_parser.cpp:109-118 | Consumed length and error flag of the first reply. |
| `ReplyParser.ValueStable` | bench/loadgen/reply_parser.cpp:38-105 | A verdict on a prefix is final. |
| `ReplyGrammar.ValueVerdict` | bench/loadgen/reply_parser.cpp:38-105 | The scanner answers Ok exactly for the text of a value, and Error exactly for a wrong marker, a line that is no number or below -1, a payload without its CRLF, or a wrong element. |
| `ReplyParser.ReplyRoundTrip` | bench/loadgen/reply_parser.cpp:38-118 | Every nested reply with lines up to 512 bytes is consumed exactly, whatever follows, and flagged as an error exactly when it is one. |
| `ReplyParser.ReplyPrefix` | bench/loadgen/reply_parser.cpp:38-105 | Every strict prefix of a reply is Incomplete. |
| `ReplyParser.SimpleExact` | src/protocol/resp_writer.cpp:23-27 | Simple strings are not cleaned: one is consumed exactly, whatever follows, if and only if it holds no CRLF and has at most 512 bytes; a longer one without CRLF stays incomplete for ever. |
| `ReplyParser.FailureExact` | bench/loadgen/reply_parser.cpp:50-63 | An error, being cleaned, is consumed exactly if it has at most 512 bytes and otherwise never complete, whatever follows. |
| `ReplyParser.SimpleWithCrlf` | src/protocol/resp_writer.cpp:23-27 | The failing input: a simple string with a CRLF in the middle is consumed up to it only. |
| `HandOff.EveryRun` | src/util/thread_pool.cpp:16-56 | Every state of every interleaving of submit, notify, worker, stop, post and drain steps satisfies all the invariants below. |
| `HandOff.KeepsOrder` | src/util/thread_pool.cpp:27-46 | Tasks are taken once, in submission order; completions run once, in posting order. |
| `HandOff.KeepsAwake` | src/util/thread_pool.cpp:27-44 | While a worker sleeps, awake workers and coming notifications cover the queue. |
| `HandOff.KeepsDrained` | src/util/thread_pool.cpp:40-43 | Workers leave only after the stop, and the last one leaves an empty queue, although running tasks may still submit. |
| `HandOff.KeepsWakeup` | src/net/server.cpp:413-443 | A queued completion has a readable eventfd, a coming write, or a loop about to swap the queue. |
| `HandOff.KeepsFlag` | src/net/server.cpp:496-527 | The number of BGSAVEs queued, running or awaiting their completion is one if the flag is set and zero if not. |
| `HandOff.NothingDropped` | src/util/thread_pool.cpp:16-25 | When all workers have left, every submitted task was taken and none is running. |
| `HandOff.NoLostNotify` | src/util/thread_pool.cpp:27-44 | A queued task and a sleeping worker imply an awake worker or a coming notification. |
| `HandOff.ShutdownProgress` | src/util/thread_pool.cpp:16-25 | Until all workers have left after a stop, some worker step or the notification can be taken: the join cannot hang. |
| `HandOff.CompletionProgress` | src/net/server.cpp:413-443 | While a completion is queued or due, a loop step or the write that wakes it can be taken. |
| `HandOff.FlagMeaning` | src/net/server.cpp:496-527 | The flag is set exactly while a BGSAVE is outstanding, and never for two. |
| `Connections.Server.constructor` | src/net/server.cpp:81-82 | No connections. |
| `Connections.Server.Accept` | src/net/server.cpp:190-205 | A connection under the client limit joins the back of the list with read interest; over it nothing changes. |
| `Connections.Server.MarkActive` | src/net/server.cpp:387-390 | Activity refreshes the time and moves the connection to the back, keeping the list exact and in order of activity. |
| `Connections.Server.UpdateBackpressure` | src/net/server.cpp:340-354 | A paused connection has output to wait for; above the hard limit it is emptied and closing. |
| `Connections.Server.Settle` | src/net/server.cpp:356-367 | Skipping the system call when nothing changed leaves the kernel with exactly the interest the state asks for. |
| `Connections.Server.OnClientEvent` | src/net/server.cpp:210-234 | After an event a read interest is registered exactly if the connection neither closes nor is paused, a write interest exactly if it has output; the limits pause, resume and close it; no other connection changes. |
| `Connections.Server.SweepIdleConnections` | src/net/server.cpp:392-407 | The early exit marks exactly the connections a full scan would: those inactive for at least the timeout. |
| `Connections.Server.ReapClosed` | src/net/server.cpp:373-385 | Exactly the closing connections without output go, from table, list and kernel; every other has a read or write interest registered. |
| `Connections.Serve` | src/net/server.cpp:112-126 | Over any sequence of accepts, events, sweeps and reaps the list holds each connection once in order of activity, and after each reap every connection can be reached. |
| `Histograms.IndexMonotone` | bench/loadgen/histogram.cpp:31-38 | Larger samples never land in an earlier bucket. |
| `Histograms.IndexInRange` | bench/loadgen/histogram.cpp:31-38 | Every clamped sample has a bucket. |
| `Histograms.LowerBoundClose` | bench/loadgen/histogram.cpp:40-45 | A bucket's lower bound is below its samples by less than a thirty-second of the sample. |
| `Histograms.LatencyHistogram.constructor` | bench/loadgen/histogram.h:12-50 | No samples. |
| `Histograms.LatencyHistogram.Record` | bench/loadgen/histogram.cpp:17-29 | Each bucket counts its samples, and count, sum, minimum and maximum are those of all samples. |
| `Histograms.LatencyHistogram.AtRank` | bench/loadgen/histogram.cpp:61-69 | For every rank reached, the bound returned is within one part in 32 below the sample of that rank; the fallback after the loop is not reached. |
| `Histograms.Target` | bench/loadgen/histogram.cpp:58-60 | Between 1 and the count: the least rank that reaches the rounded share of the samples. |
| `Histograms.TargetExact` | bench/loadgen/histogram.cpp:58-60 | Where nothing is rounded, it is the least rank with at least the asked share of the samples up to it. |
| `Histograms.LatencyHistogram.Percentile` | bench/loadgen/histogram.cpp:47-70 | Zero without samples, exact at the ends, else lb <= x and 32 * (x - lb) < x for the sample x of the asked rank. |
| `AggregateValues.PutBackReads` | src/commands/cmd_hash.cpp:46-56 | A missing key and an empty aggregate cannot be told apart by the commands: what one leaves is what the next finds. |
| `AggregateValues.FieldsAfterAt` | src/commands/cmd_hash.cpp:71-77 | A field has the value of the last pair that names it, else its old one; arguments alternate field and value. |
| `AggregateValues.ZAddPlain` | src/commands/cmd_zset.cpp:253-269 | Without options a member has the score of the last pair that names it. |
| `AggregateValues.ZAddNx` | src/commands/cmd_zset.cpp:253-262 | With NX existing members keep their score and a new one has that of the first pair that names it. |
| `AggregateValues.ZAddXx` | src/commands/cmd_zset.cpp:253-262 | With XX no member is added and an existing one has the score of the last pair that names it. |
| `AggregateValues.PlusLaws` | src/commands/cmd_zset.cpp:323-328 | Scores add up as numbers before rounding; the sum fails exactly for infinities of opposite sign. |
| `AggregateCommands.GetOrCreate` | src/commands/cmd_hash.cpp:46-56 | The aggregate at the key, empty and stored if the key was missing; another type is refused and changes nothing. |
| `AggregateCommands.HSet` | src/commands/cmd_hash.cpp:60-79 | Later pairs win; the reply is how much the hash grew; a key of another type or a bad argument count changes nothing. |
| `AggregateCommands.HIncrBy` | src/commands/cmd_hash.cpp:217-244 | Every error path leaves the keyspace as it was: on a fresh hash the sum cannot overflow, so no empty hash is left behind. |
| `AggregateCommands.HDel` | src/commands/cmd_hash.cpp:121-143 | The named fields go, with the key if none is left; the reply is how much the hash shrank. |
| `AggregateCommands.Push` | src/commands/cmd_list.cpp:55-68 | Pushed at the front in reverse, or at the back in order; the reply is the new length. |
| `AggregateCommands.Pop` | src/commands/cmd_list.cpp:70-136 | The unguarded front or back exists; elements leave in order from the chosen end; the key goes with the last one. |
| `AggregateCommands.SAdd` | src/commands/cmd_set.cpp:57-71 | Union with the members named; the reply is the growth. |
| `AggregateCommands.SRem` | src/commands/cmd_set.cpp:73-94 | Difference with the members named; the reply is the loss; an emptied set takes its key along. |
| `AggregateCommands.SPop` | src/commands/cmd_set.cpp:137-196 | There is always a member to pick; the picks are different members, and exactly they leave. |
| `AggregateCommands.ZAdd` | src/commands/cmd_zset.cpp:221-271 | NX keeps existing scores, XX adds none, neither leaves an empty set; the reply is the growth, or with CH the number of pairs that changed the set. |
| `AggregateCommands.ZIncrBy` | src/commands/cmd_zset.cpp:313-333 | The only failing sum needs a member with an infinite score, however finite sums are rounded, so the error leaves no empty sorted set. |
| `AggregateCommands.ZRem` | src/commands/cmd_zset.cpp:273-293 | The named members go, with the key if none is left; the reply is the loss. |
| `AggregateCommands.ZPopMin` | src/commands/cmd_zset.cpp:504-550 | Each member popped, with its score, is the least of those left; an emptied set takes its key along. |
| `AggregateCommands.IncrBy` | src/commands/cmd_string.cpp:58-93 | A string is rewritten in place and keeps its TTL, a missing key starts from 0; a wrong type, a non-number or an overflow changes nothing. |
| `AggregateCommands.Append` | src/commands/cmd_string.cpp:259-277 | A string grows in place and keeps its TTL; the reply is the new length. |
| `AggregateCommands.ServeFrom` | src/commands/cmd_hash.cpp:48-79 | From any database without empty aggregates, for every sequence of commands and any expiry in between, no live key ever holds an empty hash, list, set or sorted set. |
| `AggregateCommands.ServeAll` | src/commands/cmd_hash.cpp:48-79 | From an empty database, for every sequence of commands, no live key ever holds an empty hash, list, set or sorted set. |
| `Restarts.LoadAndServe` | src/net/server.cpp:455-479 | Starting from a snapshot file: a refused one changes nothing; from an accepted one whose deciding records are not empty aggregates, no key ever holds one whatever is served. |
| `Restarts.RestartAndServe` | src/net/server.cpp:455-494 | Saving a database without empty aggregates, loading it at other clocks and serving from it: no key ever holds an empty aggregate. |

## Left out

- HashTables.HashTable.Find: returns the value, not the address of the node's value, and chains are sequences of entries rather than linked nodes; that a rehash step moves nodes without invalidating pointers is not captured.
- HashTables.HashTable.WriteThrough: the pointer returned by a lookup is modelled as a second access by key.
- AvlTrees.AvlTree.Erase: deallocation is the removal of the cell from the arena; destructors and manual freeing are not modelled.
- ExpiryHeaps.ExpiryHeap.Top: which of several equal deadlines comes first, and the heap's inner layout, are the standard library's business.
- SnapshotCodec.Enumerate: a sorted set is written in any order, the source writes it in score order; loading does not depend on it.
- SnapshotCodec.EncodeSnapshot: asks for deadlines up to the bound of `SnapshotCodec.ConvertibleExact`; beyond it the source's addition overflows a signed integer and has no defined result.
- SnapshotCodec.SaveAndLoad: asks for what the file's fields can hold (strings and containers below 2^32, below 2^64 keys); `SnapshotFormat.ParseEncode` proves that nothing else reads back.
- SnapshotCodec.DecodeOneRecord: the offset arithmetic is unbounded; error texts are not modelled.
- AggregateCommands.ZIncrBy: the sign of a zero and NaN scores are not represented.
- AggregateCommands.ZPopMin: works on the map of scores; the loop over tree and dictionary is `ZPops.ZPopMin`, and `ZPops.PoppedListing` says that both pop the same.
- AggregateCommands.HIncrBy: the decimal conversions are parameters.
- Histograms.Target: asks of the rounding of `p * count` that it stays between 0 and the count, which doubles promise up to counts of 2^53; the running sum of latencies does not wrap.
- RespStream.Connection.HandleRead: covers open connections; end of file, errors of recv and what happens to input after a connection started closing are not modelled.
- RespStream.Connection.Process: dispatching a command is its entry in a log, and whether it closes the connection is a parameter.
- Connections.Server.OnClientEvent: what reading, commands and writing do to the output buffer is a parameter, any size.
- HandOff.EveryRun: there is at least one worker, as the configuration demands (src/config.cpp:104-111); a task that throws before posting its completion, and a failing eventfd write, are not modelled.
- random_entry of the hash table, FNV-1a and the random number generator: any choice and any function are allowed for.
- Reading and writing snapshot files, SAVE racing BGSAVE, LASTSAVE: file-system effects.
- Sockets, epoll, signals, timers, accept errors, configuration and logging: no logic to prove.
- Decimal floating-point parsing and printing, and double_as_bulk: the standard library's conversions.
- Read-only handlers, SET's options and the multi-key string commands, SINTER, command lookup and the stub commands: they would only add easy members.
