# nano_redis: a model in Dafny

This project models the core of nano_redis, a sharded in-memory store that speaks the Redis
protocol, and proves what that core promises. It consists of Dafny 4.11 modules;
`dafny verify dfyconfig.toml` checks all of them.

What is modelled, from the bottom up:

- **The task ring between shards** (`TaskRing`): the bounded multi-producer, multi-consumer queue as
  a state machine whose steps are single atomic accesses, over every interleaving of any number of
  threads.
- **The hash table inside a segment** (`BucketIndex`, `HashTable`): Robin Hood hashing over a dense
  list of values, with the 32-bit distance-and-fingerprint field, displacement, backward-shift
  erase and rehash, against the abstract map.
- **The extendible-hashing directory** (`Directory`, `Growth`, `DashTable`): the invariant of the
  directory, doubling, splitting and traversal, first on values and then as objects that share
  segments; `Growth` tells from the directory before an insertion what shape it will have after it.
- **Snapshots without fork** (`Snapshot`, `SliceSnapshot`): the cursor, the segment versions and the
  callback before a modification, over every run of writers and cursor.
- **Persistence** (`Crc32`, `Nrdb`, `RdbSerializer`, `RdbLoader`): the NRDB file format as pure
  functions, the writer and the reader as objects proved against them, the round trip, and which
  damage the checksum detects.
- **Keys and expiry** (`Decimal`, `NanoObj`, `Expiry`, `Database`): canonical key objects, the pair of
  tables with deadlines, and its refinement of a table whose entries vanish at their deadline.
- **Commands over shards** (`Scatter`, `Crowding`, `Commands`): DEL, EXISTS, MSET and MGET in both
  branches, on one shard and by groups over several, for any arguments, exactly when the branches
  agree, and exactly when the directory of a shard has no room for one of the written keys.
- **The protocol** (`Frames`, `Resp`, `RespParser`) and **glob patterns** (`Glob`); `Frames` is what
  reading back and reading a cut form have in common for any list of framed items.

`Powers`, `Sequences` and `Options` hold powers of two and shifts, concatenations and the option type.

Objects that the source updates in place are classes; an operation on them is proved against a pure
function, and the laws are lemmas about that function. Clocks and times are parameters (`now`).
Lists of bytes are sequences, and integer widths are written out where they matter.

## Where the code does not do what one might expect

The model follows the code. Where a plausible law fails, a lemma names an input and another gives
the exact condition:

- `HashTable.MovedFromKeyMisleadsErase`, `HashTable.NullStartsAtZero` and `HashTable.Table.EraseFrom`:
  splitting a segment moves the key out before erasing by iterator; a moved-from key hashes to 0, so
  the search by index can stop at an empty bucket, and then no index fits the table any more.
  `HashTable.Table.MoveUpper` says of the whole transfer loop when that does not happen.
- `Snapshot.DoublingSkipsASegment`, `Snapshot.InsertCursorExact` and `Snapshot.EveryRunIsPointInTime`:
  the snapshot cursor is not rescaled when the directory doubles. Nothing wrong or double is ever
  written, but a segment can be left out. `Snapshot.CursorSafe` says from the directory before an
  insertion whether the cursor survives it, and `Snapshot.StartIsReached` that the start of the
  counterexample arises from an empty table by two insertions.
- `Commands.NullDeletesTheEmptyKey` and `Commands.DelAgrees`, `Commands.ExistsAgrees`,
  `Commands.MGetAgrees`, `Commands.MSetAgrees`: a null argument means no key on one shard and the
  empty key on several.
- `Commands.NullsStall`, `Commands.OnlyNullsStall` and `Crowding.NullsNeverPart`: a null is equal to
  nothing, so each write under a null key adds an entry, and all of them hash to 0. With as many of
  them as the split threshold, no depth separates them and MSET on one shard never ends.
- `Commands.MSetMeans`: a key that is due and named once is gone after MSET; named twice it has its
  last value.
- `Nrdb.EntrySurvives`: keys in integer form are written as the empty string.
- `Glob.StarInTextMisleads` and `Glob.GlobIsExactWithoutStars`: a star in the text is taken literally
  before the star of the pattern is looked at.
- `Expiry.SetCommandCanLoseTheValue` and `Expiry.SetCommandTakesEffect`: SET writes before it prunes.
- `Resp.PrefixParses`: the terminator of the last bulk string is never checked, so a command can be
  accepted before it has arrived completely.
- `Directory.InsertBalances`: when too many keys share a prefix, no allowed depth separates them and
  the split loop does not reach its goal (`Directory.SeparableIff` counts them).

## Model

| member | source | states |
|---|---|---|
| TaskRing.EveryRunSafe | src/core/task_queue.cc:65-108 | For every capacity of at least 2, any number of threads and every interleaving of their atomic steps: claimed but untaken tickets never exceed the capacity, a ticket's task is handed out at most once and is what that ticket's producer put in, no two threads are inside one cell, a cell is filled only when empty and emptied only by its ticket's consumer |
| TaskRing.StepInv | src/core/task_queue.cc:65-108 | The cell, thread and history invariant survives every single atomic step of `TryEnqueue` and `TryDequeue`, successful or not |
| TaskRing.RunInv | src/core/task_queue.cc:65-108 | The same over a whole schedule, from any state that has the invariant |
| TaskRing.InvSafe | src/core/task_queue.cc:65-108 | The per-cell sequence-number invariant implies the safety statement about tickets, tasks and exclusive access |
| TaskRing.InitialInv | src/core/task_queue.cc:41-49 | The constructed ring, cell i carrying sequence i, has the invariant |
| TaskRing.EnqueueFalseIsSound | src/core/task_queue.cc:65-84 | A sequence read makes `TryEnqueue` return false exactly when the previous lap's task of that cell has not been released at that moment |
| TaskRing.SequenceTells | src/core/task_queue.cc:86-108 | On a head position read at any earlier time, the sequence test says whether the task of that ticket is published at the moment of the test |
| TaskRing.DequeueFalseIsSound | src/core/task_queue.cc:86-108 | A sequence read makes `TryDequeue` return false exactly when that ticket's task has not been published at that moment |
| TaskRing.HistoryGrows | src/core/task_queue.cc:65-108 | Tickets are handed out in order and never reassigned: the lists of producers, consumers and receipts only grow over a run |
| TaskRing.EmptyIsExact | src/core/task_queue.cc:173-178 | Whatever other threads do between its two reads, `Empty` says yes exactly when the task of the head it read is not published at the second read; at rest that is when no ticket is left to take |
| TaskRing.Drain | src/core/task_queue.cc:51-63 | The destructor's loop ends and destroys every remaining task exactly once, in ticket order, and nothing else |
| TaskRing.NothingLost | src/core/task_queue.cc:51-63 | In a quiescent queue a ticket was received by a consumer exactly when it is not left for the destructor: tasks are conserved |
| TaskRing.RoundUpPowerOfTwo | src/core/task_queue.cc:30-39 | The least power of two that is at least 2 and at least the requested size, in 64-bit arithmetic, for every size up to 2^63 |
| TaskRing.DoublingNeverReaches | src/core/task_queue.cc:30-39 | For every size above the largest power of two of the word, no number of turns of the doubling loop reaches it |
| BucketIndex.ChainBack | include/core/unordered_dense.h:1028-1059 | An entry displaced from its home has, in the bucket before it, an entry at least as displaced minus one: chains have no gaps |
| BucketIndex.ProbeNeverEarly | include/core/unordered_dense.h:1258-1299 | No bucket between a key's home and its entry is empty or holds a smaller distance, so stopping on a smaller one cannot miss it |
| BucketIndex.EmptyExists | include/core/unordered_dense.h:1041-1048 | With fewer entries than buckets some bucket is empty, however the entries lie |
| BucketIndex.Displace | include/core/unordered_dense.h:1041-1048 | Swapping the carried entry with a bucket's keeps the order of distances and hands on an entry that again fits one bucket further |
| BucketIndex.Settle | include/core/unordered_dense.h:1041-1048 | Dropping the carried entry into an empty bucket restores the full index, one bucket for each value and back |
| BucketIndex.ShiftDown | include/core/unordered_dense.h:1050-1059 | Moving the next entry one bucket back into the hole keeps every other entry in order and moves the hole on |
| BucketIndex.ShiftDownMeasure | include/core/unordered_dense.h:1050-1059 | Each backward shift lowers the sum of stored distances, so the shifting ends also when every bucket is occupied |
| BucketIndex.ClearHole | include/core/unordered_dense.h:1050-1059 | Clearing the bucket before an empty or home entry leaves an index of exactly the other values |
| BucketIndex.Relabel | include/core/unordered_dense.h:1163-1185 | Renaming the last value's index in its bucket is what the swap with the last value needs |
| HashTable.Table.constructor | include/core/unordered_dense.h:1137-1147 | An empty table has the bucket invariant and holds the empty map |
| HashTable.Table.Find | include/core/unordered_dense.h:1258-1299 | A value is returned if and only if the key is in the map, and it is the map's value; the two unrolled probes and the early exit miss nothing, and the loop ends on a full table |
| HashTable.Table.NextWhileLess | include/core/unordered_dense.h:1028-1039 | The walk stops at the first bucket that is not richer than the probe |
| HashTable.Table.PlaceAndShiftUp | include/core/unordered_dense.h:1041-1048 | The displacement loop always reaches an empty bucket, even at load factor 1, and indexes the new value without losing another |
| HashTable.Table.ClearAndFill | include/core/unordered_dense.h:1137-1147 | The buckets rebuilt from the list of values alone index every value again; the values are outside its frame |
| HashTable.Table.IncreaseSize | include/core/unordered_dense.h:1149-1161 | Afterwards there are twice the buckets, the capacity fits them, and every value is indexed again |
| HashTable.Table.PlaceElement | include/core/unordered_dense.h:1217-1234 | Adding an absent key, with or without growing, gives the old map with that one key added |
| HashTable.Table.TryEmplace | include/core/unordered_dense.h:1236-1256 | An existing key leaves the map alone and is reported; an absent key is added with its value |
| HashTable.Table.InsertOrAssign | include/core/unordered_dense.h:1208-1215 | The map becomes the old one with the key bound to the value, in both cases |
| BucketIndex.ShiftedOk | include/core/unordered_dense.h:1050-1059 | The whole backward shift, told from the buckets before it, keeps the order and links every other value |
| HashTable.Table.EraseAndShiftDown | include/core/unordered_dense.h:1050-1059 | The loop gives the buckets told from before: the hole left by a removed entry is closed and every other entry is still indexed; from an empty bucket nothing changes |
| HashTable.Table.DoErase | include/core/unordered_dense.h:1163-1185 | Exactly one key leaves the list of values, the last value taking its place; the index is whole again if the bucket was occupied, and cannot be made whole by any assignment of buckets if it was empty |
| HashTable.Table.FindToErase | include/core/unordered_dense.h:1187-1206 | Stops at the key's own bucket if and only if the key is in the map |
| HashTable.Table.Erase | include/core/unordered_dense.h:1187-1206 | The map loses exactly the erased key and the answer says whether it was there |
| HashTable.Table.EraseFrom | include/core/unordered_dense.h:1785-1796 | Erasing by position with a key that hashes to any bucket, intact or moved away: one key leaves the values, and the rest is still a table if and only if the position is not 0 or no empty bucket lies between that bucket and the entry's |
| HashTable.Table.MoveOne | src/core/dashtable.cc:187-193 | One turn of the transfer between two tables, find, insert by move and erase: exactly this key changes over, and the source is still a table if and only if the buckets before the call say so |
| HashTable.Table.MoveUpper | src/core/dashtable.cc:176-194 | The whole transfer loop on two tables: every turn leaves a table if and only if, told from the state before the loop, each moved entry that is at position 0 at its turn is found from bucket 0 without meeting an empty one; then the entries are divided between two valid tables by the next bit, none lost or doubled |
| HashTable.Table.EraseAt | include/core/unordered_dense.h:1785-1796 | With an intact key, exactly the key that stood there leaves a valid table |
| HashTable.SearchByIndex | include/core/unordered_dense.h:1785-1796 | Searching a bucket by value index from any start finds the entry's own bucket if and only if the index is positive or no empty bucket lies before it |
| HashTable.HomeHasNoGap | include/core/unordered_dense.h:1785-1796 | From the key's own home bucket there is never such a gap, so erasing with an intact key is right |
| HashTable.NullStartsAtZero | include/core/unordered_dense.h:428-446 | A null object hashes to 0 and every search for it starts at bucket 0, whatever the size of the table |
| HashTable.MovedFromKeyMisleadsErase | src/core/dashtable.cc:187-192 | A concrete table of one entry in which the search from bucket 0 stops at an empty bucket: the case that `EraseFrom` excludes |
| HashTable.Table.MaxLoadFactor | include/core/unordered_dense.h:1993-1998 | Changing the load factor keeps the map and the invariant |
| HashTable.Table.Clear | include/core/unordered_dense.h:1499-1502 | Afterwards the map is empty and the invariant holds |
| Directory.SameRun | src/core/dashtable.cc:141-201 | Each segment owns one aligned run of 2^(global - local depth) slots that starts at its id, and slots outside the run belong to others |
| Directory.KeysAtHome | src/core/dashtable.cc:126-133 | Every stored key lies in the segment that its hash prefix selects, and in no other |
| Directory.DoubleOk | src/core/dashtable.cc:145-162 | Doubling the directory keeps the directory invariant and the contents |
| Directory.SplitOk | src/core/dashtable.cc:164-200 | Splitting a segment by the next hash bit keeps the invariant and neither loses nor duplicates an entry |
| Directory.SplitOnceOk | src/core/dashtable.cc:141-201 | One split, doubling first where needed, keeps the contents, deepens the key's segment by one and lets every new slot descend from an old one |
| Directory.PutOk | src/core/dashtable.cc:51-66 | Writing into the key's own segment is the update of the abstract map |
| Directory.RemoveOk | src/core/dashtable.cc:85-94 | Erasing from the key's own segment removes the key from the abstract map and nothing else |
| Directory.Insert | src/core/dashtable.cc:51-66 | After the split loop and the write the invariant holds and the abstract map is the old one with the key bound to the value |
| Directory.SegmentIsPrefixClass | src/core/dashtable.cc:126-133 | A segment holds exactly the stored keys that share the local-depth prefix of its hash |
| Directory.SeparableIff | src/core/dashtable.cc:51-66 | Some allowed depth separates a key from its neighbours if and only if fewer keys than the threshold share its first 31 bits |
| Directory.InseparableStaysFull | src/core/dashtable.cc:51-66 | If as many share them, the key's segment is full on every directory with these contents, however often it was split |
| Directory.SplittingStops | src/core/dashtable.cc:51-66 | Starting from tables below the threshold, the split loop ends with every segment below it if and only if some allowed depth separates the keys that share the new key's prefix |
| Directory.InsertBalances | src/core/dashtable.cc:51-66 | Insert leaves every segment of the table, not only the key's, below the threshold if and only if that separating depth exists |
| Directory.RemoveBalanced | src/core/dashtable.cc:85-94 | Erasing keeps every segment below the threshold |
| Directory.ClearedOk | src/core/dashtable.cc:96-101 | Emptying all segments keeps the directory valid and leaves the empty map |
| Growth.SplitOnceSplits | src/core/dashtable.cc:141-201 | One split deepens the key's segment by one in both halves, every other segment keeps its depth, and no slot outside the old segment joins the key's |
| Growth.GrownSlot | src/core/dashtable.cc:51-66 | The depth of the directory and of the segment at every slot after the whole split loop, told from the directory before it: outside the key's old segment as before, inside it where the slot leaves the key's path |
| Growth.InsertGrows | src/core/dashtable.cc:51-66 | The same for an insertion, from the stored keys and the new key |
| Growth.StartAfterInsert | src/core/dashtable.cc:51-66 | A slot number is the start of a segment's run after an insertion if and only if the directory before it says so |
| Growth.NoDoublingIsSafe | src/core/dashtable.cc:51-66 | Without doubling every start of a run stays one |
| Directory.TraversalCoversAll | src/core/dashtable.cc:203-210 | The traversal by `NextSeg` from slot 0 meets every segment once: the tables it meets add up to the contents |
| Directory.SizeIsExact | src/core/dashtable.cc:103-110 | The sum over the traversal is the number of keys of the abstract map |
| DashTable.Dash.constructor | src/core/dashtable.cc:8-20 | The new table is valid and empty |
| DashTable.Dash.Find | src/core/dashtable.cc:73-83 | Answers with the map's value for the key, or none |
| DashTable.Dash.Insert | src/core/dashtable.cc:51-66 | On the object graph with shared segments: valid, the map is updated at the key, a table with every segment below the threshold stays so, and the directory is the one of the value-level insert |
| DashTable.Dash.SplitWhileFull | src/core/dashtable.cc:51-66 | The loop of splits on the object graph equals the value-level loop and keeps the contents |
| DashTable.Dash.DoubleDirectory | src/core/dashtable.cc:145-162 | The in-place descending loop makes slot i of the new directory what slot i/2 was, and re-bases every segment id once |
| DashTable.Dash.SplitSegment | src/core/dashtable.cc:141-201 | The new and the old segment and the redirected slots are those of the value-level split |
| DashTable.Dash.MoveUpper | src/core/dashtable.cc:176-194 | The keys with the next bit set move to the new segment and the others stay |
| DashTable.Dash.Redirect | src/core/dashtable.cc:196-200 | Exactly the upper half of the run points to the new segment |
| DashTable.Dash.Erase | src/core/dashtable.cc:85-94 | The map loses the key, the answer says whether it was there, and every segment stays below the threshold |
| DashTable.Dash.Clear | src/core/dashtable.cc:96-101 | The map is empty, the directory still valid with its shape and versions, every segment below the threshold |
| DashTable.Dash.Size | src/core/dashtable.cc:103-110 | The number of keys of the map |
| DashTable.Dash.ForEachInSeg | include/core/dashtable.h:53-61 | Lists each pair of one segment exactly once |
| DashTable.Dash.ForEach | include/core/dashtable.h:43-51 | Lists each pair of the map exactly once |
| DashTable.Dash.SetSegVersion | include/core/dashtable.h:79-81 | Changes the version of one segment, seen through all its slots, and no entry, and keeps every segment below the threshold |
| Snapshot.EveryRunIsPointInTime | src/server/slice_snapshot.cc:38-105 | For every interleaving of inserts, erases and cursor steps, doubling or not, and at every moment of it: what was written is exactly the unexpired entries at the start, each once and as it was, but for those whose segment is still pending; so the snapshot is complete if and only if none of them is pending |
| Snapshot.SafeSnapshotIsComplete | src/server/slice_snapshot.cc:38-105 | If every insertion of the run, judged by the state before it, leaves the cursor at the start of a run, the finished snapshot is complete, also across doublings |
| Snapshot.SnapshotIsPointInTime | src/server/slice_snapshot.cc:38-105 | In particular the finished snapshot is complete for every interleaving in which the global depth ends as it began |
| Snapshot.RunPoint | src/server/slice_snapshot.cc:63-105 | No run, with any cursor, ever makes a wrong or second entry or changes one that is pending |
| Snapshot.RunKeeps | src/server/slice_snapshot.cc:38-105 | In every state of a run of safe insertions everything before the cursor is written and the cursor is between runs |
| Snapshot.StepKeeps | src/server/slice_snapshot.cc:63-105 | A single step keeps that invariant if and only if it is not an insertion that the state before it calls unsafe for the cursor |
| Snapshot.CompleteIffNothingPending | src/server/slice_snapshot.cc:38-61 | A point-in-time picture is complete if and only if no entry live at the start is in a segment that has not been written |
| Snapshot.DoneIsComplete | src/server/slice_snapshot.cc:38-61 | A cursor at the directory's end, everything before it written, leaves nothing pending |
| Snapshot.InsertCursorExact | src/core/dashtable.cc:51-66 | An insertion keeps everything before the cursor written and the cursor between runs if and only if `CursorSafe` held before the call: computed from the stored keys, the new key, the depths and the cursor alone |
| Snapshot.SafeCursors | src/core/dashtable.cc:51-66 | No cursor is unsafe for an insertion that does not double, and cursor 0 is safe for all |
| Snapshot.OffStartSkips | src/server/slice_snapshot.cc:38-61 | From a cursor inside a run the next step goes past the start of the following run without having looked at it |
| Snapshot.DoublingSkipsASegment | src/server/slice_snapshot.cc:38-61 | A concrete run, from the start of a snapshot on, in which the directory doubles under the cursor and the finished snapshot lacks an entry it should have |
| Snapshot.StartIsReached | src/core/dashtable.cc:51-66 | The directory at the start of that run is what an empty table becomes by inserting two keys, splits and doubling included |
| SliceSnapshot.Slice.SerializeSegment | src/server/slice_snapshot.cc:63-93 | Hands over each unexpired entry of one segment once, with its deadline or 0 |
| SliceSnapshot.Slice.OnPreModify | src/server/slice_snapshot.cc:95-105 | Is the marking step of the protocol: an unserialized segment is written and stamped before it changes, a stamped one is left alone |
| SliceSnapshot.Slice.Insert | src/core/dashtable.cc:51-66 | Callback, then insert, is one step of the protocol from every cursor position |
| SliceSnapshot.Slice.Erase | src/core/dashtable.cc:85-94 | Callback, then erase, is one step of the protocol from every cursor position |
| Snapshot.TurnsWriteAll | src/server/slice_snapshot.cc:38-61 | The serializing loop without writers adds exactly the content at its start to whatever the serializer already held |
| SliceSnapshot.Slice.SerializeDB | src/server/slice_snapshot.cc:38-61 | Run undisturbed, the loop adds exactly the unexpired entries of the table, each once, to what the serializer had received from other databases, and leaves the contents alone |
| Crc32.BuildCrc32 | src/core/rdb_serializer.cc:13-23 | The branch-free bit loop computes the CRC-32 register function of the bytes, continued from an earlier checksum |
| Crc32.ChecksumSplit | src/core/rdb_serializer.cc:42-55 | Continuing the checksum of a with b is the checksum of a followed by b: grouping into calls does not matter |
| Crc32.SumsIsSum | src/core/rdb_serializer.cc:42-55 | A number is what every way of cutting the bytes into two calls gives if and only if it is the checksum of all of them |
| Crc32.MatchesTableForm | src/core/rdb_serializer.cc:13-23 | Eight bit steps are one step of the table-driven form in section 8 of RFC 1952 |
| Crc32.BurstChangesSum | src/core/rdb_serializer.cc:13-23 | Any change within four consecutive bytes, anywhere in data of any length, changes the checksum |
| Nrdb.ReadLenOfLeb | src/core/rdb_loader.cc:58-79 | Every 64-bit length takes at most ten bytes and is read back, whatever follows |
| Nrdb.Int64RoundTrip | src/core/rdb_loader.cc:106-114 | The eight little-endian bytes of an int64, negative ones included, give the int64 back |
| Nrdb.ReadObjectOfData | src/core/rdb_loader.cc:94-184 | The bytes written for a string, integer, hash, set or list are read back as that value, leaving what follows |
| Nrdb.ReadEntry | src/core/rdb_loader.cc:248-304 | One record with its optional database and expiry marks is handed over with the right database and deadline, for every state of loader and writer that can meet |
| Nrdb.ReadAll | src/core/rdb_loader.cc:248-304 | All records up to the end mark are handed over in order |
| Nrdb.LoadOfFile | src/core/rdb_loader.cc:238-306 | For every list of entries, loading the written file passes header and checksum and hands over what each entry becomes, in order |
| Nrdb.DamageIsDetected | src/core/rdb_loader.cc:225-236 | A loadable file with up to four consecutive bytes changed before its checksum is refused, if its records can still be read up to the same end mark |
| Nrdb.EntrySurvives | src/core/rdb_serializer.cc:239-263 | What an entry becomes is the same entry if and only if its key has the string form, its value is not null and its expiry is not negative |
| Nrdb.RoundTrip | src/core/rdb_loader.cc:238-306 | Position by position, the loaded entry equals the written one if and only if that condition holds |
| RdbSerializer.EncodeLen | src/core/rdb_serializer.cc:61-76 | The loop never overruns its ten-byte buffer and produces the LEB128 form |
| RdbSerializer.Serializer.WriteRaw | src/core/rdb_serializer.cc:42-55 | Appends the bytes, and the running checksum stays the checksum of everything since the header |
| RdbSerializer.Serializer.SaveLen | src/core/rdb_serializer.cc:61-76 | Appends the LEB128 form of the length, checksum kept |
| RdbSerializer.Serializer.SaveString | src/core/rdb_serializer.cc:78-84 | Appends length and bytes, checksum kept |
| RdbSerializer.Serializer.SaveHashObject | src/core/rdb_serializer.cc:92-112 | Appends the count and every field with its value in order |
| RdbSerializer.Serializer.SaveSetObject | src/core/rdb_serializer.cc:114-130 | Appends the count and every member in order |
| RdbSerializer.Serializer.SaveListObject | src/core/rdb_serializer.cc:132-154 | Appends the count and the text of every item in order |
| RdbSerializer.Serializer.SaveObjectData | src/core/rdb_serializer.cc:182-201 | Appends the encoding of the value and fails on sorted sets only, for which nothing is appended |
| RdbSerializer.Serializer.SaveSelectDb | src/core/rdb_serializer.cc:224-237 | Appends a database mark only when the database changes |
| RdbSerializer.Serializer.SaveEntry | src/core/rdb_serializer.cc:239-263 | Appends exactly the record that the format prescribes after the last database written |
| RdbSerializer.Serializer.SaveHeader | src/core/rdb_serializer.cc:203-222 | Restarts the checksum and appends the 26-byte header |
| RdbSerializer.Serializer.SaveFooter | src/core/rdb_serializer.cc:265-272 | Appends the end mark and the checksum of everything from the header to that mark |
| RdbSerializer.SaveToFile | src/command/server_family.cc:93-157 | A file is produced if and only if no entry is a sorted set, and it is the file of exactly these entries, with shard id 0 |
| RdbLoader.Loader.ReadRaw | src/core/rdb_loader.cc:39-52 | Gives the next bytes or fails, and the running checksum stays that of everything read |
| RdbLoader.Loader.ReadLen | src/core/rdb_loader.cc:58-79 | The accumulating loop with its 64-bit wrap and its limit of eleven bytes reads exactly what the format function reads, on all inputs |
| RdbLoader.Loader.ReadString | src/core/rdb_loader.cc:81-92 | Agrees with the format function on all inputs: the bytes, or failure when they are missing |
| RdbLoader.Loader.ReadObject | src/core/rdb_loader.cc:94-184 | Agrees with the format function for every tag and all inputs: the value, or failure |
| RdbLoader.Loader.LoadHeader | src/core/rdb_loader.cc:186-223 | Succeeds exactly on 26 bytes with the magic and the expected shard id |
| RdbLoader.Loader.LoadFooter | src/core/rdb_loader.cc:225-236 | Succeeds exactly when four bytes follow that hold the checksum of everything summed so far |
| RdbLoader.Loader.LoadRecords | src/core/rdb_loader.cc:248-304 | Hands over, in order, the entries of the longest readable prefix, also when the load fails later |
| RdbLoader.Loader.Load | src/core/rdb_loader.cc:238-306 | On every byte string: the entries handed over and the verdict are those of the format function |
| Decimal.String2ll | src/core/util.cc:7-83 | A byte string is accepted with value v if and only if it is the canonical decimal text of v and v is an int64 |
| Decimal.ParseDigits | src/core/util.cc:7-83 | The unsigned accumulator never wraps: the loop succeeds, with the number the digits denote, if and only if there are only digits and that number has at most 64 bits |
| Decimal.TextValueOfText | src/core/util.cc:7-83 | The text of an int64 denotes that int64 |
| NanoObj.SetStringKey | src/core/nano_obj.cc:326-335 | Builds the canonical key object of the text |
| NanoObj.MaybeConvertToInt | src/core/nano_obj.cc:361-372 | Turns an object into the integer form exactly when its bytes are the text of an int64 |
| NanoObj.KeyRoundTrip | src/core/nano_obj.cc:187-198 | The text of a key object is the original text if and only if it is at most 65535 bytes long |
| NanoObj.KeyEquality | src/core/nano_obj.cc:395-405 | Two keys are equal as objects if and only if their texts are equal |
| NanoObj.EqualObjectsHashEqually | include/core/unordered_dense.h:428-446 | Objects that compare equal have equal hashes, whatever their storage form |
| NanoObj.KeyFromText | src/core/nano_obj.cc:110-114 | A key object rebuilt from its own text is the same object |
| NanoObj.SameIsNorm | src/core/nano_obj.cc:395-405 | Two objects are equal if and only if neither is null and both have the same content in canonical form; the null object is equal to nothing, not even itself |
| NanoObj.RebuiltArg | src/command/string_family.cc:187-210 | An argument sent as its text and rebuilt on a shard is equal to what it was, except that a null becomes the empty string |
| Glob.GlobMatch | src/command/server_family.cc:163-193 | The loop ends, computes the one-star backtracking function, and on texts without a star equals the recursive meaning of `*` and `?` |
| Glob.LastStarSuffices | src/command/server_family.cc:163-193 | If a match exists that gives an earlier star more text, one exists with only the last star giving way: forgetting earlier stars is safe |
| Glob.LoopDecides | src/command/server_family.cc:163-193 | From every loop state the loop's verdict is the recursive meaning of the whole pattern |
| Glob.StarInTextMisleads | src/command/server_family.cc:163-193 | For every text that contains a star there is a pattern that matches it and is rejected |
| Glob.GlobIsExactWithoutStars | src/command/server_family.cc:163-193 | The matcher is right for all patterns on a text if and only if the text has no star |
| Expiry.PruneIsInvisible | src/core/database.cc:214-226 | Pruning a key that is due keeps every key with a deadline in the main table and changes nothing that can be seen from now on |
| Expiry.PruneAllIsSeen | src/core/database.cc:55-70 | With everything due dropped, the main table holds exactly the keys that can be seen now |
| Expiry.StepRefines | src/core/database.cc:17-206 | Every operation keeps deadlines within the main table, answers like a table whose entries vanish at their deadline, and shows the same from now on (a `Set` only on a key that is not due) |
| Expiry.StepServes | src/core/database.cc:17-206 | The same as seen by a caller, for all later times at once: the answer and the view are those of the simple table |
| Expiry.RefinesNeedsFresh | src/core/database.cc:28-36 | That holds for an operation if and only if it is not a `Set` on a key that is due and still stored |
| Expiry.RunRefines | src/core/database.cc:17-206 | Over whole runs with forward-moving times and expiry cycles anywhere: the answers are those of the simple table, so pruning cannot be observed |
| Expiry.StepOk | src/core/database.cc:17-206 | Every operation, without exception, keeps deadlines within the main table |
| Expiry.SetCommandTakesEffect | src/command/string_family.cc:144-149 | SET makes the new value visible with its new deadline if and only if the old entry was not due; otherwise what can be seen is unchanged |
| Expiry.SetCommandCanLoseTheValue | src/command/string_family.cc:144-149 | A concrete key one millisecond late whose new value is gone after SET |
| Expiry.Deadline | src/core/database.cc:134-139 | Now plus the time to live, capped at the largest int64 without overflow |
| Database.Database.constructor | src/core/database.cc:6-11 | Sixteen empty databases, the first selected |
| Database.Database.PruneExpiredInDB | src/core/database.cc:219-226 | Removes a due key from both tables of one database and touches no other |
| Database.Database.Find | src/core/database.cc:113-117 | Answers with the value that can be seen now, or none, and changes nothing that can be seen at any later time; only this database is touched |
| Database.Database.Set | src/core/database.cc:28-36 | Binds the key in the main table and leaves its deadline; at every time at which the key is not due that is what can be seen, and all else shows as before |
| Database.Database.Del | src/core/database.cc:38-47 | Exactly this key leaves what can be seen, now and later; the answer says whether it could be seen |
| Database.Database.Exists | src/core/database.cc:49-53 | Answers whether the key can be seen, and changes nothing that can be seen |
| Database.Database.Expire | src/core/database.cc:119-141 | A key that can be seen gets the capped deadline, or goes at once for a non-positive time to live; otherwise false and nothing changes that can be seen |
| Database.Database.Persist | src/core/database.cc:143-151 | A key that can be seen loses its deadline and is seen from then on; the answer says whether it had one |
| Database.Database.TTL | src/core/database.cc:153-174 | -2, -1 or whole seconds left, from what can be seen; the second test for a due deadline never succeeds |
| Database.Database.KeyCount | src/core/database.cc:55-70 | The number of keys that can be seen; the main table holds exactly these afterwards |
| Database.Database.Keys | src/core/database.cc:92-111 | Lists each key that can be seen once; the main table holds exactly these afterwards |
| Database.Database.ActiveExpireCycle | src/core/database.cc:176-206 | In each database drops the due keys among those scanned, a scan stopping only at its limit; the answer is the number of entries gone from all main tables |
| Database.Database.SetWithTtl | src/command/string_family.cc:144-149 | The database part of SET: the value, then a deadline or none |
| Scatter.ServePart | src/command/string_family.cc:197-216 | A request for a shard's key does the same on the shard as on the whole; a request for another shard's key leaves this shard's part alone |
| Scatter.PartFollows | src/command/string_family.cc:197-216 | Serving its own requests in order keeps each shard the right part of the whole after all requests |
| Scatter.ShardAnswers | src/command/string_family.cc:197-216 | The answer given on the shard is the one that a single shard holding everything gives at that position of the command |
| Scatter.GroupByShard | src/command/string_family.cc:187-195 | Each group holds exactly the requests for its shard, in their order |
| Scatter.ServeGroup | src/command/string_family.cc:200-214 | One shard's loop: rebuilds each key from its text, serves in order, files each answer at its position and counts the successes |
| Scatter.VisitGroups | src/command/string_family.cc:199-217 | In whatever order the groups are visited, every shard has served its own requests and every position has the right answer |
| Scatter.ShardSet.Sharded | src/command/string_family.cc:183-220 | For every shard function, any objects as arguments and repeated keys: answers, count and final shards are those of one table holding everything that serves the rebuilt arguments in turn |
| Scatter.ShardSet.Run | src/command/string_family.cc:168-220 | On one shard the arguments themselves are served in turn, on several their rebuilt forms; in both cases with the answers, count and final shards of one table holding everything |
| Scatter.Shard | include/server/sharding.h:8-15 | The result is a shard number, for every number of shards |
| Commands.StepElsewhere | src/core/database.cc:17-151 | An operation on one key leaves both tables alone at every other key |
| Commands.StepAlike | src/core/database.cc:17-151 | Two databases that agree at a key answer and change alike for an operation on it |
| Commands.DelCommand | src/command/string_family.cc:168-220 | An error below two arguments; otherwise, for any arguments, count and shards are those of deleting in turn on the union: by equality on one shard, by rebuilt key on several |
| Commands.ExistsCommand | src/command/string_family.cc:222-273 | An error below two arguments; otherwise, for any arguments, the count is that of asking in turn on the union |
| Commands.MSetCommand | src/command/string_family.cc:275-323 | An error unless pairs are given; otherwise the command gets stuck in a split loop if and only if one of its writes finds no room in its shard after the earlier ones, and if it ends, for any arguments, the shards are those of setting the pairs in turn on the union, and on one shard each pair with a null key leaves one more entry that no key finds |
| Crowding.FitsIffRoom | src/core/dashtable.cc:51-66 | The split loop of a write ends, on every directory with the stored keys and null entries, if and only if fewer than the threshold of them, the written one included, share its first 31 bits; for a null key these are all null entries and the keys whose first 31 bits are 0 |
| Crowding.NullsNeverPart | src/core/dashtable.cc:136-139 | No depth, of all 64 bits, separates n null entries: their segment keeps at least n keys |
| Crowding.FindStall | src/command/string_family.cc:275-323 | Following the writes in the order of the command finds one without room if and only if there is one in whatever order the shards are visited |
| Commands.MGetCommand | src/command/string_family.cc:325-396 | An error below two arguments; otherwise, for any arguments, the values are those of reading in turn on the union |
| Commands.DelMeans | src/command/string_family.cc:173-182 | DEL counts each visible key once however often it is named, and exactly the named keys are gone |
| Commands.ExistsMeans | src/command/string_family.cc:227-236 | EXISTS changes nothing that can be seen and answers for each position whether its key can be seen |
| Commands.MGetMeans | src/command/string_family.cc:332-344 | MGET answers for each position the visible value of its key, or none |
| Commands.MSetMeans | src/command/string_family.cc:282-289 | After MSET, for every key and table: a named key shows its last value without deadline if it was not due or is named at least twice, is absent if it was due and named once, and a key not named shows as before |
| Commands.DelAgrees | src/command/string_family.cc:168-220 | One shard and several give the same count and leave the same entries to be seen if and only if no key is null, or the empty key cannot be seen, or it is named as well |
| Commands.ExistsAgrees | src/command/string_family.cc:222-273 | They give the same count if and only if no key is null or the empty key cannot be seen; neither changes what can be seen |
| Commands.MGetAgrees | src/command/string_family.cc:325-396 | They give the same values if and only if no key is null or the empty key cannot be seen |
| Commands.MSetAgrees | src/command/string_family.cc:275-323 | If MSET ends, the two branches leave the same keys, texts and deadlines to be seen if and only if no key is null, or the empty key, told from its old entry, the last text and how often each is named, ends the same; and no entry that no key finds if and only if no key is null |
| Commands.NullStallsAt | src/command/string_family.cc:282-289 | On one shard a write under a null key finds no room if and only if the null entries, it included, and the keys whose first 31 bits are 0 reach the threshold |
| Commands.NullsStall | src/command/string_family.cc:282-289 | With at least as many null keys as the threshold MSET on one shard gets stuck, whatever is stored and whatever else it names |
| Commands.OnlyNullsStall | src/command/string_family.cc:282-289 | With nothing but null keys it gets stuck if and only if they, the null entries from before and the keys whose first 31 bits are 0 reach the threshold |
| Commands.NullDeletesTheEmptyKey | src/command/string_family.cc:168-220 | Wherever the empty key can be seen, DEL of a null answers 0 on one shard and 1 on several, where the empty key is gone |
| Frames.ReadAllBack | src/protocol/resp_parser.cc:231-279 | If one printed item in front of anything is read back, so is a printed list of them |
| Frames.ReadAllCut | src/protocol/resp_parser.cc:231-279 | If a cut item is read whole exactly when at most its spare bytes are missing, and asks for more otherwise, then so it is for a list and the spare bytes of its last item |
| Resp.ParsesBack | src/protocol/resp_parser.cc:356-374 | A command printed with `MakeArray` and `MakeBulkString` in front of anything is parsed to its arguments and leaves exactly the rest |
| Resp.AllParseBack | src/protocol/resp_parser.cc:356-374 | Any sequence of printed commands is parsed back in order, leaving the tail |
| Resp.PrefixParses | src/protocol/resp_parser.cc:187-208 | A proper prefix of a command is taken for the whole command if and only if at most the last terminator is missing (with an empty last argument one byte more); any shorter prefix asks for more data |
| Resp.BulkIsKey | src/protocol/resp_parser.cc:187-208 | The object built in place for a bulk string is the key object of its bytes |
| Resp.ParsedAreArgs | src/protocol/resp_parser.cc:356-374 | From a buffer of up to 65535 bytes every argument that arrives is a null or an object in integer form wherever its text allows it |
| Resp.NullArrives | src/protocol/resp_parser.cc:187-191 | A bulk string of length -1 does arrive as a null among the arguments |
| Resp.NumberLine | src/protocol/resp_parser.cc:88-119 | A printed number and its terminator are read back as that number |
| RespParser.Parser.ReadLineView | src/protocol/resp_parser.cc:88-119 | Agrees with the line grammar on every buffer: first terminator of either kind, a line feed after a carriage return taken along, end of buffer noted |
| RespParser.Parser.FindTerminator | src/protocol/resp_parser.cc:25-38 | The smaller of two searches is the first terminator |
| RespParser.Parser.ReadBulkStringInto | src/protocol/resp_parser.cc:187-208 | Agrees with the grammar for every length and buffer: null below zero, failure when data is missing, two bytes dropped unseen |
| RespParser.Parser.ParseArray | src/protocol/resp_parser.cc:231-279 | Agrees with the grammar on every buffer, including stray terminators, simple elements and negative counts |
| RespParser.ParseInlineCommand | src/protocol/resp_parser.cc:210-229 | The words between blanks as key objects, none being a failure |
| RespParser.Parser.ParseCommand | src/protocol/resp_parser.cc:339-354 | Agrees with the grammar on every buffer |
| RespParser.Parser.TryParseCommandNoRead | src/protocol/resp_parser.cc:356-374 | Parsed, need-more or malformed exactly as the grammar says; success leaves the buffer behind the command, anything else restores the position |

## Left out

- TaskRing: memory orders weaker than sequential consistency, and the wrap of the 64-bit positions, because the counters of a real run do not reach it; the idle loop and shutdown of the worker threads.
- TaskRing.RoundUpPowerOfTwo: sizes above 2^63, for which the loop has no end (`TaskRing.DoublingNeverReaches`).
- HashTable: more than 2^23 buckets, beyond which the distance field of a bucket could run over; `reserve`, `rehash` and iterators other than the one `erase` takes.
- HashTable.Table.MaxLoadFactor: load factors are exact numbers from 0 to 1, not floats; for powers of two and the factors in use both give the same capacity.
- HashTable.Table.MoveOne: tables of up to 2^23 buckets, as for `TryEmplace`.
- HashTable.Table.MoveUpper: at the first turn that leaves no table the loop is left, because from there on the source reads buckets of values that are gone; tables of up to 2^23 buckets.
- HashTable.Table.EraseAt: requires an intact key, as its own callers have; the general case is `HashTable.Table.EraseFrom`, where the bucket of the key is a parameter.
- HashTable.Table.constructor: tables of up to 2^23 buckets, and so for `IncreaseSize`, `PlaceElement`, `TryEmplace` and `InsertOrAssign`, which need room for one more pair or for one more doubling.
- Directory.Insert: stops splitting at 31 bits, the width of the slot numbers; the loop of the source would go on, so for keys that no prefix of 31 bits separates the model says less than the source does.
- Directory.SplittingStops: for inseparable keys it speaks of the loop cut at 31 bits.
- Directory.InsertBalances: for inseparable keys it speaks of the loop cut at 31 bits.
- Growth.GrownSlot: for inseparable keys it foretells the loop cut at 31 bits.
- Growth.InsertGrows: for inseparable keys it foretells the loop cut at 31 bits.
- Growth.StartAfterInsert: for inseparable keys it foretells the loop cut at 31 bits.
- DashTable.Dash.Insert: requires a depth that separates the keys (`Directory.HasRoomFor`), because without one the loop of the source has no end within 31 bits of depth. The threshold is the least integer that the fraction of the segment size reaches.
- DashTable.Dash.MoveUpper: moves entries between the abstract maps of two segments, not bucket by bucket; the same loop on two hash tables, with the erase after the move, is `HashTable.Table.MoveUpper`.
- `IsDirectoryConsistent`: a debugging check that accepts more than the invariant proved here.
- Snapshot: serializer errors, changes of deadlines during a snapshot, `Clear`, and edits inside hash, set and list values, none of which the callback sees. One step of the model visits or advances, which is finer than the source.
- SliceSnapshot.Slice.SerializeDB: the undisturbed run; interleavings with writers are in `Snapshot.EveryRunIsPointInTime`.
- SliceSnapshot.Slice.Insert: requires a separating depth, as `DashTable.Dash.Insert` does.
- DashTable.Dash.SplitWhileFull: requires a separating depth, as `DashTable.Dash.Insert` does.
- Nrdb: sorted sets, which the writer refuses; failing sinks and sources; errors of the entry handler. The shift by 70 bits for an eleventh length byte, undefined in C++, drops its bits here.
- Nrdb.DamageIsDetected: damage after which the records end elsewhere or cannot be read is not covered.
- RdbSerializer.SaveToFile: a list of entries stands for the enumeration by database and shard; a failing sink and the rename of the finished file are absent.
- RdbLoader.Loader.ReadRaw: where a failed read leaves the position is not modelled; the load ends there.
- RdbLoader.Loader.ReadLen: gives the shift by 70 bits of an eleventh byte a meaning that C++ does not.
- RdbLoader.Loader.ReadString: memory is never short; the source resizes to the announced length first, and a length that cannot be allocated throws there instead of failing.
- RdbLoader.Loader.ReadObject: memory is never short, as for `ReadString`.
- RdbLoader.Loader.LoadRecords: memory is never short, as for `ReadString`.
- RdbLoader.Loader.Load: memory is never short, as for `ReadString`.
- Database.Database.Keys: lists the key objects, of which the source returns the texts.
- Database.Database.Find: the value itself instead of its text, which `Get` returns; `Select` and the clearing of databases would only add easy members.
- Scatter: all steps of one command read one time, so no deadline falls due in the middle of a command; the queues that carry requests to the shards are in `TaskRing`.
- Commands: an entry with a null key is kept apart from the table (`ShardSet.nulls`), because no lookup finds it; it counts for the room in the directory. Listing the keys, counting them and the snapshot, which would meet it, are not modelled together with these commands.
- Commands.MSetCommand: what a command that is stuck has written before is not told, and a shard's directory stands for its keys by `Crowding.FitsIffRoom`, cut at 31 bits.
- Crowding.FitsIffRoom: speaks of the loop cut at 31 bits; for null entries `Crowding.NullsNeverPart` covers all depths.
- Resp.ParsedAreArgs: an inline word of more than 65535 bytes is cut by its object, and what is left of its text may be a number although the object is not in integer form.
- RespParser: reading more from the socket in the middle of a command, and replies other than commands. Bytes are bounded by the buffer, so lengths above 8192 always ask for more.
- RespParser.Parser.ReadBulkStringInto: memory is never short; the source allocates the announced length first, and a length that cannot be allocated throws there instead of asking for more.
- RespParser.Parser.ParseArray: memory is never short; the source reserves room for the announced count first, and a count that cannot be reserved throws there instead of asking for more.
- Other commands, replication of configuration, the proactor and connection handling, and memory accounting: no law there that spans more than one function.
