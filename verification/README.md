# A verified model of lsmlite

lsmlite is an LSM-tree storage engine. Writes go to a write-ahead log and to a memtable, which is a
red-black tree in a flat arena of nodes with integer links. A full memtable is queued, flushed to an
SSTable file in key order, and loaded into a cache of open tables. When the cache is long enough all
its tables are merged into one. A read asks the active memtable, the queue and the cache, newest
first.

This project models those parts on bytes, arenas and steps, and proves what the engine is for: that
the arena is always one red-black tree, that the bytes on disk say what the memtable held, that
indexed lookup, linear scan and memtable agree, that the merge keeps the meaning of the table stack,
that a log replays to a prefix of the writes, that a read interleaved with flush, load and compaction
finds the newest value, and that the engine built from these objects runs the protocol.

`dafny verify dfyconfig.toml` checks everything.

## Layout

| file | what it holds |
|---|---|
| `Bytes.dfy`, `Varint.dfy` | key order, buffers, big-endian integers, unsigned LEB128 |
| `Records.dfy`, `RecordBuffers.dfy` | the record format, streams of records, in-place rewriting |
| `RedBlack.dfy`, `Contents.dfy`, `Wal.dfy`, `Memtable.dfy` | the tree behind the arena, its meaning as a map, the log, the memtable |
| `Trie.dfy`, `Bloom.dfy` | the two indexes of an SSTable |
| `SSTable.dfy`, `SSTableReads.dfy` | the file, its writer, opening it, indexed and linear lookup |
| `MergeSpec.dfy`, `Compaction.dfy` | what a merge must select, the heap merge and its writer |
| `Protocol.dfy` | the step machine of writer, flusher, loader and reader |
| `Pipeline.dfy` | end to end: flush and search, compact and search, and how the byte level refines the protocol |
| `Layers.dfy`, `Database.dfy` | queue and cache as objects; the engine over them: set, delete, get and the background round, each a run of the protocol |

A panic of the source is a value here (`None`, `Panicked`, `Crash`, or `false`), never a
precondition. Arithmetic is that of a 64-bit development build: overflow checks and debug assertions
are on.

## Where the code does not do what is promised

Each of these is kept as it is in the code. For each there is a concrete case and the exact condition
under which the promise holds.

- A memtable read trusts the record's `value` range, which overwriting never updates. So a key set
  again after a delete reads as deleted, and a key overwritten by a value of another length reads
  wrongly, if it is longer, or panics, if it is shorter. Case: `SetAfterDeleteIsLost`, `StaleRead`.
  Exact: `MemoryReadExact`, `TableReadExact`; for the panic `MemoryReadCrash`, `TableReadCrash`.
- Overwriting resizes the buffer before it copies the key out, so a large value overwritten by a very
  short one panics. Case: `OverwritePanics`. Exact: `RecordBuffer.OverwriteData`, `FitsExact`.
- The write is logged before it is inserted, so after such a panic the log cannot be replayed any
  more. Case: `PanicIsNeverAccepted`. Exact: `RecoverAfterCrash`.
- A log that was cut inside a record panics the replay instead of losing that record. Case:
  `TornRecord`. Exact: `RecoverAfterCut`.
- The trie writes its child count in one byte. A node with all 256 children comes back childless and
  the keys behind it are lost, or the file does not open at all. Case: `OneByteKeysAreNotNarrow`.
  Exact: `FoundExact`; end to end: `FlushThenSearch`.
- The sized read decodes the value length from the first 4 KB only. Case: `LargeKeyIsNotReadable`.
  Exact: `Readable` in `ReadAtExact`. Keys of up to 4000 bytes are safe: `SmallKeyIsReadable`. No
  limit on keys is enforced.
- `varint_size_from_len` is right exactly below 2^63: `VarintSizeFromLen`.
- The merge heap compares keys only, because `PartialOrd` ignores the table index that `Ord` uses. An
  older record may then win. Case: `HeapPopsOlder`, `OlderMayWin`, and in the running engine
  `ReplaceShowsOlder`. Exact: `TieBreakExact`, and in the running engine `ReplaceExact`. Under the
  order of `Ord` the newest record wins: `NewestWins`, `OrdHarmless`. Statements about runs hold for
  any tie-break that is harmless to the key at hand.
- The documentation says a tombstone at any layer stops the search (docs/protocol.md:219). In the code
  a tombstone in memory is taken for a miss. Case: `DeletedKeyReturns`. Exact: `LiteralGetExact`.
- Between rotating a full table and queueing it, no reader can see it. Case: `GetMissesHandOff`. Exact:
  `LiteralGetExact` for a get that runs alone, `GetExact` for any interleaving. If rotating and
  queueing were one step, every get would be right: `AtomicReadSafety`.
- A write retried after rotation is dropped exactly when a limit is zero: `Set` and `Delete`.
- Replaying a log starts an empty new log, so the replayed writes are in no log: `FromWal`.

The index of the code is the trie, not the sparse index of docs/protocol.md:141-155, and the second
footer field is the byte length of the index, not a count of entries (docs/protocol.md:174).

## Model

| member | source | states |
|---|---|---|
| `Bytes.LessExact` | src/memtable/inner.rs:206-210 | the key order is the byte-wise one: a key comes first exactly when it is a proper prefix or has the smaller byte where the two first differ |
| `Bytes.LessTotal` | src/memtable/inner.rs:206-210 | the byte-wise key order is total |
| `Bytes.LessTransitive` | src/memtable/inner.rs:206-210 | the byte-wise key order is transitive |
| `Bytes.BeRoundTrip` | src/util/mod.rs:18-28 | a big-endian field of any width reads back as the number written, if it fits the width |
| `Bytes.BeDigits` | src/util/mod.rs:18-28 | the most significant byte of a field comes first |
| `Varint.EncodeVarint` | src/util/mod.rs:68-89 | the loop fills a ten-byte buffer with the LEB128 bytes of the value and zeros |
| `Varint.DecodeVarint` | src/util/mod.rs:91-105 | the loop yields the LEB128 number at the offset modulo 2^64 and its length, or a panic past ten bytes or past the buffer |
| `Varint.RoundTrip` | src/util/mod.rs:68-105 | every u64 decodes to itself and its length, whatever bytes follow |
| `Varint.EncodeAtMostTen` | docs/protocol.md:25-25 | a u64 takes at most ten bytes |
| `Varint.VarintSizeFromLen` | src/util/mod.rs:54-66 | the size equals the encoder's length exactly below 2^63; from there on the debug assertion fails |
| `Varint.EncodePrefix` | src/util/mod.rs:91-105 | no proper prefix of an encoded number decodes |
| `Varint.DecodeFails` | src/util/mod.rs:91-105 | decoding panics exactly when none of the first ten bytes ends a number |
| `Varint.Documented` | docs/protocol.md:17-22 | the documented encodings of 1, 127, 128 and 300 |
| `Records.ShortRecord` | docs/protocol.md:63-86 | the documented bytes of data records and tombstones, for lengths of one byte |
| `Records.EncodableBySize` | src/disk/encode.rs:5-43 | every key and value of less than 2^63 - 31 bytes together make an encodable record |
| `Records.EncodeDataRecord` | src/disk/encode.rs:5-43 | the buffer filled slice by slice is header, log size, key length, key, value length and value, with both ranges right |
| `Records.EncodeTombstoneRecord` | src/disk/encode.rs:45-72 | the same for a tombstone |
| `Records.DecodeDiskRecord` | src/disk/decode.rs:5-14 | decoding at an offset is the declarative parse of the rest of the buffer, and the offset ends behind the record |
| `Records.DecodeInsertRecord` | src/disk/decode.rs:16-41 | the data branch of the parse, panics included |
| `Records.DecodeTombstoneRecord` | src/disk/decode.rs:43-66 | the tombstone branch of the parse, panics included |
| `Records.DecodedShape` | src/disk/decode.rs:5-66 | a header other than 0 and 1 is no record and never a panic; what decodes is exactly as long as its log size says |
| `Records.ParseFresh` | src/disk/decode.rs:5-66 | an encoded record, whatever follows it, decodes to the same blob, key range and value range |
| `Records.NextInStream` | src/sstable/iterator.rs:38-44 | an iterator over packed records yields each as encoded, in order, and ends at the end of the buffer |
| `Records.StreamInjective` | src/disk/mod.rs:10-17 | packed records have one reading: equal bytes mean equal lists of writes |
| `Records.Drain` | src/wal/mod.rs:109-118 | draining an iterator over any buffer yields its records up to the end, to a byte that is no header, or to a panic |
| `Records.DrainStream` | src/wal/mod.rs:109-118 | over packed records followed by anything that is none, exactly those records come out, and it panics exactly when what follows is a record cut short |
| `Records.TornRecord` | src/disk/decode.rs:5-66 | a record cut anywhere panics the decoder |
| `RecordBuffers.RecordBuffer.OverwriteData` | src/memtable/record.rs:100-160 | overwriting succeeds exactly when the old key range fits the new buffer, then blob and key range are those of a fresh encoding, and the value range is left as it was |
| `RecordBuffers.RecordBuffer.UpdateDataToTombstone` | src/memtable/record.rs:162-190 | the record becomes the fresh tombstone of its key |
| `RecordBuffers.RecordBuffer.UpdateFromRecord` | src/memtable/record.rs:83-98 | the three kinds of update, with the exact panic condition and what happens to the value range |
| `RecordBuffers.AfterChain` | src/memtable/record.rs:83-190 | after any chain of updates the blob encodes the last operation, and the value range is the first record's or none |
| `RecordBuffers.MemoryReadExact` | src/memtable/record.rs:51-56 | a read from memory gives the last write exactly when that was a delete, or the key was never deleted and first and last value are equally long |
| `RecordBuffers.MemoryReadCrash` | src/memtable/record.rs:63-68 | a read from memory panics exactly when the key was never deleted and its last value is shorter than its first |
| `RecordBuffers.StaleRead` | src/memtable/record.rs:63-68 | through a stale range a longer value reads as the bytes where the first value lay |
| `RecordBuffers.SetAfterDeleteIsLost` | src/memtable/record.rs:100-160 | set, delete, set: the key reads as deleted |
| `RecordBuffers.FitsExact` | src/memtable/record.rs:119-130 | the overwrite guard in terms of the lengths of the two log sizes and the new value |
| `RecordBuffers.TombstoneFits` | src/memtable/record.rs:119-130 | a tombstone can always be overwritten |
| `RecordBuffers.OverwritePanics` | src/memtable/record.rs:119-130 | a 16 KB value overwritten by the empty one does not fit |
| `Memtables.Memtable.LeftRotate` | src/memtable/inner.rs:514-540 | the link writes turn the subtree at the node left, parent links and root included, and change nothing else |
| `Memtables.Memtable.RightRotate` | src/memtable/inner.rs:542-567 | the same to the right |
| `Memtables.LeftTurn` | src/memtable/inner.rs:514-540 | the six link writes, one after the other, spell out the rotated tree |
| `Memtables.Memtable.InsertFixTree` | src/memtable/inner.rs:452-507 | the fix-up ends, follows no missing link, restores a red-black tree and keeps the in-order contents |
| `Memtables.Memtable.FindInsertPosition` | src/memtable/inner.rs:421-450 | the node that holds the key, or the one empty place in the tree where it belongs |
| `Memtables.Memtable.InsertNode` | src/memtable/inner.rs:372-419 | the arena stays one sorted red-black tree over all its slots, and contents and size change as the map model says, or the overwrite panics |
| `Memtables.Memtable.GetSearch` | src/memtable/inner.rs:582-605 | finds exactly the keys held, visiting at most 2 log2(n + 1) of n nodes |
| `Memtables.Memtable.Get` | src/memtable/inner.rs:570-580 | reads the key's record through its value range, and panics exactly when that range runs past the blob |
| `Memtables.Memtable.FullAgrees` | src/memtable/inner.rs:322-324 | the table is full exactly when it holds as many keys as nodes allowed or its size counter is at the limit |
| `Memtables.Memtable.FullByLog` | src/memtable/inner.rs:322-324 | the same on the log: distinct keys against the node limit, and the blob sizes of each key's first write, but for the table's first record, against the size limit; never more nodes than allowed |
| `Memtables.Memtable.InsertDataRecord` | src/memtable/inner.rs:334-345 | refuses exactly when the keys held reach the node limit or the size counter its limit, returning the write; otherwise logs and inserts, or panics exactly when the overwrite does not fit, with the write in the log already; which earlier writes are then in the log file |
| `Memtables.Memtable.InsertTombstoneRecord` | src/memtable/inner.rs:347-358 | refuses under the same limits; otherwise logs and inserts, and never panics; which earlier writes are then in the log file |
| `Memtables.Memtable.FromWal` | src/memtable/inner.rs:306-320 | replay of records followed by anything that is none goes through exactly when these limits accept the records and no record is cut short; it rebuilds the table of those records, with an empty new log |
| `Memtables.Memtable.InsertRecordFromWal` | src/memtable/inner.rs:360-370 | a replayed record is taken exactly when the table is not full and the overwrite fits |
| `Memtables.RecoverAfterCrash` | src/memtable/inner.rs:306-370 | the log file of a table begun empty holds a prefix of its writes; it replays, into the table after that prefix, exactly when no write that panicked has reached it |
| `Memtables.IntactIsRecoverable` | src/wal/mod.rs:68-88 | the log of an intact table always replays |
| `Memtables.PanicIsNeverAccepted` | src/memtable/inner.rs:339-343 | a log with a write that panicked is refused by every later replay, whatever follows |
| `Memtables.RecoverAfterCut` | src/wal/mod.rs:82-88 | a log cut at any byte replays exactly when the cut lies between two records, into the table of the records before it |
| `Memtables.SameLogSameRecords` | src/memtable/inner.rs:360-370 | tables that hold the same writes hold the same records in the same order |
| `RedBlack.LeftRotation` | src/memtable/inner.rs:514-540 | the arena change of a left rotation, anywhere in the tree, spells out the rotated tree |
| `RedBlack.RightRotation` | src/memtable/inner.rs:542-567 | the same for a right rotation |
| `RedBlack.GrandparentExists` | src/memtable/inner.rs:463-464 | a red parent in the loop has a black parent of its own |
| `RedBlack.RecolorStep` | src/memtable/inner.rs:466-471 | a red uncle: recolouring moves the conflict two levels up and keeps the rest |
| `RedBlack.InnerLeft` | src/memtable/inner.rs:485-488 | an inner child becomes an outer one and the loop invariant holds again |
| `RedBlack.OuterLeft` | src/memtable/inner.rs:490-494 | an outer child: recolour and rotate gives a red-black tree with the same contents |
| `RedBlack.AllReached` | src/memtable/inner.rs:372-413 | every arena slot is in the tree exactly once |
| `RedBlack.SearchCost` | src/memtable/inner.rs:582-605 | the height h of a red-black tree of n nodes has 2^h at most (n + 1) squared |
| `Contents.SortedUnique` | src/sstable/encode.rs:57-98 | sorted records are determined by the map they denote |
| `Contents.RunPerKey` | src/memtable/inner.rs:372-413 | a table holds for each key what that key's own writes leave |
| `Contents.TableReadExact` | src/memtable/inner.rs:570-580 | when a memtable read of a key tells its last write, in terms of the table's log |
| `Contents.TableReadCrash` | src/memtable/inner.rs:570-580 | when it panics, in the same terms |
| `Contents.RunMeasures` | src/memtable/inner.rs:396-419 | a table holds the keys of its log, and its size counter is the sum of the blob sizes of each key's first write without the first record |
| `Contents.AcceptedExact` | src/memtable/inner.rs:322-370 | a log is accepted exactly when no write panicked and before each write there were fewer keys than nodes allowed and fewer counted bytes than the size limit |
| `Contents.AcceptedBounds` | src/memtable/inner.rs:322-324 | no table holds more records than its limit, and its counted size passes the limit by less than its last record |
| `WriteAheadLog.Wal.WriteLog` | src/wal/mod.rs:62-75 | the buffer goes to the file, whole and before the new record joins it, exactly when it holds 64,000 bytes or the last flush is more than 400 ms ago; less than 64,000 bytes and one record ever wait |
| `Tries.Trie.Insert` | src/ssindex/trie.rs:189-201 | an insertion is a map update; prefixes keep their nodes, child lists stay sorted |
| `Tries.Trie.GetOrInsertNode` | src/ssindex/trie.rs:208-218 | the child for a byte exists afterwards and no other prefix moves |
| `Tries.Trie.Get` | src/ssindex/trie.rs:220-234 | the last offset of exactly the inserted keys; on any arena, what following its links gives |
| `Tries.PathCount` | src/ssindex/trie.rs:208-218 | the trie has at most one node for each prefix of a key |
| `Tries.ChildFound` | src/ssindex/trie.rs:101-104 | the search in a sorted child list finds every child |
| `Tries.OneKeyIndex` | src/ssindex/trie.rs:18-29 | the bytes of the index of a one-byte key, mark bit included |
| `Tries.Serialize` | src/ssindex/trie.rs:163-187 | the loops fill exactly the computed size with the arena's bytes |
| `Tries.Deserialize` | src/ssindex/trie.rs:147-161 | the loops read what the declarative reader reads, panics included |
| `Tries.DeserializeNode` | src/ssindex/trie.rs:49-68 | the same for one node, and where the next one starts |
| `Tries.RoundTripExact` | src/ssindex/trie.rs:74-86 | an arena reads back as itself exactly when no node has 256 children |
| `Tries.SurvivesExact` | src/ssindex/trie.rs:74-86 | the same condition on the keys: after no prefix do all 256 bytes follow |
| `Tries.FoundExact` | src/ssindex/trie.rs:74-86 | after the disk every key is found exactly when after no prefix all 256 bytes follow |
| `Tries.FullNodeLoses` | src/ssindex/trie.rs:49-68 | with a node of 256 children the index does not read back, or some key is not found in it |
| `Tries.OneByteKeysAreNotNarrow` | src/ssindex/trie.rs:75-75 | the 256 one-byte keys are such a case |
| `Tries.AvoidedByteIsNarrow` | docs/protocol.md:73-73 | keys that avoid one byte value, as UTF-8 text does, meet that condition |
| `BloomFilters.BloomFilter.constructor` | src/sstable/bloom_filter.rs:25-38 | a new filter has ten bits a key, rounded up to words, and none of them set |
| `BloomFilters.BloomFilter.Insert` | src/sstable/bloom_filter.rs:61-71 | the set bits are exactly the probes of the inserted keys, before and after |
| `BloomFilters.BloomFilter.Contains` | src/sstable/bloom_filter.rs:73-86 | false exactly when some probe of the key is no probe of an inserted key; so true for every inserted key, and never true of an empty filter |
| `BloomFilters.ProbeExact` | src/sstable/bloom_filter.rs:66-66 | the wrapping arithmetic is h1 + i h2 modulo 2^64, then modulo the number of bits |
| `BloomFilters.BitAtExact` | src/sstable/bloom_filter.rs:67-69 | bits are numbered through the words, the lowest of each first |
| `BloomFilters.OneWordFilter` | src/sstable/bloom_filter.rs:88-100 | the bytes of a filter of one word |
| `BloomFilters.SetBitExact` | src/sstable/bloom_filter.rs:69-69 | setting a bit of a word sets that bit and no other |
| `BloomFilters.Serialize` | src/sstable/bloom_filter.rs:88-100 | the loop writes word count, words and number of hashes |
| `BloomFilters.FromBytes` | src/sstable/bloom_filter.rs:40-59 | the loop reads what the declarative reader reads, panics included |
| `BloomFilters.FilterRoundTrip` | src/sstable/bloom_filter.rs:40-100 | a filter read back is the filter written |
| `SSTableFiles.WriteSSTable` | src/sstable/encode.rs:20-55 | the file holds the table's blobs in strictly increasing key order, and its index holds exactly their offsets and keys; the filter has ten bits a key |
| `SSTableFiles.ShortTableIsBounded` | src/ssindex/trie.rs:208-218 | records of less than 4 GB are within the widths of offsets and index links |
| `SSTableFiles.InorderFlush` | src/sstable/encode.rs:57-98 | the recursive walk appends and indexes the subtree's records in order |
| `SSTableFiles.FinishFile` | src/sstable/encode.rs:40-54 | trie, filter and footer behind the data make a well-formed file |
| `SSTableFiles.AddToIndex` | src/sstable/encode.rs:79-85 | one more record is in both indexes under its first byte |
| `SSTableReads.SearchDataBlock` | src/disk/mod.rs:23-64 | the scan answers with the first record of the key |
| `SSTableReads.ReadDataBlock` | src/disk/mod.rs:66-110 | the read at any offset of any file, panics and short reads included |
| `SSTableReads.ReadAtExact` | src/disk/mod.rs:66-138 | at a record the read gives its value or tombstone exactly when the value starts inside the first 4 KB or the record ends there, else it panics |
| `SSTableReads.LargeKeyIsNotReadable` | src/disk/mod.rs:84-99 | a key of 4 KB is not readable with any value |
| `SSTableReads.SmallKeyIsReadable` | src/disk/mod.rs:84-99 | a key of at most 4000 bytes is readable with every value |
| `SSTableReads.OtherKeyPanics` | src/disk/mod.rs:90-94 | a read at the record of another key of the same length panics in the debug assertion |
| `SSTableReads.CutValueIsMissed` | src/disk/mod.rs:117-138 | a file cut inside a long value reads as a miss, not as a panic |
| `SSTableReads.ValidateHeader` | src/sstable/mod.rs:98-109 | every file the writers produce is accepted, as version 0; a file without the magic is not |
| `SSTableReads.OpenIndex` | src/ssindex/mod.rs:17-38 | the filter of a written file comes back as it was built, the trie does for narrow keys, and otherwise, if it can be read, misses some key |
| `SSTableReads.FromFile` | src/sstable/mod.rs:120-129 | header, then index: an open table serves all keys of its file exactly when they are narrow |
| `SSTableReads.Sections` | src/sstable/footer.rs:12-30 | the footer's three fields are the start and the length of the trie and the start of the filter, and delimit the sections |
| `SSTableReads.RecordAt` | src/ssindex/mod.rs:43-49 | each indexed offset is the first byte of its record |
| `SSTableReads.SSTable.GetOffsetForKey` | src/ssindex/mod.rs:43-49 | filter then trie give the offset of exactly the keys in the file |
| `SSTableReads.SSTable.Search` | src/sstable/mod.rs:131-141 | indexed lookup equals the linear scan for every key, and panics exactly on a record that is not readable; a lost key is not found |
| `SSTableReads.FileAnswers` | src/sstable/mod.rs:131-141 | the bytes at a key's indexed offset say what the scan finds |
| `SSTableReads.DataRegion` | src/sstable/iterator.rs:17-33 | the region between header and index is the packed records |
| `MergeSpec.NewestWins` | src/compaction/mod.rs:40-48 | under the (key, table index) order the selected record of every key is the newest-first answer of the stack |
| `MergeSpec.TieBreakExact` | src/compaction/mod.rs:32-38 | a heap ordered by key alone keeps the meaning of the stack, however it breaks ties, exactly when shadowed records look like their shadows |
| `MergeSpec.OlderMayWin` | src/compaction/mod.rs:32-38 | two sorted tables for which the older record may be selected |
| `Compaction.HeapPopsOlder` | src/compaction/mod.rs:151-193 | the standard heap, comparing keys alone, pops the older record first when it merges those tables |
| `MergeSpec.SelectionExists` | src/compaction/mod.rs:128-147 | every stack has one selection under every preference |
| `MergeSpec.PutsLookup` | src/compaction/mod.rs:187-189 | dropping tombstones from a sorted table changes no visible answer |
| `Compaction.RunCompaction` | src/compaction/mod.rs:148-201 | for any tie-break the merge ends, pops every input record once, selects one record per key in increasing order, the preferred one, and writes a well-formed table of those that are data |
| `Compaction.ClearDuplicates` | src/compaction/mod.rs:168-180 | all other nodes of the selected key are popped and replaced, and everything left is above that key |
| `Compaction.Hydrate` | src/compaction/mod.rs:153-159 | the heap starts with the first record of each table, one node a table |
| `Compaction.Fetch` | src/compaction/mod.rs:191-193 | the next record of a table enters the heap, still at most one node a table |
| `Compaction.SmallestWins` | src/compaction/mod.rs:161-166 | the smallest node is the preferred record of its key over all tables |
| `Compaction.SelectStep` | src/compaction/mod.rs:161-166 | selecting it keeps the selection sorted and right, and nothing left is below it |
| `Compaction.SelectedFits` | src/sstable/compaction_writer.rs:43-57 | what is written at any point fits the format if the finished output does |
| `Compaction.FitsBySize` | src/sstable/compaction_writer.rs:43-57 | inputs of less than 4 GB together always merge into one table |
| `Compaction.CompactionWriter.Push` | src/sstable/compaction_writer.rs:43-57 | file and buffer together grow by the record, which is indexed at its offset |
| `Compaction.CompactionWriter.Append` | src/sstable/compaction_writer.rs:48-53 | when the buffer is written out does not change the bytes in order |
| `Compaction.CompactionWriter.Finish` | src/sstable/compaction_writer.rs:60-81 | the finished file is well formed for the pushed records |
| `Protocol.StepInv` | src/database/inner.rs:186-198 | every step of writer, flusher, loader and reader keeps the hand-off invariant |
| `Protocol.RunSafe` | src/memtable/inner.rs:58-92 | in every reachable state the flusher finds a table, the table popped is the one just loaded, and compaction replaces exactly what it read |
| `Protocol.StepKeepsNewest` | src/compaction/mod.rs:79-95 | no step but a write to the key changes what is shown for it, except exactly a merge whose preferred copy of it looks different |
| `Protocol.ReplaceNewest` | src/sstable/mod.rs:86-90 | what is newest after a merge: memory decides as before, below it the preferred copy, unless that is a tombstone |
| `Protocol.ReplaceExact` | src/compaction/mod.rs:32-38 | a merge that breaks ties in any way keeps what is shown for a key exactly when the key is in memory or its cached copies look alike |
| `Protocol.ReplaceShowsOlder` | src/compaction/mod.rs:32-38 | with a value over an older one, some tie-break shows the older |
| `Protocol.OrdRunHarmless` | src/compaction/mod.rs:40-48 | with ties broken by table index no merge of any run is harmful |
| `Protocol.RunKeepsShown` | src/sstable/mod.rs:79-90 | over any run without a write to the key, what the engine shows for it is unchanged throughout exactly when every merge is harmless to it |
| `Protocol.GetReturnsNewest` | src/database/inner.rs:112-144 | what a get has learnt at each point of any undisturbed interleaving, up to its answer |
| `Protocol.ReadSafety` | src/database/inner.rs:112-128 | from any reachable state, a get of a key whose newest record is a value returns it, in every interleaving in which the key is not in the writer's hand at the queue read and merges are harmless to it |
| `Protocol.AtomicReadSafety` | src/database/inner.rs:186-198 | with rotate and enqueue as one step and ties broken by table index, in every interleaving without a write to the key |
| `Protocol.GetExact` | src/database/inner.rs:112-144 | in any interleaving without a write to the key, hand-off window included, the get returns the value exactly when neither of its reads meets a differing older copy while the newest one is in the writer's hand or still in memory |
| `Protocol.GetOutcome` | src/database/inner.rs:112-144 | the same from any reachable state, for a get that has just begun |
| `Protocol.EngineRuns` | src/database/inner.rs:146-198 | the runs of a write and of a background round rotate and queue at once, begin no get and touch no other key |
| `Protocol.GetMissesHandOff` | src/database/inner.rs:187-193 | a get between rotate and enqueue misses a key set before it began |
| `Protocol.LiteralGetExact` | src/database/inner.rs:130-144 | in every state the get equals the newest-first lookup exactly when no tombstone in memory lies above an older value or, while the key is in the writer's hand, when the copies below show the same |
| `Protocol.DeletedKeyReturns` | src/database/inner.rs:130-136 | a flushed value comes back after its key is deleted |
| `Protocol.GetAlone` | src/database/inner.rs:112-128 | run alone, the three reads compute the literal get |
| `Layers.ImmutableMemtable.Get` | src/memtable/immutable.rs:50-62 | the loop from the back searches each tree; the newest table that holds the key answers, as its record reads, a panic included; a miss exactly when none holds it |
| `Layers.ImmutableMemtable.Insert` | src/memtable/immutable.rs:64-67 | the inserted table answers first, other keys as before |
| `Layers.ImmutableMemtable.PopFront` | src/memtable/immutable.rs:45-48 | the oldest table leaves and no younger answer changes |
| `Layers.SSTableCache.Push` | src/sstable/mod.rs:79-84 | the pushed table answers first, other keys as before, and the new length is returned |
| `Layers.SSTableCache.ReplaceWithCompactTable` | src/sstable/mod.rs:86-90 | one table answers for all; what that keeps is stated by the merge |
| `Layers.SSTableCache.Search` | src/sstable/mod.rs:57-77 | the loop searches each file by its index; the answer is the newest-first lookup with a tombstone read as absent, or the panic of an unreadable record |
| `Layers.SSTableCache.Regions` | src/compaction/mod.rs:56-63 | the merge reads each table's records, in cache order |
| `Database.LsmliteInner.RotateTable` | src/database/inner.rs:186-198 | the full table joins the back of the queue unchanged, with one signal, and an empty one takes its place |
| `Database.LsmliteInner.Insert` | src/memtable/mod.rs:42-56 | a write to the active table is one write of the protocol, a refusal changes nothing, a panic leaves the write in the log |
| `Database.LsmliteInner.Set` | src/database/inner.rs:166-184 | an accepted write is the protocol's write, with rotate, enqueue and signal before it exactly if the table held as many keys as nodes allowed or its size counter was at the limit; it is lost exactly when a limit is zero, and panics exactly when the overwrite does not fit |
| `Database.LsmliteInner.Delete` | src/database/inner.rs:146-164 | the same for a tombstone, which never panics |
| `Database.LsmliteInner.Get` | src/database/inner.rs:112-144 | trees, then files: the record of the active table answers unless it reads as a tombstone, then that of the newest queued table with the key, a panic of either included, then the files newest first; this is the get of the protocol, but for the panic of an unreadable record |
| `Protocol.ValueIsRead` | src/database/inner.rs:112-144 | with nothing else running, a value that is newest is what the get returns |
| `Database.LsmliteInner.ViewIsInitial` | src/database/inner.rs:186-198 | every state of the engine between its operations is an initial state of the protocol |
| `Database.LsmliteInner.FaithfulExact` | src/memtable/inner.rs:570-580 | memory reads a key as it was written exactly when its records in the active table and in the youngest queued one read as what they encode |
| `Database.LsmliteInner.ReadYourWrite` | src/database/inner.rs:112-144 | a value set in the active table is read back, and is what the protocol takes for current, exactly when the key's writes in this table left the record readable in place |
| `Database.LsmliteInner.LoadOldest` | src/compaction/mod.rs:79-81 | the oldest queued tree becomes the newest file of the cache and leaves the queue |
| `Database.LsmliteInner.CompactCache` | src/compaction/mod.rs:82-89 | the cache becomes the protocol's compacted table under the merge's own tie-break |
| `Database.LsmliteInner.Background` | src/compaction/mod.rs:71-97 | flush, load, pop and, exactly when the cache has reached the compaction rate, merge are one run of the protocol, and with ties broken by table index no key shows anything else afterwards |
| `Pipeline.FlushThenSearch` | src/sstable/mod.rs:119-141 | memtable to file to index to lookup: every key answers as its tree record does, by scan always, by index exactly when the keys are narrow and the record is readable |
| `Pipeline.CompactThenSearch` | src/compaction/mod.rs:148-201 | compacting under any tie-break, reopening and searching answers every key with its preferred record, a tombstone read as absent, or panics exactly when that one record is unreadable; under the order of Ord that is the newest-first answer of the stack |
| `Pipeline.OpenAndSearch` | src/sstable/mod.rs:120-141 | what a written file answers after it is opened, for narrow and for other keys |
| `Pipeline.FlushAndOpen` | src/memtable/immutable.rs:71-83 | the opened file is the protocol's disk image of the memtable |
| `Pipeline.CompactAndOpen` | src/compaction/mod.rs:196-200 | the opened output is the protocol's compacted table |
| `Pipeline.FlushedLookup` | src/sstable/encode.rs:57-98 | looking a key up in the flushed records gives the meaning of its tree record |
| `Pipeline.WriteRefines` | src/memtable/inner.rs:372-419 | an accepted memtable write is one write step of the protocol |
| `Pipeline.FlushRefines` | src/memtable/immutable.rs:71-83 | the flushed records are the protocol's disk image of the memtable |
| `Pipeline.StackRefines` | src/sstable/mod.rs:57-77 | lookup over a stack of files is lookup over the protocol's cache |
| `Pipeline.MergeRefines` | src/compaction/mod.rs:148-201 | the merge's output is the protocol's compacted table under the merge's tie-break, for the order of Ord the newest record of every key |
| `Pipeline.ChosenRefines` | src/compaction/mod.rs:161-166 | the record a merge selects is the one the protocol's preference names |

## Left out

- WriteSSTable: total data below 2^63 bytes and fewer than 2^32 index nodes are assumed, the widths of the mark bit and of the index links; larger inputs would be truncated by the code. ShortTableIsBounded gives a bound in bytes.
- Tries.Trie.Insert: an index of 2^32 nodes or more is not modelled, because links are stored in 32 bits.
- RunCompaction: the output is bounded in the same way as any table; FitsBySize gives a bound in bytes.
- OpenAndSearch: for keys that are not narrow only the lost key is described; what the bytes behind a full node decode to is not.
- ReadSafety: holds for gets whose queue read does not fall into the hand-off window of the key's table; GetExact says what happens inside it.
- FromWal: records whose lengths are not encoded in the shortest way, which this engine never writes, are not modelled.
- Database.LsmliteInner.Set: one writer; two writers could rotate twice, and the result of the second retry is discarded.
- Background: the tasks run one round at a time between writes; their interleavings are those of the protocol.
- The state of a memtable after a panic inside an overwrite, and whatever a surviving task does with it.
- Durability over repeated restarts: replay does not log the replayed writes again.
- The runtime: channels, locks, task spawning, shutdown and the poison flag are atomic steps and counters.
- Files: creation, deletion, mapping and sync; a write is whole, but for the cut log, and a read is complete.
- The float formula for the number of hashes and the false-positive rate of the filter; any number of hashes of at least one is covered.
- The capacity of the arena, which is taken to be the node limit; an allocator may round it up.
- The standard library's binary heap, binary search and hash function; in the merge the heap is any min-heap on keys with any tie-break, the search is its result on a sorted list, the hashes are arbitrary functions.
- Configuration, command line, error conversion, and the directory scan at restart.
- Red-black deletion, which the source only describes.
