# KanbuDB in Dafny

A model of the hard parts of KanbuDB, an embedded C99 store, with proofs for all inputs, all reachable states and
all interleavings. `dafny verify dfyconfig.toml` checks the project.

| area | modules |
|---|---|
| key order | Keys |
| memtable, a skip list whose towers get cut | SkipList |
| B+tree: value model, histories, node store | BTree, BTreeRuns, BTreeStore |
| sorted tables, filter, merge, the flush of a memtable | Bloom, SSTable, SSTableReader, Merge, MemtableFlush |
| write-ahead log, shared mapped log | Records, Wal, WalMmap, MmapRuns |
| flush and recovery of the whole store | History, Recovery, QuietRuns, RecoveryRuns |
| trie with fuzzy search | EditDistance, Fst |
| page cache | PageLists, PageCache |
| vector indexes: HNSW, flat index with snapshot and log | Slots, Heaps, HnswSearch, Hnsw, HnswIndex, FlatIndex |
| quantization, over the reals | KMeans, SQ8 |
| rows and join | Rows, TypedRows |
| UTF-8 and dictionary segmentation | Utf8, Segment |

How the C program is rendered. Addresses are explicit: the skip list and the page cache work on a map from addresses to
nodes (freeing removes an address), B+tree and trie nodes are indices into a node store. Bytes are integers below 256,
integer widths are written out where they matter (32-bit visit tags, filter sizes and file fields, 64-bit hash sums and
sequence numbers). Randomness, clocks, checksums and allocation addresses are parameters: the tower height of a skip-list
node, the level of an HNSW element, the creation time of a table. Allocation does not fail and files take the bytes
written to them. Floating point becomes real arithmetic; the metric of the HNSW index is any function.

The order of keys is embedded into the reals of [0, 1) (`Keys.Rank`), so that proofs about sorted structures use linear
arithmetic; `Keys.KeyOrderIsLexicographic` says which order it is.

## Where the code departs from its intent

Each of these is modelled as written. Where a promise fails there is a concrete witness, and the exact condition under which
the code keeps it.

- After a split, `src/storage/btree.c:183` sends a key equal to the promoted separator to the left, while search and
  delete send it to the right. Such a put is lost: `BTreeRuns.PutLookup` and `BTreeRuns.PutVisibleIff` are exact,
  `BTreeRuns.PutCanBeLost` is a witness, `BTreeRuns.RunIsSeen` says what lookups give after any run, `BTreeRuns.PutListing`
  that a cursor then lists the key twice, and `BTreeRuns.RunRefinesIff` when lookups are those of the map.
- `db_get` falls through a memtable tombstone to the tree (`src/core/db.c:904-921`): `Recovery.DbGetIff`, and the run
  `RecoveryRuns.DeletedKeyCanBeRead`.
- A full memtable is rotated away without being flushed when an insertion or a replay finds it full
  (`src/storage/lsm.c:283-292, 325-331`): `Recovery.RotationShowsIff`, `Recovery.InsertThenFlushIff`,
  `Recovery.OpenThenFlushIff`, and the run `RecoveryRuns.AcknowledgedPutCanBeLost`.
- The file that counts the tables is emptied before it is rewritten (`src/core/db.c:467-486`). A crash in between restarts
  the numbers, and a later flush replaces a table (`src/storage/sstable.c:264`): `History.ReplaceableIff`,
  `Recovery.InvFlushIff`, and the run `RecoveryRuns.ReusedNumberLosesAPut`.
- Table files are loaded in directory order (`src/storage/compaction.c:109-146`): `History.LoadOrderIff` for any
  reordering, and the run `RecoveryRuns.SwappedTablesLoseAPut`. The listing takes tables under temporary names, too, which
  nothing removes: the run `RecoveryRuns.LeftoverTableLosesAPut`.
- A torn last record of the log is not cut off before the next append: `Wal.TornReplayIff` and `Recovery.AppendIff` are
  exact, `Wal.TornTailIsMisread` and `Wal.TearCanBeHarmless` show both sides, and the run
  `RecoveryRuns.PutBehindTornRecordIsLost` loses an acknowledged put.
- `wal_truncate` empties the log before it writes the header (`src/storage/wal.c:429-445`). A crash inside the header leaves
  a database that never opens again: `Recovery.OpensIff`, `Recovery.TornHeadIsForever`, and the run
  `RecoveryRuns.TornHeadStopsTheDatabase`.
- Together, for the flush and recovery of the whole store: `Recovery.StepIff` says of every move exactly when it keeps the
  invariant, `Recovery.CrashSafety` what that gives for whole runs, and `QuietRuns.QuietCrashSafety` names conditions under
  which it is always so.
- After `wal_truncate` the stream is open for writing only (`src/storage/wal.c:432`), so a replay on the same handle
  delivers nothing: `Wal.Log.Replay`.
- A merge passes an empty key to the table writer as a null pointer (`src/storage/compaction.c:54-59`) and then writes
  nothing: `Merge.MergeTables` is exact, `Merge.BlankKeyStopsTheMerge` is a witness.
- Opening a table follows offsets of the file without checking them (`src/storage/sstable.c:352-388`):
  `SSTableReader.Open` says exactly when it reads outside the mapping, `SSTableReader.OutsideIndexFaults` is a witness.
- An overwrite by a longer value copies only the bottom link of the old tower (`src/storage/lsm.c:147-151`). Lookups stay
  right all the same: `SkipList.CutLanes`, `SkipList.ReplaceTableOk`.
- `src/vector/hnsw.c:483` searches the layers below an element's level from the element itself, so there it is linked only
  with itself: `Hnsw.LonelySearch` and the links part of `HnswIndex.Index.Insert`. No recall is claimed, only completeness
  relative to the reachable set (`HnswSearch.SearchIsComplete`).
- Evicting a page drops it even if it is dirty or its single holder has not released it
  (`src/util/page_cache.c:74-94`): `PageCache.Cache.LosesDirtyIff` is exact, `PageCache.DirtyPageCanBeDropped` a witness.
- A checkpoint of the flat index does not shorten the log (`src/vector/persistence.c:209`); replaying the whole log is
  harmless from any mixture of old and new files: `FlatIndex.MixtureIsExact`. But it empties its files before it writes
  them, and a crash in between can leave an index that does not open: `FlatIndex.PartlyReadableIff`,
  `FlatIndex.GrownIndexDoesNotOpen`.
- `strcmp` stops at a zero code point of the text (`src/vector/embedding.c:81, 105-110`), so a dictionary word and what
  follows the zero are cut as one piece: `Segment.GreedyIsLongestIff` is exact, `Segment.ZeroIsSwallowed` a witness.
- Row lengths are cast to 32 bits (`src/query/query_builder.c:643-644`, `src/query/row_format.c:22-51`): `Rows.ExtractIff`.
  The join has arrays of 64 columns and does not check the sum of two schemas (`src/query/query_builder.c:622-640`), so
  `Rows.JoinedExtract` is about at most 64 combined columns.
- A row that finds no partner keeps its bytes under the wider schema of the join (`src/query/query_builder.c:664, 709-713`):
  `Rows.UnmatchedOwn`, `Rows.UnmatchedForeign`.
- The comment in `src/storage/sstable.h:13` gives a header of 48 bytes; the structure itself has 56, which the model uses.

## Model

| member | source | states |
|---|---|---|
| Keys.KeyCmp | src/storage/lsm.c:28-35 | three-way comparison; its sign is the order of an embedding of byte strings into [0, 1), and 0 means equal |
| Keys.KeyOrderIsLexicographic | src/storage/lsm.c:28-35 | that order is the lexicographic one: at the first difference the smaller byte, or the string that ended, comes first |
| SkipList.GapIsFloor | src/storage/lsm.c:107-118 | a descent that meets a cut tower (a null link in mid-lane) is still at the last node before the key, because the lane above stopped no further |
| SkipList.SpliceLane | src/storage/lsm.c:172-175 | linking a node after the floor of its key keeps a lane sorted, chained and covered |
| SkipList.CutLanes | src/storage/lsm.c:147-152 | after an overwrite that copies only the bottom link, cutting each lane where it breaks gives well-formed lanes again with level 0 untouched |
| SkipList.InsertTableOk | src/storage/lsm.c:155-175 | linking a new tower keeps the whole table invariant, adds the entry to the map and its size to the accounting, for every tower height |
| SkipList.ReplaceTableOk | src/storage/lsm.c:132-153 | replacing a node by a larger one keeps the table invariant and the size accounting even though upper towers are cut |
| SkipList.UpdateTableOk | src/storage/lsm.c:123-131 | overwriting a value in place keeps the table invariant and the size accounting |
| SkipList.WalkLane | src/storage/lsm.c:108-117 | the walk along one lane ends at the last reachable node before the key |
| SkipList.LinkAll | src/storage/lsm.c:172-175 | links of the new node and of its predecessors after the loop over its levels; nothing else changes |
| SkipList.RedirectAll | src/storage/lsm.c:147-150 | every predecessor that pointed at the replaced node points at the new one; nothing else changes |
| SkipList.Memtable.constructor | src/storage/lsm.c:74-83 | an empty table satisfies the invariant |
| SkipList.Memtable.Put | src/storage/lsm.c:101-179 | refines the map update, for every tower height and allocation address; keeps sorted lanes, tombstones and the size accounting |
| SkipList.Memtable.Delete | src/storage/lsm.c:181-200 | leaves a tombstone under the key, present or not |
| SkipList.Memtable.Get | src/storage/lsm.c:202-222 | found exactly for live entries, with the stored value; tells a tombstone from absence |
| SkipList.Memtable.Iterate | src/storage/lsm.c:232-257 | every entry once, in strictly increasing key order |
| BTree.SplitChildSearch | src/storage/btree.c:92-144 | splitting a full child changes no lookup |
| BTree.InsertOther | src/storage/btree.c:146-190 | a put changes the lookup of no other key, misrouted or not |
| BTree.InsertSelf | src/storage/btree.c:146-190 | a put is found afterwards unless it is misrouted; then the lookup of its key is unchanged |
| BTree.InsertOrdered | src/storage/btree.c:146-190 | every put keeps keys sorted and subtrees within their separators, but for strays that misrouted puts leave on the lower side of a separator equal to them; without a misrouted put there is none |
| BTree.RemoveSearch | src/storage/btree.c:263-292 | a delete removes exactly one key from what lookups see |
| BTree.RemoveOrdered | src/storage/btree.c:263-292 | stale separators left by deletes still bound their subtrees |
| BTreeRuns.PutLookup | src/storage/btree.c:237-251 | every lookup after a put into any tree a run can make, exactly: the put is lost if and only if it meets a full non-root child whose promoted separator is its own key |
| BTreeRuns.PutVisibleIff | src/storage/btree.c:183-183 | reading back a put value succeeds exactly when the put is not misrouted or the value was already there |
| BTreeRuns.PutCanBeLost | src/storage/btree.c:183-183 | after puts of 24 keys into an empty tree, overwriting the seventeenth is lost |
| BTreeRuns.DeleteLookup | src/storage/btree.c:294-297 | a delete keeps such a tree valid and removes exactly its key |
| BTreeRuns.RunIsSeen | src/storage/btree.c:237-297 | every run of puts and deletes, with misrouted puts or without, leaves a valid tree whose lookups are those of the map in which the misrouted puts did not happen |
| BTreeRuns.RunRefinesMap | src/storage/btree.c:237-297 | every run of puts and deletes without a misrouted put leaves a valid tree whose lookups are those of the map |
| BTreeRuns.StepRefinesIff | src/storage/btree.c:146-190 | after any run, one more operation keeps the refinement exactly when it is not a misrouted put that changes its key |
| BTreeRuns.RunRefinesIff | src/storage/btree.c:237-297 | a run refines the map exactly when leaving out its misrouted puts changes nothing in the end |
| BTreeRuns.CleanIsTidy | src/storage/btree.c:146-190 | a run without misrouted puts leaves no stray keys |
| BTreeRuns.ListingSorted | src/storage/btree.c:299-338 | the in-order listing is sorted; strictly so without stray keys |
| BTreeRuns.ListingIsLookup | src/storage/btree.c:299-338 | what a lookup finds is listed, and without stray keys nothing else is |
| BTreeRuns.PutListing | src/storage/btree.c:340-361 | after any put a cursor lists the pair; after a misrouted one it also lists the key with the value that lookups still find |
| BTreeStore.SplitStoreRep | src/storage/btree.c:92-144 | the node arrays after a split represent the split tree, leaf chain included |
| BTreeStore.RepChain | src/storage/btree.c:120-121 | the leaf chain visits the leaves in order |
| BTreeStore.ChainIsListing | src/storage/btree.c:299-338 | the leaves in chain order hold exactly the in-order listing |
| BTreeStore.ShiftInsert | src/storage/btree.c:162-174 | shifting up and storing at i is insertion at i |
| BTreeStore.ShiftRemove | src/storage/btree.c:273-279 | shifting down is removal at i |
| BTreeStore.LeafUpsert | src/storage/btree.c:151-174 | a leaf overwrites its key or inserts it in order |
| BTreeStore.BPlusTree.SplitChildAt | src/storage/btree.c:92-144 | in-place split of a child: exact new store |
| BTreeStore.BPlusTree.PrepareChild | src/storage/btree.c:176-187 | the child that takes the key, as the tree model chooses it, split first if it is full |
| BTreeStore.BPlusTree.InsertInto | src/storage/btree.c:146-190 | the store represents the tree after the insertion, also with stray keys in it; other nodes are untouched |
| BTreeStore.BPlusTree.Put | src/storage/btree.c:237-251 | the store follows the tree model through a put, with a new root when the old one is full, after any earlier operations |
| BTreeStore.BPlusTree.Get | src/storage/btree.c:192-210 | returns the lookup of the model |
| BTreeStore.BPlusTree.Delete | src/storage/btree.c:263-297 | the store follows the tree model through a delete, after any earlier operations |
| BTreeStore.BPlusTree.Collect | src/storage/btree.c:299-338 | following the leaf chain yields the in-order listing |
| BTreeStore.Seek | src/storage/btree.c:340-361 | the cursor position is the first item not below the key |
| History.LoadIsOverlay | src/core/db.c:68-77 | loading a flushed table entry by entry overlays its memtable, tombstones included |
| History.ReplayIsIdempotent | src/core/db.c:620-623 | replaying a log that overlaps what the tables already hold gives the fold of the whole history |
| History.SeenLoadIs | src/core/db.c:595-611 | the tree after loading tables in any order shows the map in which the misrouted puts of the loading did not happen |
| History.LoadAllLookup | src/core/db.c:595-611 | after loading in any order a key has the value its last holder gives it |
| History.LoadOrderIff | src/storage/compaction.c:109-146 | the same tables in any other order load to the same contents exactly when for every key the last holders of the two orders leave the same value |
| History.ReplaceableIff | src/core/db.c:497-521 | a table may take the number of another exactly when every key of that one is in the new table, in a newer one, or has the same value in the older ones |
| Recovery.AppendIff | src/storage/wal.c:341-406 | bytes appended to any log add exactly one operation to its replay if and only if the unread bytes followed by them read as it; they add nothing if and only if no whole record appears |
| Recovery.RecoveryIsExact | src/core/db.c:595-623 | what is on disk, the replayed log over the tables by age, is the fold of all operations whose records are whole |
| Recovery.LiveIsExact | src/core/db.c:815-886 | active over flushing memtable over B+tree shows the fold of the operations seen so far, under every key |
| Recovery.StepIff | src/core/db.c:467-536 | the guards are exact: append and torn append (behind a torn record, too), insert, acknowledge, rotate, the two halves of taking a number, table under a temporary name, rename, load into the B+tree, drop, the emptying and the rewriting of the log, crash, and reopen in any table order keep the invariant if and only if the move fits |
| Recovery.RunInv | src/core/db.c:467-536 | the invariant holds after every move of every run whose moves fit |
| Recovery.HistoryGrows | src/core/db.c:815-886 | histories and what is committed only grow along such a run |
| Recovery.CrashSafety | src/core/db.c:467-536 | a crash after any move of such a run, also inside an append, while the counting file is empty, with a table under a temporary name or inside the log header, leaves on disk the fold of a history that contains everything committed before and at most one operation more; the running database shows what it has seen |
| Recovery.FlushLeaves | src/core/db.c:490-536 | after a whole flush the tables alone hold the active memtable over the tables with other numbers; nothing of a memtable still waiting, nothing of a table that had the number |
| Recovery.FlushIff | src/core/db.c:490-536 | the disk then holds the history exactly when every key is in the active memtable or the tables with other numbers give it what the waiting entries over all tables gave it |
| Recovery.InvFlushIff | src/core/db.c:490-536 | from any state of the invariant: with a new number exactly when the tables have what the flushing memtable alone has; with nothing waiting exactly when the table of that number may be replaced |
| Recovery.RotationShowsIff | src/storage/lsm.c:283-331 | after an insertion into a full memtable, and after a rotation, the running database shows the history exactly when the tree has what the dropped memtable alone has |
| Recovery.InsertThenFlushIff | src/storage/lsm.c:283-292 | an insertion that rotates a full memtable away, and the flush that follows under a new number: the disk holds the history exactly when every key waiting in memory is the inserted one or has its value in the tables |
| Recovery.OpenThenFlushIff | src/storage/lsm.c:325-331 | the same for a replay that rotates: exactly when every key of the log before the last cut is in the rest or has its value in the tables |
| QuietRuns.QuietFits | src/core/db.c:815-886 | a move fits when no append is cut off, no crash strikes while the counting file is empty, openings load whole logs into one memtable and the tables oldest first, and no put is misrouted while tables are loaded |
| QuietRuns.QuietIsGuarded | src/core/db.c:467-623 | every run of such moves is one in which all moves fit |
| QuietRuns.QuietCrashSafety | src/core/db.c:467-623 | crash safety for every such run |
| Recovery.OpensIff | src/storage/wal.c:198-233 | the log file opens exactly when its header is whole or it is empty |
| Recovery.TornHeadIsForever | src/storage/wal.c:429-445 | after a crash inside the rewriting of the log header everything is on disk, but no move is possible any more |
| RecoveryRuns.TornHeadStopsTheDatabase | src/storage/wal.c:429-445 | a run that ends so: the acknowledged put is on disk, and no move is possible |
| RecoveryRuns.AcknowledgedPutCanBeLost | src/storage/lsm.c:283-292 | a run in which an acknowledged put is lost because a replayed log filled a memtable |
| RecoveryRuns.FlushCompletes | src/core/db.c:490-536 | every reachable state with a full or closing memtable can flush to the end; the disk then holds that memtable over the tables with other numbers, with an empty log |
| Recovery.DbGetIff | src/core/db.c:888-924 | db_get reads what the operations leave exactly when no memtable tombstone hides a key of the tree |
| RecoveryRuns.DeletedKeyCanBeRead | src/core/db.c:904-921 | a run after which a deleted key is still read |
| RecoveryRuns.SwappedTablesLoseAPut | src/storage/compaction.c:109-146 | a run with two flushes of one key whose reopening lists the newer table first: the older value is shown |
| RecoveryRuns.ReusedNumberLosesAPut | src/core/db.c:467-486 | a run in which a crash empties the counting file, so that a later flush replaces the table of an acknowledged put |
| RecoveryRuns.LeftoverTableLosesAPut | src/storage/compaction.c:109-146 | a run in which a table left under its temporary name is loaded behind a newer one and shows its older value |
| RecoveryRuns.PutBehindTornRecordIsLost | src/storage/wal.c:341-406 | a run in which a put acknowledged behind a torn record is lost and one nobody asked for is recovered |
| Recovery.SkipListSteps | src/storage/lsm.c:283-331 | what the skip list does to its map is one step of the machine memtable |
| Recovery.SkipListFlush | src/core/db.c:45-53 | what the skip list iterates is a table that loads to its map |
| Records.LERoundTrip | src/storage/wal.c:50-78 | little-endian integers of any width read back |
| Records.HeadFields | src/storage/wal.c:50-78 | the fixed part of a record reads back field by field |
| Wal.ParseWhole | src/storage/wal.c:341-406 | a whole record parses back, whatever follows it |
| Wal.ParseTorn | src/storage/wal.c:341-406 | a cut-off record is never delivered |
| Wal.WholeRecordsIsMax | src/storage/wal.c:341-406 | the count of whole records in a byte prefix is the largest whose encodings fit |
| Wal.PrefixReplay | src/storage/wal.c:341-406 | for every byte prefix of the record area, replay delivers exactly the whole records it contains |
| Wal.TornReplayIff | src/storage/wal.c:341-406 | records appended behind any cut: all is delivered exactly when the fragment followed by the new records reads as the new records, which a cut on a record boundary always does |
| Wal.DeliversIff | src/storage/wal.c:341-406 | any bytes deliver a given list of records exactly when they match them one after the other and leave no whole record |
| Wal.TornTakesOver | src/storage/wal.c:341-406 | a record torn after its fixed part takes the bytes it misses from what follows, or ends the replay if they are too few |
| Wal.TornCompletedIff | src/storage/wal.c:341-406 | it comes back as itself exactly when what follows begins with the bytes it misses |
| Wal.TearCanBeHarmless | src/storage/wal.c:341-406 | a family of torn records behind which nothing is lost |
| Wal.UnreadIsFragment | src/storage/wal.c:341-406 | what a replay of a cut log leaves unread is the fragment of its last record |
| Wal.TornTailIsMisread | src/storage/wal.c:341-406 | two records whose torn concatenation delivers a third one |
| Wal.ReplayBytes | src/storage/wal.c:341-406 | the reading loop computes the parse of the record area |
| Wal.Log.constructor | src/storage/wal.c:201-236 | a new log is its header; an existing one keeps its bytes and takes its sequence number from the header |
| Wal.Create | src/storage/wal.c:154-240 | a log, or nothing exactly for a file that is not empty and has no good header |
| Wal.ReopenReplays | src/storage/wal.c:218-236 | reopening any byte prefix of a written file and replaying it delivers exactly its whole records and leaves the sequence number of the last |
| Wal.SessionClimbs | src/storage/wal.c:272-272 | appends after such a replay go on with strictly larger sequence numbers |
| Wal.AppendBeforeReplayIff | src/storage/wal.c:226-228 | an append before the replay keeps the numbers ascending exactly when the log was empty |
| Wal.Log.Append | src/storage/wal.c:264-307 | file bytes followed by buffer bytes stay header plus encodings in order; the sequence number goes up by one, wrapping at 64 bits; refused exactly when the record exceeds 65536 bytes; what stays buffered: nothing once half full or in mode Always |
| Wal.Log.Flush | src/storage/wal.c:82-150 | moves the buffer to the file |
| Wal.Log.Replay | src/storage/wal.c:341-406 | delivers what the record area reads as, and takes over the last sequence number; after a truncation nothing |
| Wal.Log.Truncate | src/storage/wal.c:417-450 | an empty log whose header carries the sequence number on, and which can no longer be read |
| WalMmap.StepInv | src/storage/wal_mmap.c:82-138 | every byte copy, publication, position load, byte read, delivery and giving up keeps the invariant |
| WalMmap.RunInv | src/storage/wal_mmap.c:82-138 | the invariant holds in every interleaving of these moves |
| WalMmap.ReadNext | src/storage/wal_mmap.c:98-138 | a reader that has gathered the bytes of an entry, one by one, has exactly the next entry, untorn |
| WalMmap.PublishedStay | src/storage/wal_mmap.c:82-96 | published bytes never change |
| WalMmap.ReaderGoesOn | src/storage/wal_mmap.c:98-138 | a reader with an entry to read has gathered it or has a byte left that it may read |
| WalMmap.DeliveredIsPrefix | src/storage/wal_mmap.c:98-138 | in every interleaving each reader has delivered a prefix of the appended entries |
| WalMmap.DrainedHasAll | src/storage/wal_mmap.c:98-138 | a reader that drains up to the current position has delivered all entries |
| MmapRuns.AppendCompletes | src/storage/wal_mmap.c:82-96 | a resting writer alone can append any record that fits, wherever the readers are: its bytes stand behind what was published, and nothing else changes |
| MmapRuns.CatchesUp | src/storage/wal_mmap.c:98-138 | a reader at rest alone can deliver all records published, whatever the writer is copying |
| MmapRuns.GivesUpIff | src/storage/wal_mmap.c:105-109 | a reader gives up exactly when it has delivered every record below its loaded position |
| EditDistance.LevIsLowerBound | src/util/fst.c:117-154 | no edit script is cheaper than the recursive distance |
| EditDistance.LevIsAttained | src/util/fst.c:117-154 | some edit script costs exactly the recursive distance |
| EditDistance.RowMinimumBounds | src/util/fst.c:144-152 | the minimum of a row bounds the distance of every extension of the prefix |
| EditDistance.FirstRow | src/util/fst.c:162-163 | the first row holds the distances from the empty prefix |
| EditDistance.NextRow | src/util/fst.c:130-142 | the row update gives the distances from the prefix with one more character |
| EditDistance.RowMin | src/util/fst.c:144-148 | the least entry of a row |
| Fst.HitsSound | src/util/fst.c:117-154 | a search lists only wanted stored keys of the subtree |
| Fst.HitsComplete | src/util/fst.c:117-154 | and all of them |
| Fst.HitsSorted | src/util/fst.c:117-154 | in byte order |
| Fst.PrunedIsEmpty | src/util/fst.c:144-152 | a pruned subtree holds no match |
| Fst.DescendPath | src/util/fst.c:57-66 | creating the missing nodes of a path changes no lookup and leads to the node of the key |
| Fst.FstIndex.Insert | src/util/fst.c:53-73 | changes the lookup of exactly its key; longer keys are refused; the size counts distinct keys |
| Fst.FstIndex.Get | src/util/fst.c:75-87 | the stored value of the key |
| Fst.FstIndex.Collect | src/util/fst.c:89-100 | appends the values of a subtree in key order up to the limit |
| Fst.FstIndex.PrefixSearch | src/util/fst.c:102-115 | the first values, in byte order of key, of the stored keys with the prefix |
| Fst.FstIndex.FuzzyDfs | src/util/fst.c:117-154 | the values of the subtree within the edit limit, in key order, although subtrees are pruned |
| Fst.FstIndex.FuzzySearch | src/util/fst.c:156-168 | the first values, in byte order of key, of exactly the stored keys within the edit limit of the query cut to 256 bytes |
| Heaps.RootAbove | src/vector/hnsw.c:71-74 | the root is an extreme element |
| Heaps.PushIsHeap | src/vector/hnsw.c:18-31 | the climb restores the heap and adds one element |
| Heaps.PopIsHeap | src/vector/hnsw.c:33-53 | the descent restores the heap and removes the root |
| Heaps.SiftUp | src/vector/hnsw.c:23-30 | the in-place climb is the specified one |
| Heaps.SiftDown | src/vector/hnsw.c:37-51 | the in-place descent is the specified one |
| Heaps.Heap.Push | src/vector/hnsw.c:56-69 | adds an element within the array |
| Heaps.Heap.Pop | src/vector/hnsw.c:76-96 | removes and returns an extreme element |
| HnswSearch.DropFarthest | src/vector/hnsw.c:223-227 | dropping a farthest element of the nearest ef and one more leaves the nearest ef |
| HnswSearch.CandidatesFit | src/vector/hnsw.c:191-221 | the candidate heap always has room for a node not met before |
| HnswSearch.KeepResult | src/vector/hnsw.c:223-227 | the result heap holds the ef nearest of the nodes met |
| HnswSearch.Expand | src/vector/hnsw.c:213-228 | after a node is expanded all its live neighbours have been met |
| HnswSearch.InsertLeft | src/vector/hnsw.c:239-248 | one round of the insertion sort keeps the elements and extends the sorted part |
| HnswSearch.SearchLayer | src/vector/hnsw.c:181-254 | a best-first search: in every round a nearest candidate is taken and its live neighbours are met, until none is left or a nearest one is farther than ef results; the results are sorted, without repeats, the ef nearest of the nodes met, all reachable, and every live neighbour of a result was met |
| HnswSearch.SearchIsComplete | src/vector/hnsw.c:203-229 | a search that ef does not cut short returns exactly the set reachable from the entry through live nodes |
| HnswSearch.Greedy | src/vector/hnsw.c:145-173 | goes from every node to the first nearest of its live neighbours until none is strictly closer, and ends at a live node |
| HnswSearch.GreedyUnique | src/vector/hnsw.c:145-173 | where the greedy search ends is determined by where it starts |
| HnswSearch.GreedyReaches | src/vector/hnsw.c:145-173 | it ends at a reachable node that is no farther from the query |
| Hnsw.BubbleSort | src/vector/hnsw.c:323-332 | a sorted permutation |
| Hnsw.AddLink | src/vector/hnsw.c:289-340 | links both ways; a full link list keeps the nearest of its links and the new one; targets exist and degrees stay bounded |
| Hnsw.ConnectAll | src/vector/hnsw.c:477-478 | the new slot is linked with exactly the chosen nodes, each of them is offered the link back (it takes it, or keeps the nearest of its links and the new one), no other list changes, and degrees stay bounded |
| Hnsw.NewSlotUnseen | src/vector/hnsw.c:470-472 | a search from an old node cannot return the slot being inserted |
| Hnsw.LonelySearch | src/vector/hnsw.c:483-483 | a search from the unlinked slot returns that slot alone |
| HnswIndex.Index.constructor | src/vector/hnsw.c:346-387 | an empty index |
| HnswIndex.Index.FreshTag | src/vector/hnsw.c:185-189 | a visit tag no cell holds, also when the 32-bit counter wraps |
| HnswIndex.Index.Insert | src/vector/hnsw.c:413-493 | refines the map update or reports a full index; keeps link targets, degrees, one live slot per id and a live entry point; from where the greedy descent ends, the new slot is linked on its level both ways with the nearest results of a layer search (2 M of them on layer 0, M above), below it only with itself |
| HnswIndex.DescentUnique | src/vector/hnsw.c:457-458 | the descent takes the only trail there is: on every layer from the top down, the end of the greedy search from the node before |
| HnswIndex.DescentCloser | src/vector/hnsw.c:512-513 | all its nodes are live, and none is farther from the query than the entry point |
| HnswIndex.Index.Delete | src/vector/hnsw.c:542-563 | refines map removal; marks exactly the slot of the id; the entry point moves only if it was that slot, to the first live slot |
| HnswIndex.Index.Search | src/vector/hnsw.c:499-536 | distinct live ids with their distances, ascending, at most k, none only for an empty index or k not positive: the first results of a layer-0 search from where the greedy descent from the entry point ends |
| HnswIndex.Index.Get | src/vector/hnsw.c:569-581 | the vector of a live id |
| HnswIndex.Index.Count | src/vector/hnsw.c:587-595 | the number of live ids |
| Bloom.SetBitAt | src/util/bloom.c:147-147 | setting a bit sets exactly that bit |
| Bloom.MemberPasses | src/util/bloom.c:151-165 | every inserted key passes: no false negative |
| Bloom.NumBits | src/util/bloom.c:69-77 | a multiple of 64 bits that covers the request; 0 exactly when the 32-bit product leaves less than 64 below 2^32 |
| Bloom.LoadsBack | src/util/bloom.c:94-120 | a serialized filter loads back with the same shape and bits, whatever follows |
| Bloom.Check | src/util/bloom.c:151-165 | passes exactly when all bits of the key are set |
| Bloom.Filter.constructor | src/util/bloom.c:73-92 | an empty filter, usable exactly when its number of bits does not round up to 0 in 32 bits |
| Bloom.Create | src/util/bloom.c:69-92 | a filter, or nothing exactly for no keys or no bits per key |
| Bloom.Filter.Insert | src/util/bloom.c:137-149 | the bits set are exactly the bits of the inserted keys |
| Bloom.Filter.Maybe | src/util/bloom.c:151-165 | true exactly when every hash of the key, computed from the two hash functions, falls on a bit that a hash of an inserted key falls on; so false only for a key never inserted |
| Bloom.PassesIff | src/util/bloom.c:137-165 | all bits of a key are set exactly when each is a bit of an inserted key |
| Bloom.OptimalK | src/util/bloom.c:57-65 | at least 1, and otherwise bits per key times 0.69314718, rounded |
| SSTable.EntryAt | src/storage/sstable.c:139-150 | every entry is found whole at its offset in the file |
| SSTable.EntryFields | src/storage/sstable.c:472-504 | an entry parses back field by field |
| SSTable.SparseAt | src/storage/sstable.c:115-137 | slot j of the index holds the key and offset of entry 32 j |
| SSTable.Writer.Add | src/storage/sstable.c:108-166 | appends the entry to the data, the index when due, and the filter; refuses a null key and over-long keys and values |
| SSTable.Writer.CountSlots | src/storage/sstable.c:184-193 | counting from the bytes gives the number of index entries |
| SSTable.Writer.Finish | src/storage/sstable.c:168-254 | the bytes of the finished file: header, data, index, filter, checksum; the filter has 655360 bits and 7 hashes |
| SSTableReader.FilePlaces | src/storage/sstable.c:529-551 | in a finished file every entry lies at its offset |
| SSTableReader.ReadIndex | src/storage/sstable.c:352-373 | on any bytes: the index entries, or none exactly when they reach outside the mapping |
| SSTableReader.WrittenIndex | src/storage/sstable.c:352-373 | the index of a written file comes back as it was written |
| SSTableReader.WrittenFilter | src/storage/sstable.c:375-388 | the filter of a written file comes back as it was written |
| SSTableReader.Open | src/storage/sstable.c:321-400 | on any bytes: refuses an empty file, a wrong magic number or a newer version, reads outside the mapping exactly when index or filter header lie there, and opens every file the writer made to a reader of its entries |
| SSTableReader.OutsideIndexFaults | src/storage/sstable.c:352-356 | a file of a header alone whose index lies outside the mapping is taken, and read there |
| SSTableReader.IndexLowerBound | src/storage/sstable.c:416-433 | the first slot not below the key |
| SSTableReader.StartAndEnd | src/storage/sstable.c:446-468 | starting one slot below the lower bound skips only smaller keys, and the key cannot lie past the 64 entries scanned |
| SSTableReader.Get | src/storage/sstable.c:435-520 | the value and flag of the entry with the key exactly if its tombstone bit is clear, deleted exactly if it is set, missing exactly if there is no such entry; through filter, index and bounded scan |
| SSTableReader.LookupAnswers | src/storage/sstable.c:466-519 | the one-by-one lookup over ascending entries gives the value of the entry with the key, or says that it is deleted or missing |
| SSTableReader.Scan | src/storage/sstable.c:522-558 | delivers exactly the entries written |
| Merge.MergeCompare | src/storage/compaction.c:29-40 | by key, then the newer table first |
| Merge.CollectedDistinct | src/storage/compaction.c:218-238 | with distinct sequences and unique keys per input no two collected items compare equal |
| Merge.HeadIsNewest | src/storage/compaction.c:270-292 | in sorted order the first item of a key is the newest |
| Merge.KeptIsOverlay | src/storage/compaction.c:270-292 | what the loop keeps, if it runs to its end, is the strictly sorted newest-wins overlay without tombstoned keys |
| Merge.OverlayOrderFree | src/storage/compaction.c:211-238 | the overlay does not depend on the order of the inputs |
| Merge.LookupInMerged | src/storage/compaction.c:211-305 | a lookup in the merged table is the lookup in the newest input that has the key, deletions forgotten |
| Merge.NotInMerged | src/storage/compaction.c:211-305 | a key no input has is not in the merged table |
| Merge.MergeTables | src/storage/compaction.c:211-305 | a file with the newest entry of every key, if its tombstone bit is clear, is written if there is an input and the newest entry of the empty key is absent or a tombstone; otherwise an error and no file |
| Merge.BlankIff | src/storage/compaction.c:270-292 | the newest entry of the empty key is live exactly when the first item in the order is a live one with that key |
| Merge.BlankKeyStopsTheMerge | src/storage/compaction.c:54-59 | a good table with a live entry under the empty key, whose merge is refused |
| MemtableFlush.MemtableAnswers | src/core/db.c:47-57 | a table flushed from a memtable, with flag 2 for its deleted entries and 1 for the others, answers every lookup with the live value, the tombstone, or nothing |
| MemtableFlush.LoadsAsListed | src/core/db.c:68-77 | loading an entry of the file deletes its key if the memtable entry was deleted and puts its value otherwise |
| MemtableFlush.WriteTable | src/core/db.c:505-520 | the file of the flushed memtable, or none exactly when a key or a value is longer than 1048576 bytes |
| MemtableFlush.FlushAndGet | src/core/db.c:487-529 | a memtable of fewer than 2^32 - 64 entries, flushed to bytes, opened and asked for any key, gives what the memtable holds under it |
| MemtableFlush.MergedMemtables | src/storage/compaction.c:265-292 | in the merge of flushed memtables a key has the live value of the newest that has the key, and is absent if that one has deleted it |
| KMeans.Nearest | src/vector/quantize.c:104-117 | the first nearest codeword |
| KMeans.ObjectiveBound | src/vector/quantize.c:103-118 | every assignment costs at least the objective, a nearest one exactly that |
| KMeans.SetCoordCost | src/vector/quantize.c:130-136 | moving one coordinate of one codeword changes the cost by an amount that depends only on the size and the sum of its cluster |
| KMeans.MeanGain | src/vector/quantize.c:133-133 | moving it to the mean never raises the cost |
| KMeans.Accumulate | src/vector/quantize.c:121-129 | counts and coordinate sums of the clusters |
| KMeans.MoveToMeans | src/vector/quantize.c:130-136 | every codeword becomes the mean of its cluster, or stays if the cluster is empty, and the cost does not grow |
| KMeans.Iterate | src/vector/quantize.c:101-137 | one iteration moves every codeword to the mean of the points nearest to it, and never increases the total squared distance to the nearest codewords |
| KMeans.Train | src/vector/quantize.c:83-142 | the codebooks of the whole training: each refines the one before and has no larger objective; codeword c of k starts from point i of n with i / n <= c / k < (i + 1) / n; with no more points than codewords the objective is 0 |
| KMeans.SeedSpaced | src/vector/quantize.c:87-91 | the start points are evenly spaced |
| KMeans.SeedsSpread | src/vector/quantize.c:87-91 | the start points go up with the codewords, strictly if there are enough points |
| KMeans.SeedReaches | src/vector/quantize.c:87-91 | with at least as many codewords as points every point is a start point |
| KMeans.TrainBooks | src/vector/quantize.c:144-180 | a codebook of 256 codewords for every subspace, trained on the coordinates of that subspace; fails exactly if there are more subspaces than coordinates |
| KMeans.TrainingRoundTrip | src/vector/quantize.c:144-219 | codebooks trained on at most 256 vectors reconstruct the covered coordinates of each of them exactly |
| KMeans.Encode | src/vector/quantize.c:182-205 | the first nearest codeword in every subspace; further coordinates play no part |
| KMeans.CodeIsBest | src/vector/quantize.c:182-219 | no other code reconstructs the covered coordinates with a smaller error |
| KMeans.CodeDistance | src/vector/quantize.c:223-239 | the squared distance of the two reconstructions |
| SQ8.MinMax | src/vector/quantize.c:31-37 | least and greatest value of a dimension, both attained |
| SQ8.Train | src/vector/quantize.c:23-43 | a box that holds every training vector, with a training value on both sides of every dimension; exactly in constant dimensions the range is 1 instead |
| SQ8.CodeError | src/vector/quantize.c:49-61 | the decoded code of any value is within range / 510 of the nearest value of the box |
| SQ8.Encode | src/vector/quantize.c:45-55 | the code of every dimension |
| SQ8.Decode | src/vector/quantize.c:57-64 | the value of every code |
| SQ8.DecodeNear | src/vector/quantize.c:45-64 | inside the box every coordinate is off by at most range / 510 and codes fit a byte |
| SQ8.Distance | src/vector/quantize.c:66-78 | the squared distance of the decoded vectors |
| SQ8.DistanceNear | src/vector/quantize.c:66-78 | the code distance is off the true squared distance by at most a sum of explicit per-dimension bounds |
| PageLists.RemoveOk | src/util/page_cache.c:31-35 | unlinking a page leaves a well-linked ring |
| PageLists.PushOk | src/util/page_cache.c:37-42 | linking a page at the front leaves a well-linked ring |
| PageLists.LruRemove | src/util/page_cache.c:31-35 | takes exactly the page out of the recency list |
| PageLists.LruPushFront | src/util/page_cache.c:37-42 | puts exactly the page at the front |
| PageLists.ChainCut | src/util/page_cache.c:85-92 | taking a page out of its hash chain leaves a well-linked chain |
| PageCache.Find | src/util/page_cache.c:45-58 | finds the page with the id, or none is resident |
| PageCache.Touch | src/util/page_cache.c:49-51 | moves the page to the front, references it once more, changes nothing else |
| PageCache.Victim | src/util/page_cache.c:75-78 | the least recently touched page referenced at most once |
| PageCache.FindVictim | src/util/page_cache.c:75-78 | the backward walk finds that page, or the sentinel if there is none |
| PageCache.Unhash | src/util/page_cache.c:84-92 | the page leaves its hash chain, other chains and pages are unchanged |
| PageCache.DropPage | src/util/page_cache.c:82-93 | the page leaves both structures |
| PageCache.AddPage | src/util/page_cache.c:97-113 | a fresh zeroed page enters both structures at the front |
| PageCache.DirtyPageCanBeDropped | src/util/page_cache.c:74-94 | the allocation of another id drops a dirty page that was never written |
| PageCache.AllocKeeps | src/util/page_cache.c:61-114 | an allocation loses no page but the victim of an eviction, and every other page than that of the id stays as it was |
| PageCache.DirtyLostIff | src/util/page_cache.c:74-94 | a dirty page is lost exactly when the id is not resident, the cache is full, there is a victim and it is dirty |
| PageCache.Cache.PagesDistinct | src/util/page_cache.c:61-72 | no two resident pages have the same id |
| PageCache.Cache.LosesDirtyIff | src/util/page_cache.c:74-94 | the same for every valid cache and id |
| PageCache.Cache.constructor | src/util/page_cache.c:4-14 | an empty cache |
| PageCache.Cache.Get | src/util/page_cache.c:44-59 | a hit moves the page to the front with one more reference; a miss means no resident page has the id |
| PageCache.Cache.Alloc | src/util/page_cache.c:61-114 | a hit as above; otherwise a fresh page of 4096 zero bytes in front, and a full cache evicts exactly the victim or returns null unchanged when there is none; never more pages than capacity |
| PageCache.Cache.Release | src/util/page_cache.c:116-119 | one reference less, nothing else |
| PageCache.Cache.MarkDirty | src/util/page_cache.c:121-124 | sets the dirty mark, nothing else |
| PageCache.Cache.Flush | src/util/page_cache.c:126-139 | writes every dirty page exactly once and leaves all pages clean, in the same order |
| Slots.FindSlot | src/vector/vector.c:40-46 | the live slot of the id, or there is none |
| FlatIndex.ReplayAgain | src/vector/persistence.c:90-188 | replaying operations already in the state does not change it |
| FlatIndex.RecoveryIsExact | src/vector/persistence.c:194-214 | the state at t with the log replayed from any s <= t is the state of the whole history |
| FlatIndex.AnyStart | src/vector/persistence.c:90-188 | replaying the whole history over any map of ids it mentions gives the state of the history |
| FlatIndex.PartlyReadableIff | src/vector/persistence.c:220-275 | a checkpoint cut off in or between its three files leaves readable files exactly when the file being written is complete and the old files behind it are long enough |
| FlatIndex.GrownIndexDoesNotOpen | src/vector/persistence.c:253-257 | an index of one vector that grew to two: a checkpoint cut off after its first file leaves files that do not open |
| FlatIndex.MixtureIsExact | src/vector/persistence.c:220-275 | old and new files mixed by a cut, if readable, lead with the log to the state of the whole history |
| FlatIndex.InsertSlot | src/vector/vector.c:263-285 | updates the live slot or appends one, growing first |
| FlatIndex.TakeSnapshot | src/vector/persistence.c:281-314 | the snapshot holds exactly the live pairs |
| FlatIndex.Replay | src/vector/persistence.c:90-188 | the slots follow the fold of the log |
| FlatIndex.Recover | src/vector/persistence.c:376-532 | fails exactly when there is no first file or the files are not readable; otherwise the live map is that of the whole history |
| FlatIndex.Index.InsertVector | src/vector/vector.c:245-297 | one more insert in the history, of 24 bytes and 4 for each coordinate; once 10485760 bytes have been logged a checkpoint follows; a full index doubles its capacity |
| FlatIndex.Index.DeleteVector | src/vector/vector.c:348-375 | a delete that finds its id is one more operation; another changes nothing |
| FlatIndex.Index.GetVector | src/vector/vector.c:377-400 | the vector the history leaves for the id |
| FlatIndex.Index.Checkpoint | src/vector/persistence.c:194-275 | the three files become the present state; the log stays whole |
| FlatIndex.Index.CutOff | src/vector/persistence.c:220-275 | a crash inside a checkpoint, in or between its files, leaves files from which the invariant of the disk still holds |
| FlatIndex.Index.Reopen | src/vector/persistence.c:376-532 | after a crash at any point, also inside a checkpoint: success exactly for readable files, and then the live map is that of the whole history, the log size is counted from its records, and the capacity is doubled until all slots fit |
| Rows.SchemaInit | src/query/row_format.c:3-20 | sizes and places of the first 64 columns: 4, 8, 4, 8 and 1 bytes for the fixed types in their order, 0 for strings and blobs |
| Rows.FixedPlaceIff | src/query/row_format.c:3-20 | the place recorded for a fixed column is where it starts exactly when the variable values before it are empty |
| Rows.Extract | src/query/row_format.c:22-51 | on any bytes, with 32-bit offsets: the place and length of a column, nothing, or undefined when a sum overflows or a read leaves the row |
| Rows.ExtractRoundTrip | src/query/row_format.c:22-51 | for at most 64 columns and rows below 2^31 bytes, extracting column i of an encoded row gives back exactly value i, whatever follows the row |
| Rows.ExtractIff | src/query/row_format.c:22-51 | below 2^32 bytes the round trip holds exactly for rows below 2^31 bytes; a longer row gives no column |
| TypedRows.PutRow | bindings/python/kanbudb/__init__.py:677-702 | the bytes of a row of typed values, every value with its own width; fails exactly if a value is out of range |
| TypedRows.PackedIsEncoding | bindings/python/kanbudb/__init__.py:677-702 | such a row is the encoding that the extraction expects |
| TypedRows.UnpackPack | src/query/query_builder.c:246-282 | a value in range reads back from its bytes by its type |
| TypedRows.PackUnpack | src/query/query_builder.c:246-282 | the bytes read as a value are the ones it is written with, except for truth bytes above 1 |
| TypedRows.InRangeIff | bindings/python/kanbudb/__init__.py:686-701 | the values the writer takes are exactly those that some bytes read as |
| TypedRows.TypedRoundTrip | src/query/row_format.c:22-51 | column i of a row of typed values extracts to 4, 8 or 1 bytes, or the length of a text, that read back as value i |
| Rows.JoinRow | src/query/query_builder.c:637-702 | on any foreign row: the local bytes followed by the foreign columns that can be extracted, without the join column; undefined when one reaches outside the row or the size exceeds 32 bits |
| Rows.JoinedEncoding | src/query/query_builder.c:666-702 | an encoded foreign row adds exactly its values without the join column |
| Rows.JoinedExtract | src/query/query_builder.c:620-713 | with at most 64 combined columns and rows below 2^31 bytes, a joined row extracts under the combined schema to the local values followed by the foreign ones |
| Rows.UnmatchedOwn | src/query/query_builder.c:664-664 | a row without a match still extracts its own columns under the combined schema |
| Rows.UnmatchedForeign | src/query/query_builder.c:709-713 | and every foreign column of it extracts to nothing, as long as the offsets stay below 2^31 |
| Utf8.DecodeEncode | src/vector/embedding.c:25-72 | a code point decodes back, whatever follows, for all that four bytes can carry |
| Utf8.DecodeIff | src/vector/embedding.c:25-48 | any bytes decode to as many bytes as the top bits of the first one say, or to none |
| Utf8.EncodeDecodeIff | src/vector/embedding.c:25-72 | a decoded code point encodes to the bytes it was read from exactly if those after the first start with the bits 10 and no shorter form exists |
| Utf8.TextRoundTrip | src/vector/embedding.c:25-72 | a text decodes back to the code points encoded |
| Utf8.FirstDifference | src/vector/embedding.c:51-72 | where two encodings first differ the smaller code point has the smaller byte |
| Utf8.OrderIsCodePointOrder | tools/gen_dict_header.py:27-33 | the byte order of encoded texts is their code-point order |
| Segment.PoolWord | tools/gen_dict_header.py:31-55 | the string at each offset of the pool is its word |
| Segment.GeneratedDict | tools/gen_dict_header.py:27-55 | a pool written in code-point order can be searched by bytes |
| Segment.BufferString | src/vector/embedding.c:103-109 | the zero-terminated buffer of a text is read as the text up to its first zero code point |
| Segment.DictLookup | src/vector/embedding.c:75-87 | finds exactly the words of the dictionary, but sees a text only up to its first zero code point |
| Segment.NextLen | src/vector/embedding.c:99-115 | the greatest length in the window whose lookup succeeds, else 1; the buffer never overflows |
| Segment.PieceLenIff | src/vector/embedding.c:99-115 | that is the longest dictionary word exactly when the text does not start with a word followed by a zero code point in the window; else it is the whole window |
| Segment.GreedyPartitions | src/vector/embedding.c:90-127 | the pieces are the text, cut |
| Segment.GreedyIsLongestIff | src/vector/embedding.c:101-115 | every piece is the longest dictionary word at its place, or a single code point where none starts, exactly when no cut is followed by a word and a zero code point in the window |
| Segment.GreedyIsTrueIff | src/vector/embedding.c:90-127 | under the same condition the cuts are those of maximum matching |
| Segment.NoZeroIsClean | src/vector/embedding.c:90-127 | a text without code point 0 meets it |
| Segment.ZeroIsSwallowed | src/vector/embedding.c:103-110 | a word followed by a zero code point is cut together with it |
| Segment.SegmentText | src/vector/embedding.c:90-127 | the output is all pieces of the text with spaces, or those of a prefix that leave less than 9 places free; all of it for at most 2044 code points in a buffer of 4096 |

## Left out

- Recovery.CrashSafety: one writer thread, every record handed to the file at once, no compaction and no I/O error; a table under a temporary name counts as complete once its header is written.
- Recovery.StepIff: exact for the invariant, which asks that the log replays exactly the operations logged; a misread record could by chance still leave the right contents.
- SSTableReader.Open: what a read outside the mapping gives is not determined.
- SSTableReader.Get: keys strictly increasing, as both writers of tables add them.
- Merge.MergeTables: inputs with distinct sequence numbers and unique keys, so that the library sort has one possible result.
- HnswIndex.Index.Insert: construction breadth of at least 1, distances totally ordered; no claim about connectivity or recall.
- FlatIndex.Index.Reopen: log records are values, not bytes, so a torn log record is not modelled.
- PageCache.Cache.Alloc: reference counts do not overflow; the pages' data is changed by their holders outside the cache.
- Rows.JoinRow: what a read outside the foreign row gives is not determined; the lookup of the foreign row by its formatted key is a parameter.
- Rows.ExtractIff: rows of 4 GB and more, whose length wraps to a small one.
- Fst.FstIndex.FuzzySearch: keys and queries are byte strings without a terminator.
- Checksums of tables: the writer and the reader cover different bytes and nothing depends on the result.
- Background compaction of the whole store and loading by level: older levels can override newer data; only the merge is modelled.
- Concurrent puts and flushes, and closing while a worker runs: the log append and the memtable insert are not one critical section.
- Switching the shared mapped log to a new file, and reader convergence to the writer's map.
- HNSW persistence, and batch insertion into the flat index, which permits duplicate ids.
- Flat top-k search: it keeps a min-heap where a max-heap is intended.
- SIMD distance kernels and floating-point rounding.
- Tables as name spaces: the memtable and the tree ignore the table id, so there is one key space.
- Conditions and filters of the query builder, full-text search, parser, ranking, arena, bindings: simple or heuristic code that would add easy members.
