# Sietch in Dafny

A model of the Sietch storage engine (`crates/storage`) and proofs about it. Sietch keeps all data in
an append-only log. On top of it sit a multi-version store with compaction and snapshot-isolated
transactions, a paged B+Tree behind a clock-eviction buffer pool, a heap page store, and an indexed
store that combines log and tree.

`dafny verify dfyconfig.toml` checks the whole project.

## Layout

| files | part |
|---|---|
| Bytes, Records, Segments, Logs | byte formats, torn-tail recovery, rollover, replay |
| Versions, Scans, Stores, Guards, StoreObjects | version histories, prefix scans, compaction, held snapshots, the store object |
| Swaps, SwapStores | the compaction swap as atomic file operations with crashes, and what the store answers after it |
| Txns, TxnObjects | the transaction protocol over every interleaving, and the objects that implement its steps |
| Pages, SlottedPages | pages as lists of slots, and the byte layout that implements them in place |
| Buffers | the buffer pool |
| Nodes, Trees, Entries, Chains, TreeSteps, TreeWalks, BTrees | node formats, tree shape, sibling chain, recursive operations, the B+Tree object |
| HeapPages, HeapPageStores | the heap page store under crashes |
| IndexMaps, IndexRuns, IndexedStores | the index as a map, runs with stops and reopens, the indexed store object |

State machines and byte formats are pure functions with lemmas. Objects whose fields the engine
updates are classes, and each method states its new state as one of those functions of the old state.

## How the model reads the engine

- The checksum is an arbitrary function from bytes to 32 bits, passed as a parameter. No result
  depends on collisions.
- A segment or heap file is a byte sequence. A crash leaves any prefix of an append in flight; in the
  heap it may leave up to a page of any bytes. Segment ids are positions in the list of segments.
- A directory is a map from names to files, with atomic create, rename and remove.
- A region under one lock is one atomic action. A transaction drops its guard under the registry's own
  lock, after the store's lock is released, so that is an action of its own. Time is the number of
  actions so far.
- Pages in the buffer pool are values, since each frame owns its page. The byte layout of a page is
  modelled separately in SlottedPages. The page store behind the pool is a map of pages, the contract
  that MemPageStore implements directly and HeapPageStores proves for the heap file.
- Widths are explicit: 64-bit sequence numbers, page ids and offsets, 32-bit lengths in records,
  16-bit offsets and lengths in pages.

## What does not hold

Five properties the design promises fail in some states. Each has a concrete failing case and the
exact condition under which the property holds.

- **Compaction without a guard.** The next sequence number is recomputed from the surviving records,
  while the index is kept. When no guard is held and the newest record is a tombstone, it drops, and
  a later snapshot can read a deleted value (`UnsafeCompactionRevivesDeletedKey`). From a coherent
  state, compaction stays coherent if and only if a guard is held, the history is empty, or the newest
  record is a Put (`CompactCoherentIff`). A store is coherent when opened and while every compaction
  since then met that condition. After one that did not, a transaction begun right away is refused on
  the newest key although nobody committed (`FreshTxnConflictsIff`), and the damage lasts: numbers are
  given out twice, contrary to ADR-012, and a later compaction with a guard held can lose an
  acknowledged write at the next reopening (`UnsafeCompactionLosesLaterWrite`). A reopening is sound as
  long as only writes came in between (`ReopenRecoverable`). For any history, a compaction without a guard keeps every current value
  across a reopening, and one with a guard keeps a key's newest version if and only if no retained
  version of the key has a larger number (`CompactionKeepsNewestIff`). The transaction and held-snapshot
  results are for runs in which each `compact` meets the condition or is followed at once by a restart;
  an open transaction always meets it.
- **Crash inside the backup loop.** On resume the loop is skipped when the backup directory exists, so
  old segments not yet moved survive next to the compacted ones (`CrashInBackupMixes`). The outcome is
  kept if and only if `Covered` holds (`CrashSafeIff`). With crashes anywhere, every completed reopening
  finds exactly the old or exactly the compacted log if and only if the compacted log reuses the name of
  every old segment (`AlwaysAtomicIff`), that is, if the old log has one segment
  (`OneSegmentSwapCovered`). Otherwise the store can answer with an overwritten value
  (`UncoveredCrashReadsStale`).
- **Large entries.** A leaf is split by entry count and the left page is written before the right half
  is known to fit. With key and value of 181 bytes it may not (`LargeEntriesBreakSplit`), and the insert
  fails after half of the leaf's entries are gone (`FailedSplitLosesEntries`). A bound on key plus
  value makes every split fit if and only if it is at most 180 bytes (`SplitsFitIff`).
- **Page ids across restarts.** The page store trait says ids are never reused. An id given out by the
  heap page store and never written is given out again after a reopen
  (`UnwrittenIdComesAgain`). The next id survives if and only if none was given out or the last one
  was written (`ReopenForgetsUnwrittenIds`). Ids that hold a page are never given out again.
- **Records replayed after an unclean stop.** ADR-006 promises at most `checkpoint_interval - 1`. A put
  makes its log record durable before it checkpoints, so a stop in between leaves a full interval; with
  an interval of 1, one put and a stop right after its append replay one record
  (`FullIntervalReplayed`). At most `checkpoint_interval` records are ever replayed, and that many if
  and only if the store stopped between the append of the interval-th record and the end of its
  checkpoint (`RunReplays`).

## Where code and documentation differ

The model follows the code.

- The comment on delete says the root shrinks when it has a single child left. The code replaces the
  root only when its only child became empty.
- ADR-012 says keys deleted before the oldest held snapshot are dropped. With a guard held, the code
  keeps the newest version before the threshold even when it is a tombstone.
- A fresh meta page keeps page type Data until the root id first changes; after that it is Meta.

## Model

| member | source | states |
|---|---|---|
| BTrees.BTree.Insert | crates/storage/src/btree.rs:249-373 | upsert refines `map[key := value]` through leaf splits, internal splits with key promotion and root growth; entries of at most 180 bytes never fail; the whole image invariant (sorted separators that bound their subtrees, one depth, no shared page, no empty reachable leaf unless it is the only one, sibling chain) is kept |
| BTrees.BTree.Delete | crates/storage/src/btree.rs:388-487 | the return value is prior membership and the map loses exactly that key, through child removal, leftmost promotion and root replacement; the image invariant is kept, no page is allocated, and the tree loses a level exactly when its last entry goes while it has more than one |
| BTrees.BTree.Get | crates/storage/src/btree.rs:217-247 | a point read returns what the map holds, and changes no page |
| BTrees.BTree.ScanAll | crates/storage/src/btree.rs:494-526 | the full traversal returns exactly the pairs of the map, strictly sorted by key |
| BTrees.BTree.ListingSorted | crates/storage/src/btree.rs:494-526 | that listing, which the map presents, is strictly sorted |
| BTrees.BTree.ScanRange | crates/storage/src/btree.rs:534-568 | the walk along sibling pointers terminates, also through orphaned leaves, and returns strictly sorted exactly the pairs of the map with start <= key < end, for all bounds |
| Chains.WindowMembers | crates/storage/src/btree.rs:534-568 | an entry is in a filtered listing if and only if it is in the listing, not below the start and below the end |
| BTrees.BTree.Depth | crates/storage/src/btree.rs:603-623 | the leftmost walk finds the depth of every leaf |
| BTrees.BTree.Open | crates/storage/src/btree.rs:176-197 | a blank meta page gets an empty leaf as root; any other store opens to the tree whose image it holds |
| BTrees.BTree.Flush | crates/storage/src/btree.rs:595-597 | after a flush the page store alone holds the image of the tree, so `Open` finds it again |
| BTrees.BTree.RootId | crates/storage/src/btree.rs:199-206 | the meta page names the root |
| BTrees.SiblingsReachTheRest | crates/storage/src/btree.rs:438-443 | from any reachable leaf the on-page sibling pointers lead through exactly the later reachable leaves in order, with only empty leaves in between, to the end of the chain |
| BTrees.InsertStep | crates/storage/src/btree.rs:297-310 | splicing a split leaf into the row of leaves and into the chain of all leaves ever created keeps the image |
| BTrees.DeleteStep | crates/storage/src/btree.rs:461-483 | a leaf that empties and drops out of the tree stays in the chain as an empty orphan |
| BTrees.EmptiedIff | crates/storage/src/btree.rs:388-417 | the descent reports the tree emptied if and only if no entry is left in it |
| TreeWalks.InsertRecursive | crates/storage/src/btree.rs:274-373 | one descent leaves one subtree, or two with the promoted separator, in place of the old one; only pages of that subtree and new pages change; every pin is returned |
| TreeWalks.DeleteRecursive | crates/storage/src/btree.rs:419-487 | one descent removes the key from its leaf, drops emptied children and reports emptiness exactly when the whole subtree has no entry left |
| TreeWalks.GetRecursive | crates/storage/src/btree.rs:222-247 | the descent reaches the one leaf whose range holds the key |
| TreeWalks.FindLeafForKey | crates/storage/src/btree.rs:573-593 | likewise for the start of a range scan |
| TreeWalks.ScanRecursive | crates/storage/src/btree.rs:501-526 | in-order traversal of a subtree |
| TreeWalks.WriteSplit | crates/storage/src/btree.rs:297-310 | writing both halves of a split holds two pins at once and returns both, so a pool of two frames is never exhausted |
| TreeSteps.RouteOk | crates/storage/src/btree.rs:629-648 | routing picks the child whose bounds hold the key, with smaller keys to its left and larger ones to its right |
| Nodes.LeafSplitFits | crates/storage/src/btree.rs:297-308 | entries of at most 180 bytes: whenever a leaf overflows by one entry, both halves of the by-count split are non-empty and fit |
| Nodes.InternalSplitFits | crates/storage/src/btree.rs:346-363 | the same for an internal node, whose middle entry gives its key to the parent |
| Nodes.SplitsFitIff | crates/storage/src/btree.rs:297-308 | a bound on key plus value makes every such split fit if and only if it is at most 180 bytes |
| Nodes.LargeEntriesBreakSplit | crates/storage/src/btree.rs:297-306 | 181 bytes fail: a concrete full leaf whose split by count leaves a right half that does not fit |
| Nodes.FailedSplitLosesEntries | crates/storage/src/btree.rs:297-306 | in that case the leaf has already been overwritten: of its 42 entries 21 are left on it and no page took the others |
| Nodes.BuildLeaf | crates/storage/src/btree.rs:144-151 | building a leaf page succeeds exactly when the entries and the sibling slot fit |
| Nodes.BuildInternal | crates/storage/src/btree.rs:153-162 | the same for an internal page |
| Nodes.LeafPageReads | crates/storage/src/btree.rs:120-132 | reading a built leaf gives back its entries and its sibling |
| Nodes.InternalPageReads | crates/storage/src/btree.rs:134-142 | reading a built internal page gives back its entries |
| Nodes.LeafEntryRoundTrip | crates/storage/src/btree.rs:46-61 | a leaf entry decodes to itself, and is key length, key, value length and value, lengths in two little-endian bytes |
| Nodes.InternalEntryRoundTrip | crates/storage/src/btree.rs:89-118 | an internal entry decodes to itself; its length field is 65535 for the leftmost entry, and the child id is the last eight bytes |
| Nodes.RouteIndex | crates/storage/src/btree.rs:637-648 | the chosen entry is the last whose key is not above the search key |
| Buffers.BufferPool.Sweep | crates/storage/src/buffer.rs:179-204 | second chance: the victim is the first unpinned frame from the hand whose reference bit is clear, or the first unpinned one if all of those were referenced; bits are cleared exactly on the unpinned frames passed, the hand ends behind the victim, and it gives up exactly when every frame is pinned |
| Buffers.BufferPool.FindFrameFor | crates/storage/src/buffer.rs:167-205 | a frame is found exactly unless the pool is full of pinned frames: a new one while there is room, else the second-chance victim, whose entry leaves the page table; a dirty victim is written back, so what clients read is unchanged |
| Buffers.BufferPool.NewPinned | crates/storage/src/buffer.rs:66-81 | only the new page enters the logical page map, pinned and referenced; fails exactly when exhausted |
| Buffers.BufferPool.Fetch | crates/storage/src/buffer.rs:83-101 | pins, marks as referenced and changes nothing of the logical page map; fails exactly when the page is not cached and the pool is exhausted |
| Buffers.BufferPool.ReadPage | crates/storage/src/buffer.rs:103-105 | a pinned page reads its value in the logical page map |
| Buffers.BufferPool.PageMut | crates/storage/src/buffer.rs:107-115 | the one operation that changes an existing page in the logical page map |
| Buffers.BufferPool.Unpin | crates/storage/src/buffer.rs:117-128 | returns one pin; the logical page map is untouched if mutations are reported as dirtied |
| Buffers.BufferPool.Flush | crates/storage/src/buffer.rs:130-139 | writes one page through and no other, without changing what clients read |
| Buffers.BufferPool.FlushAll | crates/storage/src/buffer.rs:141-147 | afterwards, with no mutation outstanding, the store alone equals the logical page map |
| Buffers.BufferPool.NotExhausted | crates/storage/src/buffer.rs:179-204 | fewer outstanding pins than frames means a frame can be freed |
| Stores.CompactionKeepsPresent | crates/storage/src/store.rs:174-206 | for every history with increasing sequence numbers, the store reopened from the compacted log answers every get and scan as before |
| Stores.CompactionKeepsSnapshots | crates/storage/src/store.rs:174-206 | with guards held, so does every get_at and scan_at from the oldest held snapshot on, and the next sequence number is the same |
| Stores.CompactCoherentIff | crates/storage/src/store.rs:208-250 | without reopening, index and log stay coherent after a compaction if and only if a guard is held, the history is empty or the newest record is a Put |
| Stores.CompactKeepsVersionsPast | crates/storage/src/store.rs:241-243 | equivalently for a client: it is safe if and only if every version in the index lies before a snapshot taken after the compaction |
| Stores.UnsafeCompactionRevivesDeletedKey | crates/storage/src/store.rs:241-243 | in the other case one more write can make a fresh snapshot read a deleted value again, shown on a history of one put and one delete |
| Stores.UnsafeCompactionLosesLaterWrite | crates/storage/src/store.rs:187-190 | a value written after an unsafe compaction is lost by a later compaction with a guard held and a reopening, although a guard makes the later one look safe |
| Stores.CompactionKeepsNewestIff | crates/storage/src/store.rs:174-206 | for every history, increasing or not: without a guard every current value survives compaction and reopening; with one, a key's newest version stays its newest if and only if no retained version has a larger number |
| Stores.CompactRecoverable | crates/storage/src/store.rs:174-244 | a compaction of an increasing history, safe or not, leaves a log in order that answers for the present as the index does |
| Stores.ApplyRecoverable | crates/storage/src/store.rs:284-302 | writes keep it so |
| Stores.ReopenRecoverable | crates/storage/src/store.rs:110-133 | a reopening is then coherent and answers every get and scan as before |
| Stores.CompactedEnd | crates/storage/src/store.rs:200-206 | for every history, the compacted log ends each key's versions with the retained one of largest number, the last of them if several share it |
| Versions.SortEnd | crates/storage/src/store.rs:206-206 | the stable sort by number leaves the top version of each key last |
| Stores.CompactedVersions | crates/storage/src/store.rs:174-206 | the compacted log holds, per key, exactly the retained versions, in order |
| Stores.CompactedKeepsIff | crates/storage/src/store.rs:180-199 | with a guard a version survives if and only if it is at or past the threshold or is the newest before it; without one, if and only if it is the newest of its key and not a tombstone |
| Stores.OneVersionBefore | crates/storage/src/store.rs:187-190 | with a guard, the compacted log holds at most one version of a key from before the threshold |
| Stores.CompactedIncreasing | crates/storage/src/store.rs:200-206 | after sorting, sequence numbers are those of the history and still strictly increase |
| Stores.CompactedNextSeq | crates/storage/src/log.rs:228-239 | the next sequence number survives exactly if the newest record is retained |
| Versions.RetainedReads | crates/storage/src/store.rs:180-199 | every snapshot at or after the threshold reads the same from the retained versions |
| Versions.RetainedIff | crates/storage/src/store.rs:180-199 | exactly which versions of an ascending list are retained, with and without a threshold |
| Stores.ApplyKeeps | crates/storage/src/store.rs:284-302 | a batch is invisible to every snapshot taken before it, in the index and in the log |
| Stores.ApplyReads | crates/storage/src/store.rs:284-302 | after a batch a key reads its last write in the batch, or what it read before if the batch does not touch it |
| Stores.FreshSnapshotIsPresent | crates/storage/src/store.rs:358-363 | a snapshot taken now reads the present |
| Versions.ReadAtIsFold | crates/storage/src/store.rs:315-322 | get_at at n is the newest value in the history cut to sequence numbers below n |
| Scans.PrefixScanSpec | crates/storage/src/store.rs:326-353 | range-from-prefix plus take-while returns exactly the live keys whose first bytes are the prefix, with their values, in order, under any read |
| Stores.ScanSpec | crates/storage/src/store.rs:326-353 | scan and scan_at list in key order exactly the pairs that get and get_at return for keys whose first bytes are the prefix |
| Bytes.PrefixContiguous | crates/storage/src/store.rs:326-353 | of two keys at or above the prefix, if the larger one begins with the prefix byte for byte, so does the smaller |
| Bytes.LessSpec | crates/storage/src/store.rs:326-353 | a key is smaller if and only if it is a proper prefix or has the smaller byte at the first difference |
| Bytes.FromLEConcat | crates/storage/src/record.rs:68-104 | little-endian: the bytes of a number split anywhere are worth the low part plus 256^length times the high part |
| Guards.HeldSnapshotStable | crates/storage/src/store.rs:141-153 | over every run of writes, holds, drops and safe compactions, a read through a live guard keeps returning its first answer |
| Guards.ActionKeeps | crates/storage/src/store.rs:84-94 | the registry is exactly the multiset of live guards, and later sequence numbers never fall below a held snapshot |
| Guards.ThresholdIsOldestGuard | crates/storage/src/store.rs:151-153 | the compaction threshold is the minimum over the live guards |
| StoreObjects.Store.Open | crates/storage/src/store.rs:110-133 | the index is rebuilt from exactly the replayed records; the torn-tail flag is set if and only if the last segment does not end with a whole record |
| StoreObjects.Store.ReadsHistory | crates/storage/src/store.rs:306-322 | reading the index reads the history, for get, get_at and latest_seq |
| StoreObjects.Store.ScansHistory | crates/storage/src/store.rs:326-353 | likewise for scan and scan_at |
| StoreObjects.Store.ApplyBatch | crates/storage/src/store.rs:284-302 | log and index advance together by the stamped batch |
| StoreObjects.Store.Put | crates/storage/src/store.rs:253-265 | a batch of one put |
| StoreObjects.Store.Delete | crates/storage/src/store.rs:267-276 | a batch of one tombstone |
| StoreObjects.Store.HoldSnapshot | crates/storage/src/store.rs:141-149 | registers the present as held and returns it |
| StoreObjects.Store.DropGuard | crates/storage/src/store.rs:84-94 | removes one occurrence from the registry |
| StoreObjects.Store.Compact | crates/storage/src/store.rs:174-250 | replaces the log by the compacted records in one segment, leaves the index, and reports the live keys and the segment counts |
| StoreObjects.LiveKeysCounted | crates/storage/src/store.rs:180-199 | the reported number of live keys is the number of keys with a current value |
| StoreObjects.ReportsLive | crates/storage/src/store.rs:180-199 | for an increasing history the report counts exactly the keys for which get returns a value |
| Swaps.SwapIsAtomic | crates/storage/src/store.rs:398-464 | over any number of covered crashes and reopens, a completed reopening leaves exactly the old segments if the marker was never written and exactly the compacted ones otherwise, and no leftovers |
| Swaps.CrashSafeIff | crates/storage/src/store.rs:431-464 | a crash keeps the outcome if and only if it is outside the backup loop or every old segment still in place has a name the compacted log reuses |
| Swaps.OneSegmentNeedsNoCare | crates/storage/src/store.rs:431-464 | when the compacted log reuses every old name, as for a log of one segment, crashes may strike anywhere |
| Swaps.AlwaysCoveredIff | crates/storage/src/store.rs:431-464 | before the swap starts: every point of every run with crashes anywhere is covered if and only if the compacted log reuses the name of every old segment |
| Swaps.AlwaysAtomicIff | crates/storage/src/store.rs:398-464 | with crashes anywhere, every completed run holds exactly the old files if the marker was never written and exactly the compacted ones otherwise, if and only if the compacted log reuses every old name |
| Swaps.Finishes | crates/storage/src/store.rs:398-464 | from any point of recovery, the remaining steps complete and end in the segments the run was heading for |
| Swaps.MixedRun | crates/storage/src/store.rs:440-450 | for any set of old segments left behind by a crash in the backup loop, the completed run holds them next to the compacted ones |
| Swaps.CleanUpOrderIff | crates/storage/src/store.rs:459-464 | of all orders of removing scratch directory, backup and marker, a crash after any number of removals is harmless in that order only |
| Swaps.CrashInBackupMixes | crates/storage/src/store.rs:440-450 | otherwise a crash inside the backup loop leaves a store that is neither log |
| Swaps.Directory.FinishOrDiscard | crates/storage/src/store.rs:398-429 | recovery ends with exactly the segments the directory found stands for, by a path of atomic file operations |
| Swaps.Directory.FinishPendingCompaction | crates/storage/src/store.rs:431-464 | the resumed swap keeps its outcome at every step |
| SwapStores.SwapKeepsPresent | crates/storage/src/store.rs:208-244 | after a compaction interrupted by any number of covered crashes, the store that a completed reopening finds answers every get and scan as before the compaction began |
| SwapStores.OneSegmentSwapCovered | crates/storage/src/store.rs:431-464 | no crash needs to be excluded if and only if the old log has one segment |
| SwapStores.UncoveredCrashReadsStale | crates/storage/src/store.rs:440-450 | a concrete log of three segments, a crash that leaves the middle one behind, and a reopened store that answers with an overwritten value |
| SwapStores.InOrderNamed | crates/storage/src/log.rs:49-69 | listing the segment files by number gives back the segments of the log |
| Txns.SnapshotIsolation | crates/storage/src/txn.rs:127-149 | over every interleaving of begin, get, put, delete, commit, abort, guard drops, safe compaction, restart and crashes inside a commit, committed transactions with overlapping lifetimes have disjoint write sets |
| Txns.ActionKeeps | crates/storage/src/txn.rs:52-155 | every atomic call keeps the invariant behind it: conflicts of an open transaction are exactly the keys committed since it began |
| Txns.CommitRefusedIff | crates/storage/src/txn.rs:131-138 | a commit is refused if and only if a transaction that overlapped this one committed one of its keys |
| Txns.ActionReads | crates/storage/src/txn.rs:127-149 | only a successful commit changes what the store answers, and all its writes show at once; failed commits, aborts, guard drops, compactions and restarts change nothing; a crash inside a commit shows a prefix of its writes in key order |
| Txns.Bookkeeping | crates/storage/src/txn.rs:52-149 | what the run theorems rest on is recorded as it happens: begin times, unbuffered reads, and for each commit its lifetime and the keys made durable |
| Txns.CrashLeavesPrefix | crates/storage/src/txn.rs:139-148 | whatever number of bytes of the batch reached the log, opening it is a crash that kept a prefix of the writes in key order, all of them exactly if every byte arrived |
| Txns.CrashReads | crates/storage/src/txn.rs:139-148 | the store reopened after it reads the writes that landed and everything else as before |
| Txns.DropKeeps | crates/storage/src/store.rs:84-94 | dropping a guard after the store lock is released keeps the invariant, whatever began or compacted in between |
| Txns.NoLostUpdate | crates/storage/src/txn.rs:100-149 | a key read unbuffered and then written by a committing transaction had that value just before the commit |
| Txns.CounterCountsCommits | crates/storage/src/txn.rs:100-149 | a counter ends at its initial value plus the number of increments made durable, crashes inside commits included |
| Txns.ReadsFromBegin | crates/storage/src/txn.rs:96-105 | a transaction reads its own write, or else what the store answered when it began, whatever others do meanwhile |
| Txns.OpenTxnAllowsCompaction | crates/storage/src/txn.rs:69-75 | while a transaction is open its guard makes compaction safe |
| Txns.FreshTxnConflictsIff | crates/storage/src/txn.rs:131-138 | a compaction is safe if and only if no transaction begun right after it conflicts on any key; otherwise it conflicts on the newest key although nobody committed |
| TxnObjects.TransactionalStore.Open | crates/storage/src/txn.rs:39-43 | opens to the initial state of the protocol |
| TxnObjects.TransactionalStore.Begin | crates/storage/src/txn.rs:52-61 | is the begin step: a held snapshot of the present |
| TxnObjects.TransactionalStore.Get | crates/storage/src/txn.rs:65-67 | a read outside any transaction returns the committed value and no buffered write |
| TxnObjects.TransactionalStore.Compact | crates/storage/src/txn.rs:73-75 | is the compaction step, and reports the number of keys with a value and the segment counts; every open transaction goes on unless no guard is held and the newest record is a tombstone |
| TxnObjects.Transaction.Get | crates/storage/src/txn.rs:100-105 | is the read step: returns the buffered write or the snapshot value, and records an unbuffered read |
| TxnObjects.Transaction.Put | crates/storage/src/txn.rs:107-109 | is the buffering step for a put |
| TxnObjects.Transaction.Delete | crates/storage/src/txn.rs:111-113 | is the buffering step for a delete |
| TxnObjects.Transaction.FindConflict | crates/storage/src/txn.rs:132-138 | the checking loop returns the first conflicting key in key order, and none exactly if there is none |
| TxnObjects.Transaction.Commit | crates/storage/src/txn.rs:127-149 | is the commit step followed by the guard drop: all writes or none, and the guard is dropped either way |
| TxnObjects.Transaction.Abort | crates/storage/src/txn.rs:155-155 | is the abort step followed by the guard drop |
| Logs.RunHistory | crates/storage/src/log.rs:87-168 | over every run of batched appends, rollovers, crashes and reopens, opening never fails and replay yields the acknowledged operations, interrupted batches cut to a prefix, numbered 0, 1, 2, ... |
| Logs.BatchEqualsParts | crates/storage/src/log.rs:200-218 | a batch replays like its parts appended one after another |
| Logs.AppendLayout | crates/storage/src/log.rs:158-168 | a completed append adds its bytes as one more batch behind those in the log, and each segment stays within the size limit or holds exactly one batch |
| Logs.CrashLayout | crates/storage/src/log.rs:87-139 | opening what a crash inside an append left adds exactly the encoding of the records that replay keeps, as one batch, with the same limit and no segment sealed that had room |
| Logs.RunLayout | crates/storage/src/log.rs:87-168 | over every run of appends, rollovers, crashes and reopens, the segments hold exactly the batches the events left, in order and none split; each segment is within the size limit or holds exactly one of them; and no sealed segment is empty or had room for the bytes of every event |
| Logs.RollOverLayout | crates/storage/src/log.rs:158-168 | sealing moves no batch and leaves an active segment that is empty or has room for the incoming one; a segment is sealed only if it is not empty and has no room |
| Logs.OpenAfterCut | crates/storage/src/log.rs:87-139 | opening after a crash inside an append recovers the old records and a prefix of the batch, the whole of it exactly if every byte arrived |
| Logs.OpenTruncates | crates/storage/src/log.rs:97-139 | opening keeps every recovered record and leaves no torn segment |
| Logs.LogReopens | crates/storage/src/log.rs:87-139 | a log with no torn segment reopens to itself |
| Logs.VerbatimOk | crates/storage/src/log.rs:228-239 | records written verbatim replay unchanged, in one segment, with the next sequence number past them all |
| Logs.Log.Open | crates/storage/src/log.rs:87-156 | the replay loop computes exactly that, refusing a torn sealed segment and reporting a torn last one |
| Logs.RefusedIff | crates/storage/src/log.rs:97-139 | opening is refused if and only if some segment before the last holds more bytes than its whole records |
| Logs.NextSeqSpec | crates/storage/src/log.rs:97-139 | the next sequence number is one past the largest number in the log, or 0 |
| Logs.Log.RollOverIfNeeded | crates/storage/src/log.rs:158-168 | seals the active segment exactly if it is not empty and would grow past the limit |
| Logs.Log.AppendBatch | crates/storage/src/log.rs:200-218 | assigns consecutive sequence numbers and appends the records |
| Logs.Log.AppendRecordsVerbatim | crates/storage/src/log.rs:228-239 | appends the records as given |
| Records.DecodeEncode | crates/storage/src/record.rs:68-145 | decoding an encoded record followed by anything gives the record and its length |
| Records.EncodeDecode | crates/storage/src/record.rs:68-145 | whatever decodes re-encodes to the same bytes |
| Records.TruncatedIsIncomplete | crates/storage/src/record.rs:106-145 | a record cut anywhere is incomplete, never another record |
| Records.EncodeLayout | crates/storage/src/record.rs:68-104 | the bytes of a record, field by field: type, number, two lengths, checksum over those and the payload, key, value |
| Records.ChecksumCovers | crates/storage/src/record.rs:57-66 | the checksum covers type, number, key and value: records that differ in any have different checksum inputs |
| Records.DecodesIff | crates/storage/src/record.rs:106-145 | a buffer decodes if and only if it begins with the encoding of a record, and then to that record |
| Records.IncompleteIff | crates/storage/src/record.rs:106-145 | it is incomplete if and only if it is shorter than a header or than the lengths in its header ask for |
| Segments.ParsePrints | crates/storage/src/segment.rs:29-48 | for every buffer, re-encoding the recovered records reproduces exactly the first valid_len bytes, and nothing decodes right after them |
| Segments.CutRecoversPrefix | crates/storage/src/segment.rs:29-48 | a clean segment cut at any byte recovers exactly the longest whole-record prefix |
| Segments.TruncateThenAppend | crates/storage/src/segment.rs:65-80 | truncating at valid_len and appending recovers the old records followed by the new ones with no torn tail |
| Segments.Recover | crates/storage/src/segment.rs:29-48 | the scan loop computes the parse, its length and whether a tail is torn |
| Segments.AppendBatch | crates/storage/src/segment.rs:110-122 | appends the encodings and returns each record offset |
| SlottedPages.SlottedPage.Insert | crates/storage/src/page.rs:129-146 | in place on the 4096 bytes: appends one live slot exactly when it fits; the new slot then resolves to the record and every other as before; nothing changes when it fails |
| SlottedPages.SlottedPage.Get | crates/storage/src/page.rs:148-157 | reads the slot, or an error exactly when it is absent or deleted |
| SlottedPages.SlottedPage.Delete | crates/storage/src/page.rs:161-171 | succeeds exactly if the slot resolves; the slot then stops resolving and every other resolves as before; otherwise no change |
| Pages.DeleteGets | crates/storage/src/page.rs:161-171 | deleting succeeds exactly while the slot resolves; afterwards it does not, and every other slot resolves as before |
| Pages.InsertGets | crates/storage/src/page.rs:129-146 | a new record resolves under the next slot id, and every earlier slot as before |
| SlottedPages.SlottedPage.SlotIds | crates/storage/src/page.rs:173-175 | exactly the slots that resolve, in order |
| SlottedPages.SlottedPage.FreeSpace | crates/storage/src/page.rs:121-123 | what is left of the 4080 bytes; no u16 subtraction underflows |
| SlottedPages.SlottedPage.constructor | crates/storage/src/page.rs:76-84 | a new page lays out no slots |
| SlottedPages.SlottedPage.DecodePage | crates/storage/src/page.rs:195-217 | adopts exactly the images that pass the checks |
| SlottedPages.InsertLaysOut | crates/storage/src/page.rs:129-146 | the written bytes lay out the old slots and the new one |
| SlottedPages.DeleteLaysOut | crates/storage/src/page.rs:161-171 | the written bytes lay out the old slots with that one dead |
| SlottedPages.RegionsApart | crates/storage/src/page.rs:110-146 | record regions are disjoint, above the slot directory and inside the page, and no live offset is the tombstone mark |
| SlottedPages.LayoutUnique | crates/storage/src/page.rs:110-175 | a buffer lays out at most one list of slots |
| SlottedPages.RunFitsIff | crates/storage/src/page.rs:129-171 | over any run of inserts and deletes, all inserts succeed exactly if the sum of (4 + length) fits what is left, and earlier slots change only by deletion |
| SlottedPages.RunResolves | crates/storage/src/page.rs:129-171 | over any run of inserts and deletes, each slot resolves to the record inserted under it, and to nothing once deleted |
| SlottedPages.DecodeEncode | crates/storage/src/page.rs:187-217 | the stored image of a page decodes to that page, slot for slot |
| SlottedPages.EncodeDecode | crates/storage/src/page.rs:187-217 | whatever decodes re-encodes to the same image |
| SlottedPages.CoveredIff | crates/storage/src/page.rs:177-184 | the page checksum covers every byte of the page except its own four |
| HeapPages.RunReadsLastLanded | crates/storage/src/heap_page_store.rs:64-150 | over any run of writes, crashes anywhere inside a write, allocations and reopens, each page reads the last image that landed and the heap is only appended to |
| HeapPages.RunKeepsIdsFresh | crates/storage/src/heap_page_store.rs:64-150 | if completed writes use ids given out before, a fresh id never names a page the heap holds, over any such run |
| HeapPages.CrashOk | crates/storage/src/heap_page_store.rs:131-143 | after a crash in the heap write or the location write, opening gives the page old or new and every other page unchanged |
| HeapPages.WriteOk | crates/storage/src/heap_page_store.rs:131-143 | a completed write changes that page only and rewrites no byte; ids stay below the next fresh one exactly if the id written was |
| HeapPages.LocationsInside | crates/storage/src/heap_page_store.rs:64-110 | every location is page-aligned and inside the heap |
| HeapPages.ReopenForgetsUnwrittenIds | crates/storage/src/heap_page_store.rs:91-109 | reopening keeps the next id exactly if the last id given out was written; otherwise an unwritten id is given out again |
| HeapPages.UnwrittenIdComesAgain | crates/storage/src/heap_page_store.rs:91-109 | the smallest case: an empty store gives out id 1, and after a reopen gives it out again |
| HeapPages.GivenOutCounts | crates/storage/src/heap_page_store.rs:145-149 | between two opens the ids given out are consecutive, so no two are equal |
| HeapPageStores.HeapPageStore.Open | crates/storage/src/heap_page_store.rs:64-110 | truncates a partial page and replays the location log |
| HeapPageStores.HeapPageStore.ReadPage | crates/storage/src/heap_page_store.rs:120-129 | a located page always decodes, to the page last written under its id; other ids read none |
| HeapPageStores.HeapPageStore.WritePage | crates/storage/src/heap_page_store.rs:131-143 | the page map served gains exactly that page |
| HeapPageStores.HeapPageStore.AllocatePageId | crates/storage/src/heap_page_store.rs:145-149 | returns the next id and advances it by one; that id holds no page |
| IndexMaps.TailReplay | crates/storage/src/indexed_store.rs:134-142 | from any complete image of a log prefix whose sentinel does not overstate it, tail replay gives the same user entries as replaying the whole log |
| IndexMaps.TailBounded | crates/storage/src/indexed_store.rs:134-142 | replay is bounded by how far the sentinel lags, and empty exactly when it does not |
| IndexMaps.CaughtUpGrows | crates/storage/src/indexed_store.rs:134-142 | an image stays usable for tail replay while the log grows past it |
| IndexMaps.ReconciledReflects | crates/storage/src/indexed_store.rs:134-152 | opening any such image gives an index of the whole log with its sentinel at the end |
| IndexRuns.RunServes | crates/storage/src/indexed_store.rs:123-235 | over every run of puts, deletes, checkpoints, stops at any step and reopens, the index answers as the plain store over every record ever appended |
| IndexRuns.RunReplays | crates/storage/src/indexed_store.rs:134-188 | wherever the store stops, a reopening replays at most one interval of records, and a full interval if and only if it stopped between the append of the interval-th record and the end of its checkpoint |
| IndexRuns.FullIntervalReplayed | crates/storage/src/indexed_store.rs:163-188 | the bound of interval - 1 fails: interval 1, one put, a stop right after its append, one record replayed |
| IndexRuns.ActionKeeps | crates/storage/src/indexed_store.rs:163-205 | every step keeps log, live index and stored image in the relation that makes any stop recoverable |
| IndexMaps.ApplyReflects | crates/storage/src/indexed_store.rs:251-261 | applying a record keeps the index up with the log |
| IndexMaps.GetAgrees | crates/storage/src/indexed_store.rs:209-212 | a point read agrees with the plain store over the same records |
| IndexMaps.UserKeyOrder | crates/storage/src/indexed_store.rs:73-86 | the namespace byte keeps key order |
| IndexMaps.ValueRoundTrip | crates/storage/src/indexed_store.rs:91-109 | tagged values decode to what was encoded, tombstones included |
| IndexedStores.ScanAgrees | crates/storage/src/indexed_store.rs:218-235 | filtering the full traversal scans as the plain store does |
| IndexedStores.CatchUp | crates/storage/src/indexed_store.rs:134-140 | the replay loop on the B+Tree computes the tail replay and counts it |
| IndexedStores.Reconcile | crates/storage/src/indexed_store.rs:134-151 | afterwards the index reflects the whole log and the sentinel is the next sequence number |
| IndexedStores.IndexedStore.Open | crates/storage/src/indexed_store.rs:123-161 | is the reopen step: a current index over the whole log, the number of records replayed, and whether the log had a torn tail |
| IndexedStores.IndexedStore.Put | crates/storage/src/indexed_store.rs:163-172 | the plain store over the same log advances by one put and the index keeps up |
| IndexedStores.IndexedStore.Delete | crates/storage/src/indexed_store.rs:174-179 | likewise for a delete |
| IndexedStores.IndexedStore.AppendAndApply | crates/storage/src/indexed_store.rs:181-188 | is the append step, the apply step and the checkpoint step when due; sentinel plus pending count is the next sequence number, and pending stays below the interval |
| IndexedStores.IndexedStore.Checkpoint | crates/storage/src/indexed_store.rs:196-205 | is the checkpoint step: the page store alone then holds an image that needs no replay |
| IndexedStores.IndexedStore.Get | crates/storage/src/indexed_store.rs:209-212 | equals get on the plain store |
| IndexedStores.IndexedStore.Scan | crates/storage/src/indexed_store.rs:218-235 | equals scan on the plain store, in key order |
| IndexedStores.IndexedStore.ReplayIsBounded | crates/storage/src/indexed_store.rs:181-205 | stopped between calls, the store leaves fewer records to replay than one checkpoint interval |

## Left out

- Real files, fsync, directory listing, file handles and the placeholder log used while swapping.
- I/O errors in the middle of an operation: an operation succeeds or the process crashes.
- CRC-32 itself, and any claim that corruption is always detected.
- All-or-nothing crash recovery of a batch: recovery keeps a prefix of whole records, and that is what is proved.
- Index images torn part-way through a page flush, or written by evictions between checkpoints: only complete images are replayed onto.
- Minimum occupancy and balance after deletes, page reclamation, and serializability; write skew is allowed by design.
- LogPageStore, the command line tool, the benchmarks, and all timing claims.
- Thread scheduling inside a locked region, and mutex poisoning.
- BTrees.BTree.Open: asks for a pool of at least two frames when the store is blank; with one frame the engine reports an exhausted pool.
- BTrees.BTree.Insert: asks for key plus value of at most 180 bytes, the exact bound up to which no leaf split can fail, for a pool of at least two frames, and for page ids within 64 bits.
- Buffers.BufferPool.Fetch: asks for an id below the next fresh one; a fetch beyond it would cache a page under an id that is handed out later.
- Buffers.BufferPool.Unpin: asks that the last unpin after a mutation reports it as dirtied, as the pool's contract does; otherwise the mutation may be lost on eviction.
- StoreObjects.Store.Compact: replaces the log in one step; the file operations and crashes of that step are in Swaps.
- StoreObjects.Store.Open: starts from the segments left once a pending swap is settled; the settling is in Swaps, and SwapStores joins the two.
- IndexedStores.IndexedStore.Put: asks for key plus value of at most 178 bytes, so that the namespaced key and the tagged value fit the exact bound of the tree.
- IndexedStores.IndexedStore.Delete: asks for a key of at most 178 bytes, for the same reason.
- IndexedStores.IndexedStore.AppendAndApply: asks for a record of at most 178 bytes, for the same reason.
- IndexedStores.IndexedStore.Open: takes the B+Tree already opened by `BTrees.BTree.Open`, and asks that the log's numbers increase and its records have at most 178 bytes of key and value.
- IndexedStores.IndexedStore.Scan: the final sort is not repeated, since the result is proved to be in order already.
