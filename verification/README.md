# BoltDB in C++: a verified model

A Dafny model of a copy-on-write B+tree store with a page free list, one writer and many readers, together with
proofs of what keeps it correct. The parts and their files:

- **Common** holds the constants and the optional value that several parts share.
- **Free list** (`PageIds`, `FreeListSpec`, `FreeList`): the ids free now, the ids pending per transaction, the lookup
  index, and the page they are saved in. The class does the work in place; each method is proved against a relation
  on free-list states, and the relations are what the rest reasons with.
- **Store** (`Store`, `StoreInvariant`, `StoreRuns`, `StoreTheorems`, `StoreIndex`): a state machine of two meta slots, the page
  file, the free list, readers and a writer. Steps begin and end transactions, free and allocate spans, carry out a
  commit piece by piece, roll back, and crash between any two of these. Disk pages not yet synced may hold anything.
  One inductive invariant gives the theorems over every run. `StoreFaults` adds the rollback of a commit that fails
  after the switch to its new list page, and says exactly when a run with such rollbacks stays sound.
- **Database** (`Database`, `FileMap`): the object with its fields updated in place. Every method is shown to be a step
  (or, for a commit, a sequence of steps) of the store, so every theorem over runs holds of it; and every method keeps
  the mapping over all pages below the high-water mark unless the mapping was lost. Mapping and file sizes use the
  32-bit arithmetic of the source.
- **Cursor** (`Keys`, `Trees`, `Positions`, `Searching`, `Cursor`): a stack of (page or node, index) over page ids. Its
  methods are specified by ranks in the in-order sequence of the tree's entries. `ReaderViews` puts the cursor on the
  store: an open reader finds the same tree on the disk of every later state. `WriterViews` has a transaction read its
  own changes: a put or a removal in a cached node, then a lookup.
- **Nodes and pages** (`Nodes`, `Bytes`, `LeafPages`): sorted inode lists, splitting, the byte layout of a leaf page,
  and inline buckets.
- **Rebalancing** (`Rebalance`, `NodeSizes`, `Merging`): removal of empty nodes and merges into the left sibling, up the parent chain, and the
  root's own turn.

`dafny verify dfyconfig.toml` checks everything.

Where the code does not do what its comments or the obvious reading say, the code is followed and the difference is
stated as a theorem:

- A rollback after the commit switched to the new list page (`src/Bolt/tx.cc:82-98`) rereads that page. The store stays
  sound exactly when the page happens to list what was free before or, once the meta is written, when no open reader
  needs a page that was freed (`LateRollbackSafeIff`, `FaultRunSafeIff`); never once the new list is in the page and
  the meta is not written (`RollbackRestoresIffBeforeSwitch`). In the run of `LateRollbackRuinsStore` the committed
  root and list page are given away and overwritten while a reader is open.
- A remap that fails after `munmap` leaves no mapping, yet an allocation from the free list still succeeds: the pages are
  covered after an allocation if and only if the mapping was not lost (`AllocatePage`). Opening a file maps no page past
  the last one, as allocations otherwise do, exactly when the larger of file and requested size ends with that page and
  is itself a size that is picked (`Open`, `SpareUnlessExact`; a file of eight pages in `ExactMapping`).
- `prev` stops at an empty leaf, so backward iteration is the mirror image exactly when no entry lies before an empty
  leaf: `BackwardMirrors`, `BackwardStopsAtEmptyLeaf`; the same leaf decides whether `prev` undoes `next`.
- `seek` yields nothing at the end of a leaf although `src/Bolt/cursor.h:40-43` promises the next key: exactly when the
  leaf that separators lead to holds only keys below the one sought (`SeekNothingIff`, in a two-leaf tree
  `SeekNothingBelowStored`). `SeekPlace` says where one `next` then leads.
- Rebalancing a first child needs a right sibling that `nextSibling` never finds (`src/Bolt/node.cc:476-478`,
  `553-562`), and a root left with one nonempty leaf asserts on page id 0 (`src/Bolt/node.cc:443-451`):
  `RebalancingFailsIff`, with the two-leaf trees of `TwoLeafRootFails` and `EmptiedLeafRootFails`. A node without a
  parent link takes the root's turn wherever it is: `OrphanTurn`.
- A merge of two ordered branches is ordered only under conditions on their touching ends: `MergeOrderedIff`, with
  `MergeBreaksOrder` and `MergeBreaksSeparators`. `MergeTidy` and `TidyOrdered` give the trees for which it always is.
- An inline bucket found in a cached node is opened with a pointer into a parameter that is gone
  (`src/Bolt/bucket.cc:78-81`), the outcome `Dangling` of `OpenBucket`.
- `free` and `release` never extend the index (`src/Bolt/freeList.cc:187-226`): it is sound (`IndexSound`) and misses
  exactly the pages freed since the last rebuild and not handed out since (`IndexMisses`, `IndexCompleteIff`), such as
  the page of `IndexMissesFreedPage`.

## Model

| member | source | states |
|---|---|---|
| StoreTheorems.SnapshotIsolation | src/Bolt/db.cc:403-449 | over every run, while a reader is open each page committed when it began keeps its content, is not free, is still committed or pending under a later txid, and every path from its root reads the same |
| StoreTheorems.AllocationSparesReaders | src/Bolt/db.cc:293-329 | no allocation of any run hands out a page of an open reader or of the committed tree |
| StoreTheorems.CrashAtomicity | src/Bolt/tx.cc:171-213 | in every run a crash at any point recovers a complete store: the old one before the meta write, old or new until it is synced, with the free list naming exactly the other pages; for runs with late rollbacks see FaultRunCrash |
| StoreFaults.FaultRunCrash | src/Bolt/tx.cc:43-106 | the same in runs with late rollbacks that do no harm |
| StoreFaults.FaultRunSafeIff | src/Bolt/tx.cc:43-106 | in runs that also roll back after the switch, all states are sound (isolation, recoverability, conservation) if and only if each such rollback, before the meta write, reread a page listing what was free before and, after it, freed no page an open reader needs |
| StoreFaults.LateRollbackSafeIff | src/Bolt/tx.cc:80-98 | the same for one such rollback, also after a failed sync of the meta; before the meta write that is also when it restores the ids |
| StoreTheorems.CommitSparesCommittedSlot | src/Bolt/meta.cc:10-24 | a meta write never touches the slot of the committed meta, and its txid is the next one |
| StoreTheorems.PageConservation | src/Bolt/freeList.cc:126-226 | in every reachable state pages 2 to total-1 are the disjoint union of used, free and pending pages, none listed twice; during a write transaction with its working set and its own total |
| StoreTheorems.ReleaseAtBegin | src/Bolt/db.cc:423-433 | beginning a writer keeps the owned pages and the sorting; a pending list stays, unchanged, if and only if an open reader is not newer than its txid (or the txid has reached the 64-bit maximum), so none without readers below that |
| StoreTheorems.IndexSound | src/Bolt/freeList.cc:204-226 | in every reachable state the index marks only owned pages, so none of the writer's own pages trips the already-freed assertion |
| StoreIndex.IndexMisses | src/Bolt/freeList.cc:126-226 | in every run the owned pages the index does not mark are those freed since the last rebuild and not handed out since |
| StoreIndex.IndexCompleteIff | src/Bolt/freeList.cc:216-222 | so the index is complete if and only if there are none, and the assertion catches the second free of a page if and only if it is not one of them |
| StoreIndex.IndexMissesFreedPage | src/Bolt/freeList.cc:211-226 | a three-step run after which a freed page is pending and not marked |
| StoreTheorems.IndexRebuilt | src/Bolt/freeList.cc:234-256 | after a reopen or rollback the index marks exactly the owned pages |
| StoreTheorems.RollbackUndoes | src/Bolt/tx.cc:29-41 | whatever was freed and allocated since the writer began, a rollback restores free and pending lists exactly |
| StoreFaults.RollbackRestoresIffBeforeSwitch | src/Bolt/tx.cc:76-98 | at any point before the meta write a rollback restores the lists if and only if the reread page lists what was free before: always before the switch, never after it once the new list is on disk, when the pages this transaction freed come back free, the committed list page among them |
| StoreFaults.LateRollbackRuinsStore | src/Bolt/tx.cc:88-98 | a concrete run: a page write fails, the rollback frees the committed root and list page, the next writer overwrites both while a reader is open, and no crash can be recovered from |
| StoreInvariant.StepKeeps | src/Bolt/tx.cc:29-78 | the store invariant is kept by every step: readers, frees, allocations, commit pieces, rollback before the switch, close, crash; for the rollback after it see LateRollbackSafeIff |
| StoreInvariant.RunKeeps | src/Bolt/db.cc:243-286 | it holds of a new file and hence in every state of every run |
| StoreRuns.RunBacked | src/Bolt/tx.cc:190-213 | in every run all pages below the committed mark are on disk |
| ReaderViews.ReaderTreeStays | src/Bolt/tx.cc:129-142 | however pages are decoded, the tree an open reader finds from its root on the disk of any later state is the one committed when it began |
| ReaderViews.ReadLater | src/Bolt/bucket.cc:349-365 | so for_each there visits exactly the entries of that moment, once and in order |
| ReaderViews.TreeUnique | src/Bolt/bucket.cc:410-433 | following page ids leads to one tree only |
| WriterViews.NodeChanges | src/Bolt/bucket.cc:422-429 | a cached node hides the page it was read from, and no other page |
| WriterViews.BufferChanges | src/Bolt/tx.cc:129-142 | without a cached node a buffered page hides the mapped one, and no other page |
| WriterViews.MappingChanges | src/Bolt/tx.cc:140-141 | with neither, the mapped page shows |
| WriterViews.NothingPastMark | src/Bolt/tx.cc:130-132 | past the high-water mark only cached nodes are found |
| WriterViews.InlineChanges | src/Bolt/bucket.cc:414-421 | the root node of an inline bucket hides its page |
| WriterViews.ChangeShown | src/Bolt/bucket.cc:410-433 | a view in which one leaf's page shows other entries shows the tree with those entries in that leaf |
| WriterViews.FlattenAround | src/Bolt/bucket.cc:349-365 | in the in-order sequence only that leaf's entries change |
| WriterViews.PutThenGet | src/Bolt/bucket.cc:437-458 | after a put into the leaf that separators lead to, a lookup yields the new value under its key and what was there before under any other |
| WriterViews.DelThenGet | src/Bolt/bucket.cc:460-480 | after a removal it yields nothing under its key and what was there before under any other |
| StoreInvariant.SurvivorsComplete | src/Bolt/db.cc:91-129 | the meta picked after a crash describes a complete store on disk |
| StoreInvariant.PreparedListFits | src/Bolt/tx.cc:64-76 | the run reserved from the list's size before the allocation holds the list written after it, whichever way the run was taken |
| FreeListSpec.ListFits | src/Bolt/freeList.cc:44-76 | size()/4096 + 1 pages hold every slot of a list no longer than the one measured, count slot included |
| FreeListSpec.SizeIsExact | src/Bolt/freeList.cc:164-171 | the size is that of the header and of every slot the list fills, in 32 bits |
| FreeListSpec.SlotsFill | src/Bolt/freeList.cc:44-76 | a run has as many slots as fit behind its header, and no more |
| FreeListSpec.ListRoundTrip | src/Bolt/freeList.cc:19-76 | reading a list page gives back the ids written, below and from 0xffff on, whatever follows in the page |
| FreeListSpec.AllocatesKeeps | src/Bolt/freeList.cc:126-162 | an allocation keeps the list well formed and takes exactly its span from the owned pages |
| FreeListSpec.ReleasesKeeps | src/Bolt/freeList.cc:187-202 | a release keeps the list well formed and neither loses nor gains a page |
| FreeListSpec.FreesKeeps | src/Bolt/freeList.cc:211-226 | freeing a span not owned yet adds exactly that span and leaves other transactions' lists alone |
| FreeListSpec.FreesWellFormedIff | src/Bolt/freeList.cc:211-226 | the list stays well formed if and only if the span is past the meta pages and not owned yet |
| FreeListSpec.RollsBackKeeps | src/Bolt/freeList.cc:204-256 | rollback and reload leave the list well formed, owning the reread ids and the remaining pending pages |
| FreeLists.FindRun | src/Bolt/freeList.cc:126-162 | the one-pass scan returns 0 exactly when no n consecutive ids exist (or n is 0), else the lowest run |
| FreeLists.FreeList.Allocate | src/Bolt/freeList.cc:126-162 | first fit: the lowest run of n ids leaves the ids and the index, order kept; 0 changes nothing |
| FreeLists.FreeList.Release | src/Bolt/freeList.cc:187-202 | the lists up to the txid join the ids, strictly increasing; later lists and the index stay |
| FreeLists.FreeList.Free | src/Bolt/freeList.cc:211-226 | demands only what the assertion does, that no page of the span is marked; the span joins the transaction's list and the index marks nothing new |
| FreeLists.FreeList.Rollback | src/Bolt/freeList.cc:204-209 | the transaction's list and its index entries go, ids stay |
| FreeLists.FreeList.Reload | src/Bolt/freeList.cc:234-256 | ids become the page's ids that are not pending, sorted, and the index exact |
| FreeLists.FreeList.Read | src/Bolt/freeList.cc:19-41 | ids become the sorted ids of the page in either count format, and the index exact |
| FreeLists.FreeList.Write | src/Bolt/freeList.cc:44-76 | the page then lists free and pending ids together, strictly increasing |
| FreeLists.FreeList.CopyAll | src/Bolt/freeList.cc:90-99 | the merged list is strictly increasing and holds exactly the free and pending ids |
| FreeLists.FreeList.MergeIds | src/Bolt/freeList.cc:102-124 | the two-pointer loop computes the merge, which MergeIncreasing shows sorted and conserving |
| FreeLists.MergeIncreasing | src/Bolt/freeList.cc:102-124 | merging disjoint increasing lists gives one increasing list of all their ids |
| FreeLists.FreeList.Reindex | src/Bolt/freeList.cc:78-88 | the index marks exactly the free and pending pages |
| FreeLists.FreeList.Count | src/Bolt/freeList.cc:173-184 | the sum of lengths is the number of distinct owned pages |
| FreeLists.FreeList.Size | src/Bolt/freeList.cc:164-171 | for the increasing list of all owned ids: 16 bytes and 8 for each slot it fills, in 32 bits |
| FreeLists.Reopen | src/Bolt/freeList.cc:19-76 | a saved list read into an empty one gives the increasing list of all free and pending ids, and an exact index |
| Databases.Database.Create | src/Bolt/db.cc:243-286 | a new file is the initial state of the store, mapped with the least size, its pages and one more covered |
| Databases.Database.Open | src/Bolt/db.cc:91-112 | opening the file a crash left is the crash step of the store, with all pages mapped; one more is mapped unless the larger of file and requested size ends with the last page and is a size that is picked |
| Databases.Database.BeginTx | src/Bolt/db.cc:437-449 | is a reader-begin step: the reader gets the committed meta |
| Databases.Database.RemoveTx | src/Bolt/db.cc:367-378 | is a reader-end step |
| Databases.Database.MinReader | src/Bolt/db.cc:423-428 | the least txid of open readers, or the largest 64-bit value |
| Databases.Database.BeginRWTx | src/Bolt/db.cc:403-435 | is a writer-begin step: next txid, release up to the oldest reader's predecessor |
| Databases.Database.FreePage | src/Bolt/tx.cc:125-125 | freeing a span of the writer's tree is a free step; the free list accepts it |
| Databases.Database.AllocatePage | src/Bolt/tx.cc:144-156 | is an allocation step, or leaves the store unchanged; afterwards the pages are covered if and only if the mapping is not lost, which happens only when a needed remap unmaps and cannot map, and ends with the next successful remap |
| Databases.Database.RollbackTx | src/Bolt/tx.cc:29-41 | is a rollback step |
| Databases.Database.CloseRWTx | src/Bolt/db.cc:351-365 | is a writer-end step |
| Databases.Database.PrepareCommit | src/Bolt/tx.cc:61-78 | frees the old list page, takes a run for the new one and saves the list in it, or rolls all of that back; the pages stay covered unless the mapping was lost |
| Databases.Database.WritePages | src/Bolt/tx.cc:190-213 | a sequence of page-write steps that stops at the first failed write; without one every taken page is on disk; no other page changes |
| Databases.Database.WriteMetaPage | src/Bolt/tx.cc:171-188 | is a meta-write step to the slot of the txid's parity |
| Databases.Database.Commit | src/Bolt/tx.cc:43-106 | is a sequence of store steps that ends with the writer's tree committed, every earlier committed page intact, the mapping kept and a raised mark covered by mapping and file; or a rollback step; or, when growing, a write or a sync fails, steps followed by a late rollback |
| FileMaps.GetMmapSize | src/Bolt/db.cc:209-222 | the least power of two from 2^15 to 2^30 covering the target; too large above the limit; the assertion fails in between |
| FileMaps.MapSizeLeast | src/Bolt/db.cc:206-222 | no other admissible size that covers the target is smaller |
| FileMaps.FileMap.InitMeta | src/Bolt/db.cc:131-172 | exactly when it succeeds and what is left: the old mapping when size or unmapping fails, none when mapping fails, else the least mapping that covers file and request, also when no meta in it is valid |
| FileMaps.FileMap.Reserve | src/Bolt/db.cc:305-328 | a successful raise of the mark leaves one page more than the mark mapped, a mapping that is large enough is not touched, and the 32-bit conversion loses nothing |
| FileMaps.SpareUnlessExact | src/Bolt/db.cc:131-172 | when the target covers the pages, its mapping reaches one more unless the target ends with the last page and is itself a size that is picked |
| FileMaps.ExactMapping | src/Bolt/db.cc:209-222 | a file of eight pages is mapped without a ninth |
| FileMaps.FileMap.Grow | src/Bolt/tx.cc:215-239 | the file takes the size of the mapping up to 16 MB, else 16 MB more than requested in 32 bits; the requested size is reached if and only if the file had it, a small mapping reaches it, or a large size does not wrap; then the file does not shrink |
| Keys.LessIff | src/Bolt/type.h:67-74 | a key is below another exactly when it ends or has the lower unsigned byte where they first differ |
| Keys.LessTrichotomy | src/Bolt/type.h:67-74 | exactly one of below, equal, above holds of two keys |
| Keys.LessTransitive | src/Bolt/type.h:67-74 | the key order is transitive |
| Keys.BinarySearch | src/Bolt/cursor.cc:182-224 | returns the lower bound of the key, and found exactly when the key is present |
| Trees.OrderedLeaves | src/Bolt/cursor.cc:69-91 | under the separator invariant the leaves ascend, each wholly below the later ones, within the bounds |
| Searching.Descend | src/Bolt/cursor.cc:69-91 | descending to the chosen child narrows the leaves that can hold the key to that child's |
| Searching.RankOfKey | src/Bolt/cursor.cc:50-67 | the lower bound in the one leaf that can hold the key is its rank in the whole tree |
| Cursors.Cursor.DoFirst | src/Bolt/cursor.cc:319-340 | descends to the leftmost leaf below the top |
| Cursors.Cursor.DoLast | src/Bolt/cursor.cc:342-364 | descends to the last item of the rightmost leaf below the top |
| Cursors.Cursor.DoNext | src/Bolt/cursor.cc:289-317 | lands on the entry after those passed, skipping empty leaves, or empties the stack after the last; terminates |
| Cursors.Cursor.First | src/Bolt/cursor.cc:269-287 | lands on entry 0 of the in-order sequence, or ends |
| Cursors.Cursor.Next | src/Bolt/cursor.cc:247-252 | lands on the next entry of the in-order sequence, or ends |
| Cursors.Cursor.Last | src/Bolt/cursor.cc:254-267 | lands on the last item of the last leaf |
| Cursors.Cursor.Prev | src/Bolt/cursor.cc:226-245 | steps back within the leaf, or to the end of the leaf before, or empties the stack at the first item |
| Cursors.Cursor.KeyValue | src/Bolt/cursor.cc:151-180 | the entry under the top, or nothing out of range |
| Cursors.Cursor.Search | src/Bolt/cursor.cc:25-48 | ends at the key's lower bound in the only leaf that can hold it |
| Cursors.Cursor.SearchBranch | src/Bolt/cursor.cc:69-91 | follows the last separator not above the key, else the first child |
| Cursors.Cursor.Seek | src/Bolt/cursor.cc:93-113 | ends at the key's rank in the whole tree and shows the entry there unless the leaf ends |
| Cursors.SeekPlace | src/Bolt/cursor.cc:93-105 | a shown entry is the least one not below the key in the whole tree; after nothing one next lands on that entry; a stored key is always shown |
| Cursors.SeekNothingIff | src/Bolt/cursor.cc:93-105 | a seek yields nothing if and only if the leaf that separators lead to holds only keys below the one sought |
| Cursors.SeekNothingBelowStored | src/Bolt/cursor.cc:98-103 | a tree and a key for which it yields nothing although a larger key is stored |
| Cursors.Cursor.SeekThenNext | src/Bolt/cursor.cc:93-105 | with nonempty keys a seek, and one next after nil, yield the least entry not below the key, or nothing when there is none |
| Cursors.Cursor.Get | src/Bolt/bucket.cc:482-492 | the value exactly when the key is stored as a non-bucket pair, else the empty string |
| Cursors.Cursor.ForEach | src/Bolt/bucket.cc:349-365 | calls the function on the in-order pairs until it returns nonzero or a key is empty, and returns that result; with nonempty keys and a function that never stops it visits every pair once and in order |
| Cursors.VisitAll | src/Bolt/bucket.cc:349-365 | with nonempty keys and a function that never stops, every pair is visited once and in order |
| Cursors.VisitStops | src/Bolt/bucket.cc:357-364 | what is visited is the entries up to the first empty key or nonzero result, which is returned |
| Cursors.Cursor.CollectBackward | src/Bolt/cursor.cc:226-267 | last and repeated prev, in a tree with nonempty keys, yield the reverse of the in-order sequence if and only if no entry lies before an empty leaf |
| Positions.BackwardMirrors | src/Bolt/cursor.cc:226-245 | meeting leaves from the right up to an empty one is the reverse of all entries if and only if no entry lies before an empty leaf |
| Positions.BackwardIs | src/Bolt/cursor.cc:226-245 | in any tree what is met is what lies after the last empty leaf, reversed |
| Cursors.BackwardVisits | src/Bolt/cursor.cc:226-267 | with nonempty keys that is also when the loop that stops at an empty key yields the reverse |
| Positions.BackwardStopsAtEmptyLeaf | src/Bolt/cursor.cc:226-245 | two leaves, the second empty: nothing is visited backward |
| Cursors.Cursor.NextThenPrev | src/Bolt/cursor.cc:226-252 | prev undoes next if and only if next stayed in its leaf or the leaf just before its new one has entries |
| Positions.EntryUnique | src/Bolt/cursor.cc:226-317 | the stack at an entry is unique, so equal ranks mean equal positions |
| Nodes.Node.Put | src/Bolt/node.cc:130-156 | refuses page ids past the mark and empty keys; else the list changes as a sorted map does at that key only |
| Nodes.Node.Del | src/Bolt/node.cc:158-170 | the list loses that key only, stays sorted, and the node is marked unbalanced exactly when the key was there |
| Nodes.PlaceIsUpdate | src/Bolt/node.cc:130-156 | placing an inode at its lower bound keeps the order and updates the map at its key only |
| Nodes.EraseIsRemove | src/Bolt/node.cc:158-170 | erasing an inode keeps the order and removes its key only |
| Nodes.Node.Size | src/Bolt/node.cc:102-116 | header, elements, keys and values summed |
| Nodes.Node.SizeLessThan | src/Bolt/node.cc:382-392 | the early exit agrees with comparing the whole size; an empty node is always less |
| Nodes.Node.SplitIndex | src/Bolt/node.cc:402-417 | from 2 on the inodes before the index fit the threshold, and the next one would pass it or only three are left |
| Nodes.Node.SplitTwo | src/Bolt/node.cc:336-380 | splits unless at most 4 inodes or below the page size; the right part is a new sibling under the same, possibly new, parent |
| Nodes.Node.Split | src/Bolt/node.cc:319-334 | terminates with the specified pieces as nodes of one kind under one parent, in order, and the parent's children grown by the new ones |
| Nodes.SplitConserves | src/Bolt/node.cc:319-380 | the pieces joined are the original inodes |
| Nodes.SplitBounded | src/Bolt/node.cc:319-417 | there is one piece exactly when there are at most 4 inodes or they are below the page size; each piece but the last has 2 inodes or fits the threshold; the last has at most 4 inodes or is below the page size, and after a split at least 3 |
| Nodes.SplitFills | src/Bolt/node.cc:402-417 | no piece but the last could be longer: three inodes follow it, or the next one would pass the threshold |
| Nodes.ThresholdIs | src/Bolt/node.cc:345-354 | a fill below 0.1 counts as 0.1 and above 1.0 as 1.0; in between the threshold is the largest integer within the product |
| LeafPages.WriteLeaf | src/Bolt/node.cc:205-247 | writes exactly size() bytes, elements then contents without a gap, sets flag and count, and leaves all other bytes |
| LeafPages.ReadLeaf | src/Bolt/node.cc:172-202 | recovers the number of inodes and every flag, key and value of a written page |
| LeafPages.ElementLeads | src/Bolt/type.h:93-108 | the four fields of an element lead to its key and value |
| LeafPages.IsInlineable | src/Bolt/node.cc:576-589 | true exactly when no inode is a bucket and the page fits the limit |
| LeafPages.WriteBucket | src/Bolt/bucket.cc:160-172 | the value holds the header and, behind it, the page of the root node |
| LeafPages.OpenBucket | src/Bolt/bucket.cc:50-84 | recovers root and sequence; for root 0 the inodes of the inline page when the value was found on a page, a dangling page when it was found in a cached node |
| LeafPages.SpillInline | src/Bolt/bucket.cc:293-296 | an inlineable bucket becomes a value of at most header + 1024 bytes with root 0; another is left to a normal spill |
| LeafPages.InlineRoundTrip | src/Bolt/bucket.cc:66-77 | a bucket written inline reopens with the inodes it had when it is found on a page |
| ByteCodec.CodecRoundTrip | src/Bolt/type.h:93-97 | a little-endian field gives back every number of its width |
| ByteCodec.DecodeAppend | src/Bolt/type.h:93-97 | each further byte weighs 256 times the one before |
| Rebalance.ClimbKeeps | src/Bolt/node.cc:461-528 | for nodes with parent links, up to, not including, the root's own turn: a climb that does not fail keeps the entries in order, the uniform depth and the separators; the page ids are the old ones less the freed, at most one a level; only a root can end without children |
| Rebalance.RebalancedKeeps | src/Bolt/node.cc:419-529 | for nodes with parent links, with the root's turn: rebalancing that does not fail keeps entries, uniform depth, order for searches and page ids; the depth shrinks exactly when the root is left with one child; no branch is left empty but the root of a tree without entries |
| Rebalance.OrphanTurn | src/Bolt/node.cc:433-459 | a node without a parent link: a leaf stays as it is, a branch keeps its entries, and its depth unless it takes its only child's inodes |
| Rebalance.RebalancingFailsIff | src/Bolt/node.cc:419-529 | for nodes with parent links it fails if and only if a node on the way is still too small, has keys and is a first child or right of an uncached one, or the root is left with one child that is not cached or has an inode without a cached node |
| NodeSizes.NodeSizeIs | src/Bolt/node.cc:102-116 | the sizes measured are those of the pages the nodes are written to |
| NodeSizes.LeafMergedIff | src/Bolt/node.cc:426-525 | a leaf with entries, right of a cached sibling, is merged and its page freed if and only if it takes at most 1024 bytes or has one entry; else nothing changes |
| NodeSizes.ClimbEnds | src/Bolt/node.cc:426-529 | a climb ends at the lowest level that, after what happened below it, has more than 1024 bytes and more than 1 entry or 2 children, or passes the root if there is none; it frees one page at each level below its end |
| Rebalance.ClimbFailsIffStuck | src/Bolt/node.cc:472-508 | the part of that below the root |
| Rebalance.TwoLeafRootFails | src/Bolt/node.cc:436-451 | under any two-leaf root, merging the short second leaf fails in the collapse of the root |
| Rebalance.EmptiedLeafRootFails | src/Bolt/node.cc:436-469 | so does removing the emptied second leaf |
| Rebalance.RemoveTidy | src/Bolt/node.cc:461-470 | removing an empty node's entry keeps the separator invariant |
| Rebalance.MergeTidy | src/Bolt/node.cc:505-525 | merging a child into its left sibling keeps the separator invariant |
| Rebalance.SettleConserves | src/Bolt/node.cc:461-525 | one parent's step keeps entries and order and frees exactly the page whose entry went |
| Rebalance.TidyOrdered | src/Bolt/node.cc:474-529 | the invariant that merges keep implies the one searches need |
| Merging.MergeOrderedIff | src/Bolt/node.cc:505-525 | under the search invariant alone, neighbouring branches merge into an ordered one if and only if the right first separator is within bounds, above the left last one and above the last separators and key along the left one's right edge, and nothing along the right one's left edge is below it |
| Merging.RightEdgeIff | src/Bolt/node.cc:505-525 | an ordered tree's upper bound can be moved exactly as far as the last separators and key along its right edge allow |
| Merging.LeftEdgeIff | src/Bolt/node.cc:505-525 | its lower bound as far as the second separators and first key along its left edge allow |
| Merging.MergeBreaksOrder | src/Bolt/node.cc:505-525 | two ordered branches whose merge is not, because of a key below the right first separator |
| Merging.MergeBreaksSeparators | src/Bolt/node.cc:505-525 | two ordered branches whose merge is not, because of the separators alone |

## Left out

- System calls and locks: the disk is a map of pages, sections under a lock are single steps, and whether a call succeeds is a parameter.
- The writer's tree edits are "free a span of mine" and "allocate a span and add it"; what a commit needs of them is `TreeReady`, a closed tree in the working set with contents for every taken page.
- Databases.Database.Commit: what a late rollback reads from a page that holds no sorted list (`Unreadable`).
- StoreFaults.FaultRunCrash: a meta whose sync failed counts as durable from the rollback on; that a later crash may still lose it is not modelled.
- A lost mapping: reads through it fault in the program; the model reads the disk.
- Databases.Database.Commit: the file is known to cover the pages only when the run for the list page raised the mark, as `src/Bolt/tx.cc:62-80` compares with the mark after the tree was spilled.
- Torn meta pages: `checksum_` is always 0, so a meta write is atomic; page flags of a fresh buffer are taken to be zero.
- Page size is 4096 throughout; `pageSize_` of the file and the operating system's page size are not modelled.
- Readers' page images, the writer's image at its begin and the set of committed pages are history kept for the theorems, not fields of the program.
- A user abort in `update` rolls back and leaves the writer open (`src/Bolt/db.cc:340-344`); the model lets a rolled-back writer close at any later time, also never.
- `DbClose`, options, statistics, logging, commit handlers.
- Txids and the sizes of nodes are unbounded; the free list's size, the mapping and the file use 32-bit arithmetic.
- Nodes.Node.Put: order is promised only when the new key is the old one, as the source leaves it to its caller; `IsPut` gives the contents in every case.
- Nodes.Node.Split: the fill percentage is a real number, without the rounding of a double.
- The byte layout of branch pages: `pos` is taken from the address of a local pointer (`src/Bolt/node.cc:236`).
- `Node::spill` for several pieces and parent updates there: it sizes every piece by the first node and reuses its key.
- Right-sibling merges: there is no sibling to merge. A root collapse with all nodes cached is modelled, without the reparenting.
- Rebalance.RebalancedKeeps: works on trees as values from one unbalanced node, so parent pointers, `children_` lists, reparenting and the loop over cached nodes that starts it, which erases from them, are not modelled; each node's own key is its parent's separator. `Bucket::getNode` builds every node with the bucket's `parentNode_`, which stays null (`src/Bolt/bucket.cc:228-233`), so a node read that way has no parent link: the climb and the two-leaf failures are about nodes that have one, `OrphanTurn` about the others. A node that is not cached counts as a failure, as `Bucket::getNode` would read it from the page read first (`src/Bolt/bucket.cc:220-243`).
- LeafPages.SpillInline: which pages `child->free()` gives to the free list, as that follows the page read first; the root node is taken to hold all inodes of the bucket.
- LeafPages.InlineRoundTrip: a value found on a mapped page is gone after a later remap, as `dereference` does nothing.
- LeafPages.ReadLeaf: the page is one that holds some encodable inodes; arbitrary bytes are not decoded.
- LeafPages.InlineRoundTrip, Cursors.Cursor.SeekThenNext, Cursors.Cursor.CollectBackward, Cursors.Cursor.NextThenPrev, ReaderViews.ReadLater, WriterViews.DelThenGet and FreeLists.Reopen compose calls as a caller would; the source has no such function.
- `Bucket::put`, `remove`, nested `deleteBucket` and `Cursor::remove`: they rest on `Bucket::getNode`, which ignores its parent argument, and on `Cursor::getNode`, which reverses the stack.
- WriterViews.PutThenGet: puts into the node object of the leaf page, with no other page under that id, and looks up; the limits on key and value length, and the refusal when the key names a bucket, are not modelled.
- Callbacks of `for_each` are pure functions; cursor references show pages and cached nodes as values found by page id.
- Iteration over hash tables takes any order.
