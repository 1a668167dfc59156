# Registry hive editing, verified

The repository edits Windows registry hives (the REGF format) in place. This project models its stateful engines in
Dafny and proves what each of them means.

**The cell allocator.** A hive is a file of HBINs, each a run of cells whose signed size header says whether the cell
is in use. `Space` gives the bytes a meaning, a *cell map*, and says what it is for HBINs to be exactly tiled by cells.
`FastAlloc.FastAllocator` is the allocator with all its indexes: a min-heap for each size class whose cells know their
own positions (`CellHeap`), a linked list of large blocks (`LargeList`), and the maps from a free cell's start and from
its end (`FreeIndex`). `AllocSteps` states what one allocation, one release and one payload write do to the bytes, and
proves over whole runs that the tiling is kept, bytes are conserved, free cells never touch, and a live cell keeps its
place, size and payload.

**Plans.** A plan is a list of operations on keys and values. `Sessions.Session` applies it one operation at a time.
`WalkApply.WalkApplier` sorts it, walks the tree once, and then creates what is missing. `WalkMeaning` and `WalkFill`
say what every key is at every moment of the walk, so that the tree it leaves is known for every plan it can be run on.
`PlanTakes` tells which plans come to the end in each way (`ValueRuns` says which values are refused), and `WalkTheorem`
proves for which plans the two ways agree.

**Subkey lists.** `ListEditing.ListEditor` inserts children at once or defers them; the flush merges the raw entries of
the old list with the new children and decodes names only where it must (`LazyMerge`). Both executors defer all lists to
the end of the plan, and a deletion flushes what is pending for its parent: `PendingLists`, `ListTraces` and `ListRuns`
say what the lists on disk then show, over whole runs (`EditLogs`, `LogOrders`) and for every allocator, and `PlanOrders`
and `WalkOrders` which plans are safe. `KeyDelete.TreeEditor` deletes a key with everything below it and frees exactly
the cells it owns; `KeyPaths` ties it to the trees of paths the executors use, and `DeferredDeletes` to the lists of
deferred mode. All of it works over a store of cells (`HiveCells`).

**Values.** `ValueEdit.ValueEditor` keeps value cells, a key's value list and count, and the value index in step with one
map from names to values, over inline data, data in one cell and big data (`BigData`). Data cells are bytes, as long as
the allocator's rounding makes them, and whether data is big is told by its bytes (`CellFreeing`), as the code does.

**Fast forms of simple things.** Matching children by hash first (`HashMatch`), the numeric name index (`NameIndex`), the
sharded least-recently-used cache (`NameCache`), and the coalescing of dirty ranges (`DirtyRanges`).

**Codecs.** Size class tables (`SizeClasses`), the big-data header and block list (`BigDataCodec`), `.reg` hex lines with
line wrapping (`RegHex`), and REG_MULTI_SZ in UTF-16LE, sections 2.1 and 2.2 of RFC 2781 (`MultiString`).

## Where the code does less than its purpose

Each of these is stated as an exact condition.

- A request above the last class boundary that takes a large block whole leaves a stale entry in the map of ends. `Alloc`
  keeps the indexes exact unless the request has no class and the first block of the large list that is not below it is
  exactly as large, and only then not; hives of one HBIN of any size above the classes show it. From every state with
  such a block and a live cell behind it, later calls that are given the cells freed again lead to two live cells that
  overlap.
- A size class table increases only if the last linear boundary stays below the first geometric one; the four shipped
  configurations do.
- A value above 16344 bytes is never compared with what is there: setting one where the value found has its type and
  length is an error. One operation at a time that is so if the value was set or found so before; the walk sets every
  value a second time, so it fails too where a present key's value above 16344 bytes is set once, and where such a value
  is set twice with one type and length. For plans in which nothing else touches a deleted key, each way comes to the end
  exactly if no set, in the walk or again in its second phase, finds such a value; where the walk does, one operation at
  a time does. Plans that set nothing above 16344 bytes fail in both ways only by deleting the root.
- The walk's second phase sets values again but does not delete them again, and a deletion of a value by name creates
  no key there, while it does one operation at a time. For plans in which nothing else touches a deleted key, both ways
  come to the end and agree if and only if the walk comes to the end, no value is set and deleted last, and no value is
  deleted under a key that is neither there nor created by the plan.
- Deferred mode can lose new keys. A deletion flushes its parent first, and that flush merges new children in the order
  they came: a list is right if and only if they came in order where they are merged with raw entries. The last flush
  sorts first, but drops a new child whose cell is that of a deleted sibling. Over whole runs in which nothing is created
  at or below a deleted key, the lists show the tree if and only if no key got such a cell and, below every parent with a
  deleted child, the children created before the first deletion had no old name between two that came in the wrong order,
  and came in order or were followed by another. They do so for every allocator if and only if, below every such parent,
  all children are created before the first deletion, in the order of their names. For plans in which nothing else
  touches a deleted key both conditions are told by the tree and the plan before the call. The walk always deletes first:
  there the lists show the tree if and only if no key got such a cell, and for every allocator if and only if no parent
  has both a key deleted by the walk and a new one created. Two small plans show both losses.
- The lazy merge keeps every entry if and only if no old name lies between a new entry and an earlier one that goes behind
  it, and is the insertion of all new names if and only if they are given in order.
- Deleting a key frees only the head of its parent's old list; leaves stay allocated if and only if that list was a list
  of lists, that is, if the parent had more than 1024 subkeys.
- Freeing a value frees exactly its own cells if and only if it is not data of one cell that begins with "db" and has a
  reference in its bytes 4 to 8: such data is followed as a big-data header, and other cells go with it.
- Editing a value leaves the old value list cell allocated; replacing one leaves its data cells allocated if and only if
  the data is above 16344 bytes.
- The reader takes the last four bytes of every block for padding, which the writer does not add: big data is read back
  if and only if the rounding of cell sizes happens to leave four bytes in the last block, or that block has at most four
  bytes of data. 16353 bytes is the shortest that is not.
- The numeric index answers as a map does, in all runs over some names, if and only if no two of them collide.
- Wrapped hex lines stay within 80 characters if and only if the prefix leaves room for the first byte and what must
  follow it.
- REG_MULTI_SZ gives the strings back if and only if none is empty, none contains a null, and none has a code point above
  the basic plane: the decoder makes a code point of every 16-bit unit, so a surrogate pair becomes two replacement
  characters.
- The package documentation of the subkey lists speaks of 512 entries in each leaf of a list of lists; the code
  (hive/subkeys/writer.go:160) uses 1024, and so does the model.

## Model

| member | source | states |
|---|---|---|
| `SizeClasses.NewSizeClassTable` | hive/alloc/size_classes.go:80-106 | the loops build the linear and then the geometric boundaries of a configuration |
| `SizeClasses.TableIncreasesIff` | hive/alloc/size_classes.go:80-106 | a table increases, as the binary search needs, exactly when there are no linear or no geometric classes or the last linear boundary (in closed form) is below the first geometric one |
| `SizeClasses.ShippedTablesIncrease` | hive/alloc/size_classes.go:14-78 | all four shipped configurations have increasing tables that reach at least one below the medium maximum |
| `SizeClasses.CoarseTableGoesBack` | hive/alloc/size_classes.go:80-106 | a configuration, for every maximum above 16, whose linear increment is so coarse that the table goes back |
| `SizeClasses.GetSizeClass` | hive/alloc/size_classes.go:110-129 | the binary search finds the least class whose boundary is not below the size, or the number of classes when there is none |
| `SizeClasses.ClassOfMonotone` | hive/alloc/size_classes.go:110-129 | a larger cell is never in a smaller class |
| `CellHeap.RootIsSmallest` | hive/alloc/fastalloc.go:203-230 | in heap order the root is the smallest cell of the heap |
| `CellHeap.Swap` | hive/alloc/fastalloc.go:211-215 | two cells change places and their back-pointers follow; no cell is lost |
| `CellHeap.Up` | hive/alloc/fastalloc.go:203-230 | sifting up from the one place out of order restores heap order, every back-pointer, and the same cells |
| `CellHeap.Down` | hive/alloc/fastalloc.go:203-230 | sifting down restores order below the start, says when nothing moved, keeps the cells and back-pointers, and leaves the part past the bound alone |
| `CellHeap.Push` | hive/alloc/fastalloc.go:217-221 | the pushed cell joins the heap, which keeps its order and back-pointers |
| `CellHeap.Remove` | hive/alloc/fastalloc.go:223-230 | exactly the cell at the given position leaves the heap, wherever it is; order and back-pointers are kept |
| `LargeList.LargeFreeList.PushFront` | hive/alloc/fastalloc.go:1253-1303 | a block joins at the head of the linked list; the blocks behind it are as before |
| `LargeList.LargeFreeList.TakeFirstFit` | hive/alloc/fastalloc.go:1205-1249 | the first block large enough leaves the linked list; nothing leaves when none is |
| `LargeList.LargeFreeList.RemoveAt` | hive/alloc/fastalloc.go:1307-1369 | exactly the block with the given start leaves the linked list, if there is one |
| `FreeIndex.ScanFit` | hive/alloc/fastalloc.go:1091-1203 | the scan of a heap with too small a root finds a fitting cell within 64 bytes of the request or the smallest fitting one, and fails only when none fits |
| `FreeIndex.FreeCellIndex.InsertFreeCell` | hive/alloc/fastalloc.go:1253-1303 | exactly one cell joins the listed free cells, in the heap of its class or the large list, with its end; a cell outside the hive is ignored; all indexes agree |
| `FreeIndex.FreeCellIndex.RemoveFreeCell` | hive/alloc/fastalloc.go:1307-1369 | exactly that cell and its end leave the indexes; a cell that is not listed changes nothing |
| `FreeIndex.FreeCellIndex.AllocFromSizeClass` | hive/alloc/fastalloc.go:1091-1203 | a fitting cell of the class is taken out with its end, best up to the tolerance, or the class holds none |
| `FreeIndex.FreeCellIndex.AllocFromClasses` | hive/alloc/fastalloc.go:284-330 | the first class with a fitting cell gives it; none below it could |
| `FreeIndex.FreeCellIndex.AllocFromLarge` | hive/alloc/fastalloc.go:1205-1249 | the first block of the list that fits is taken out of it, while its entry in the map of ends stays; none is taken only if none fits |
| `FreeIndex.FreeCellIndex.TakeFit` | hive/alloc/fastalloc.go:317-345 | a search of classes and large list fails exactly when no listed free cell fits; a cell of a class is near-best, a large block is the first that fits and is taken only when no class has a fit |
| `FreeIndex.EndsInsert` | hive/alloc/fastalloc.go:1253-1303 | a cell that is listed again repairs a stale entry for its end: the map of ends is exact afterwards |
| `FreeIndex.EndsRemove` | hive/alloc/fastalloc.go:1307-1369 | taking a listed cell out keeps the map of ends exact |
| `Space.SplitTiles` | hive/alloc/fastalloc.go:475-527 | splitting a free cell keeps every HBIN exactly tiled, and the tail starts where no cell did |
| `Space.TakenTiles` | hive/alloc/fastalloc.go:475-527 | taking a free cell, split or whole, keeps every HBIN exactly tiled |
| `Space.FreedTiles` | hive/alloc/fastalloc.go:569-669 | freeing a live cell, merged with its free neighbours step by step as the code does, keeps every HBIN exactly tiled and gives the one block from the free predecessor to the free successor |
| `Space.OpenedTiles` | hive/alloc/fastalloc.go:757-885 | an appended HBIN with one free cell keeps the hive exactly tiled |
| `Space.TakenCoalesced` | hive/alloc/fastalloc.go:475-527 | after a cell is taken no two free cells touch, if none did before |
| `Space.FreedCoalesced` | hive/alloc/fastalloc.go:569-669 | after a cell is freed no two free cells touch, if none did before: coalescing is complete |
| `Space.OpenedCoalesced` | hive/alloc/fastalloc.go:757-885 | growing keeps free cells apart, across the HBIN boundary too |
| `Space.TakenUses` | hive/alloc/fastalloc.go:475-527 | used bytes rise by exactly what is granted |
| `Space.FreedUses` | hive/alloc/fastalloc.go:551-671 | used bytes fall by exactly the size of the freed cell |
| `Space.TilingFills` | hive/alloc/fastalloc.go:569-669 | free and used bytes together always make up every HBIN less its 32-byte header |
| `HiveImage.HeaderWritten` | hive/alloc/fastalloc.go:475-527 | writing one size header changes the encoded cell map at that cell only, and neither HBIN headers nor the size field |
| `HiveImage.GrownImage` | hive/alloc/fastalloc.go:757-885 | the bytes of a hive grown by one HBIN encode the old cells and one new free cell, and every old byte but the data size field is kept |
| `HiveImage.GrownSizeField` | hive/hive.go:73-90 | the base block's data size field still counts everything behind the base block after growth |
| `HiveIter.ParseHBINAt` | hive/hbin.go:104-165 | an accepted HBIN is whole pages at a page boundary with a positive size; anything else is corrupt, never the end |
| `HiveIter.HBINRecognised` | hive/hbin.go:104-165 | every well-formed HBIN of the file is recognised for exactly what it is |
| `HiveIter.HBINIterator.Next` | hive/hbin.go:44-89 | the cursor moves to the end of the HBIN found; the iteration ends at the end of the file, on bytes that start no HBIN, and on corruption |
| `HiveIter.CellIterator.Next` | hive/cell_iter.go:23-75 | a cell is yielded exactly when its header and size fit; of sizes that do not fit, exactly those of the first cell are corruption, and those elsewhere the end; the cursor goes to the next aligned cell |
| `FastAlloc.NextIsNext` | hive/hbin.go:44-89 | in a well-formed hive the HBIN iterator finds the next HBIN where the last one ends and stops at the last |
| `FastAlloc.CellReads` | hive/cell_iter.go:23-75 | in a well-formed hive the cell iterator reads each cell's own header and steps to the next cell or to the end of the HBIN |
| `FastAlloc.FastAllocator.NewFast` | hive/alloc/fastalloc.go:245-281 | on every well-formed hive the iterators establish the full invariant: every HBIN indexed, exactly the free cells listed, each once, with exact ends |
| `FastAlloc.FastAllocator.InitializeFreeLists` | hive/alloc/fastalloc.go:1035-1081 | the scan lists exactly the free cells and finds exactly the HBINs |
| `FastAlloc.FastAllocator.FindHBINBounds` | hive/alloc/fastalloc.go:1394-1415 | the binary search finds the HBIN an offset lies in, and fails exactly when there is none |
| `FastAlloc.FastAllocator.GrowByHBINSize` | hive/alloc/fastalloc.go:757-885 | the hive gets one HBIN with one listed free cell behind the last, unless it would pass 2 GB - 1; then nothing changes |
| `FastAlloc.FastAllocator.Search` | hive/alloc/fastalloc.go:317-345 | the search fails exactly when no free cell of the whole hive fits; what it chooses is near-best in a class, or the first fit among large blocks |
| `FastAlloc.FastAllocator.FindCell` | hive/alloc/fastalloc.go:317-439 | the hive grows only when nothing fits, and then the retry always succeeds and takes a cell of at least four times the request |
| `FastAlloc.FastAllocator.Commit` | hive/alloc/fastalloc.go:475-527 | only headers are written; the chosen cell is taken, its tail listed, and the map of ends is exact afterwards exactly when the cell was split or had no entry |
| `FastAlloc.FastAllocator.Grant` | hive/alloc/fastalloc.go:475-548 | the payload given is the taken cell's; all indexes are exact afterwards if and only if a large block was not taken whole |
| `FastAlloc.FastAllocator.AllocAligned` | hive/alloc/fastalloc.go:317-548 | the same for the aligned request: what is answered, and whether all indexes are exact after it |
| `FastAlloc.FastAllocator.Alloc` | hive/alloc/fastalloc.go:284-548 | an allocation is a step as `AllocSteps.Step` says, its choice is within 64 bytes of the request, the smallest classed fit, or the first large block that fits; all indexes stay exact except, and always then not, when the request has no class and the first listed large block that is not below it equals it, which can be tested before the call |
| `FastAlloc.TakeOnlyBlock` | hive/alloc/fastalloc.go:1205-1249 | the allocator over a hive of one large free cell, asked for all of it, is left with an inexact index |
| `FastAlloc.FastAllocator.Free` | hive/alloc/fastalloc.go:551-671 | a release is a step as `AllocSteps.Step` says and keeps every index exact; a reference past the end is refused and changes nothing |
| `FastAlloc.FastAllocator.MergeForward` | hive/alloc/fastalloc.go:580-604 | the successor is swallowed exactly when it is a free cell of the same HBIN |
| `FastAlloc.FastAllocator.MergeBackward` | hive/alloc/fastalloc.go:606-658 | the predecessor is found through the map of ends exactly when there is a free one |
| `FastAlloc.PredecessorFound` | hive/alloc/fastalloc.go:606-616 | the map of ends names a cell for the freed offset exactly when a free cell stops there, and it names that one |
| `AllocSteps.OpenedFits` | hive/alloc/fastalloc.go:686-753 | an HBIN of the grown size always holds the request |
| `AllocSteps.ClassedRequestsSplit` | hive/alloc/fastalloc.go:1205-1249 | a request that has a size class never takes a large block whole |
| `AllocSteps.WholeLargeIff` | hive/alloc/fastalloc.go:1205-1249 | first fit takes a block whole exactly when the first block not below the request equals it, for hives that grow too |
| `AllocSteps.WholeToldBefore` | hive/alloc/fastalloc.go:1205-1249 | whether the answer to a request takes a large block whole is told by the lists before the call |
| `AllocSteps.UnclassedRequestsMayNotSplit` | hive/alloc/fastalloc.go:1205-1249 | for every HBIN size and all classes below it: the bytes of a hive of one HBIN, with one free cell, for which a request for that cell takes it whole |
| `AllocSteps.StepKeeps` | hive/alloc/fastalloc.go:284-671 | every step keeps the HBINs exactly tiled and encoded by the bytes, conserves bytes, and leaves no two free cells touching if none did |
| `AllocSteps.RunKeeps` | hive/alloc/fastalloc.go:284-671 | so does every run, and used bytes change by allocated less freed while free and used bytes fill all HBINs |
| `AllocSteps.LiveCellsKept` | hive/alloc/fastalloc.go:284-671 | through every run, a live cell that is not freed or written keeps its place, its size and every payload byte |
| `AllocSteps.LiveCellsApart` | hive/alloc/fastalloc.go:284-671 | live cells never overlap and none crosses an HBIN |
| `StaleEnds.FreeIsExact` | hive/alloc/fastalloc.go:551-671 | a release that looks its predecessor up in the map of ends and trusts its header merges exactly the free neighbours, and keeps the map exact, when the map is exact |
| `StaleEnds.StaleEndOverlaps` | hive/alloc/fastalloc.go:1205-1249 | otherwise it may not: from every tiled state with exact ends, a free block and a live cell behind it, giving the block whole leaves its end in the map, and six more releases and requests later two live cells overlap |
| `Registry.PrefixIn` | hive/index/helper.go:15-25 | in a tree every key above a key is there |
| `PlanMeaning.SessionIs` | hive/merge/session.go:256-303 | for isolated plans, what each key is after one-at-a-time application: there if it was and is not deleted or if an operation ensures it, with its old values changed by its own operations in order |
| `KeyEditing.KeyEditor.EnsureKeyPath` | hive/edit/nkedit.go:136-169 | creates exactly the missing keys of the path, leaves all others and their index entries, and counts what it creates |
| `KeyEditing.KeyEditor.UpsertValues` | hive/edit/vkedit.go:46-62 | a batch of sets and deletions fails exactly if a set is refused where it comes, and has then done those before it |
| `ValueRuns.AllTakenIff` | hive/edit/vkedit.go:66-121 | no operation of a run fails exactly if every set is accepted by the values that the ones before it made |
| `ValueRuns.AllTakenConcat` | hive/edit/vkedit.go:46-62 | a run may be done in batches |
| `Sessions.Session.WalkPath` | hive/index/helper.go:15-25 | finds the key of a path exactly when it is in the tree, whatever the case of the names |
| `Sessions.Session.EnsureKey` | hive/merge/strategy/inplace.go:58-76 | the path and all keys above it exist afterwards, nothing else changes, the count is the growth of the tree, and the lists are told of the new keys one by one |
| `Sessions.Session.EditValue` | hive/merge/strategy/inplace.go:87-153 | a set or a deletion of a value also creates the key's path; it fails exactly when the value is too large or cannot be compared with what is there, and has then created the path |
| `Sessions.Session.DeleteKey` | hive/merge/strategy/inplace.go:166-191 | a present key goes with all below it, a missing one is no error, the root is refused; the lists are told of one deletion |
| `Sessions.Session.ApplyOp` | hive/merge/session.go:256-303 | one operation changes tree, index and counters as its meaning says; created keys are counted for EnsureKey alone; it fails exactly for the root's deletion and for a value that is refused |
| `Sessions.Session.ApplyOps` | hive/merge/session.go:256-303 | the tree after the operations one by one is the fold of their meanings up to the first that fails, which is told by the tree it comes to; the lists are told of the keys operation by operation |
| `Sessions.Session.Apply` | hive/merge/session.go:216-253 | an isolated plan in deferred mode and the flush: it comes to the end exactly if no operation is refused where it comes; the tree of cells and index is that of one operation at a time; the lists on disk show it exactly when no key got the cell of a deleted sibling and the plan needs new keys in order, and whatever cells the allocator gives exactly when the plan is safe: two conditions on tree and plan |
| `PlanTakes.AcceptsIff` | hive/edit/vkedit.go:93-121 | an isolated plan one operation at a time comes to the end exactly if no set is above 1 GB or the block limit, or finds under its name a value of its type and length above 16344 bytes: what the last operation on it told, or what was there |
| `NormalPath.ToLowerASCII` | hive/merge/walk_apply.go:606-628 | the fast path for lower-case names and the copying path both give the lower-case name |
| `NormalPath.NormalizePath` | hive/merge/walk_apply.go:574-603 | joining and lower-casing in one pass equals the joined lower-case path |
| `NormalPath.JoinInjective` | hive/merge/walk_apply.go:574-603 | different paths have different strings, so strings may stand for paths in the lookup maps |
| `NormalPath.Truncated` | hive/merge/walk_apply.go:101-138 | cutting the string of a path at the end of a segment gives the string of the path above it |
| `PlanIndex.SortStable` | hive/merge/walk_apply.go:67-157 | the plan in order of path, with the operations on each path in the plan's order |
| `PlanIndex.IndexPath` | hive/merge/walk_apply.go:101-138 | one more operation makes every key above its path list the next segment as a wanted child |
| `PlanIndex.IndexPlan` | hive/merge/walk_apply.go:67-157 | each path finds exactly its operations in order, and exactly the children with operations on or below them |
| `WalkMeaning.BranchLeft` | hive/merge/walk_apply.go:189-329 | a branch that is pruned is already as the plan wants it |
| `WalkMeaning.NodeKept` | hive/merge/walk_apply.go:189-329 | entering a key that stays settles that key and touches nothing outside its branch |
| `WalkMeaning.NodeDeleted` | hive/merge/walk_apply.go:189-329 | entering a deleted key settles its whole branch: all keys and index entries below it are gone |
| `WalkMeaning.MidwayDone` | hive/merge/walk_apply.go:189-329 | once the wanted and present children are walked, everything below the key is |
| `WalkApply.WalkApplier.constructor` | hive/merge/walk_apply.go:67-157 | the lookup maps are right about the sorted plan, and nothing is changed yet |
| `WalkApply.WalkApplier.ApplyOpsAt` | hive/merge/walk_apply.go:189-329 | value operations flushed in batches around the others have the effect of the operations in order; it fails exactly for the deletion of the root and for values refused before the key's deletion; the lists are told of the deletion alone |
| `WalkApply.WalkApplier.EnterNode` | hive/merge/walk_apply.go:189-329 | the node is indexed, visited and settled, or a value there is refused; the walk goes down exactly when it is not deleted |
| `WalkApply.WalkApplier.WalkAndApply` | hive/merge/walk_apply.go:189-329 | below a reached key every key is settled and nothing outside changes; it fails exactly for the root's deletion and where a value is refused at a key it gets to; the walk ends by the depth of the plan; what it deletes, it deletes from the top down |
| `WalkApply.WalkApplier.WalkChildren` | hive/merge/walk_apply.go:189-329 | walking the wanted children that are there, one by one, settles everything below the key, unless a value is refused there |
| `MatchedChildren.MatchIsWanted` | hive/merge/walk_apply.go:189-329 | what hash-first matching finds in a list that shows the tree is what the walk is to go on with: the wanted children that are there, each once |
| `WalkApply.WalkApplier.IsUnderDeletedPath` | hive/merge/walk_apply.go:557-570 | tells exactly whether the operation's key, or one above it, was there and is deleted |
| `WalkApply.WalkApplier.DeepestVisited` | hive/merge/walk_apply.go:473-552 | finds a key above the path that is in the tree |
| `WalkApply.WalkApplier.EnsureKeyForPhase2` | hive/merge/walk_apply.go:473-552 | the path exists afterwards with everything above it, new keys are empty and visited, and the count grows with the tree |
| `WalkApply.WalkApplier.CollectSets` | hive/merge/walk_apply.go:414-469 | the batch of a run is exactly its SetValue operations |
| `WalkApply.WalkApplier.CreateMissingKeysAndApply` | hive/merge/walk_apply.go:414-469 | after the second phase every key is as the plan's creations and repeated sets leave it; it fails exactly if a repeated set is refused |
| `WalkApply.WalkApplier.SecondPhase` | hive/merge/walk_apply.go:414-469 | after the second phase every key is as the plan leaves it, and only creations were added to what the lists are told; it fails exactly if a repeated set is refused |
| `WalkEdits.WalkLog` | hive/merge/walk_apply.go:160-183 | what a walk tells the lists: nothing is created at or below a deleted key, no key is deleted after one below it, and no deletion follows the creation of a sibling |
| `WalkOrders.CutIff` | hive/merge/walk_apply.go:189-329 | the walk deletes exactly the keys it gets to that the plan deletes |
| `WalkOrders.MadeIff` | hive/merge/walk_apply.go:414-469 | the second phase creates exactly the keys that were not there and that a creating operation needs which is not on a deleted key or below one |
| `WalkOrders.WalkApartIff` | hive/merge/walk_apply.go:160-183 | so no parent has both a created and a deleted child exactly if the plan and the tree say so |
| `WalkOrders.MakesApartIff` | hive/merge/walk_apply.go:160-183 | for isolated plans that is a test on pairs of operations: no deletion of a key that is there, and set or EnsureKey, that needs a new key beside it; a deletion of a value by name creates nothing |
| `WalkOrders.WalkListed` | hive/merge/walk_apply.go:160-183 | so the flush at the end shows the tree of the walk exactly when no key got the cell of a deleted sibling, and for every allocator exactly when the plan keeps created and deleted keys apart |
| `WalkFill.Passed` | hive/merge/walk_apply.go:425-457 | an operation that creates nothing, or lies under a deleted key, may be passed over |
| `WalkFill.EnsuredIsCreated` | hive/merge/walk_apply.go:473-552 | ensuring only below the deepest visited key creates the whole path |
| `WalkFill.RunFilled` | hive/merge/walk_apply.go:414-469 | one run of operations is done by creating its path and applying its sets as one batch |
| `WalkFill.RunPasses` | hive/merge/walk_apply.go:446-463 | the sets of one run are accepted exactly if the second phase gets past everything up to the end of the run |
| `WalkFill.FilledIsApplied` | hive/merge/walk_apply.go:67-157 | sorting the plan does not change what it means |
| `WalkApply.CreatedCount` | hive/merge/walk_apply.go:414-469 | keys created in the second phase are exactly keys that were not there at the start |
| `WalkApply.WalkApplier.Apply` | hive/merge/walk_apply.go:160-183 | for every plan that can be walked: it comes to the end exactly if the root is not deleted and no value is refused, in the walk or again in the second phase, a condition on tree and plan; then the tree of cells and index is known key by key, KeysCreated is the number of new keys, KeysDeleted that of the reached deletions; the flushed lists show that tree if and only if no key got the cell of a deleted sibling, which holds for every allocator if and only if the plan keeps the keys it deletes and those it creates apart |
| `WalkTheorem.ValueAgrees` | hive/merge/walk_apply.go:414-469 | one value differs between the walk and one-at-a-time application exactly when it is set somewhere and deleted last |
| `PlanTakes.WalkTakesIff` | hive/merge/walk_apply.go:446-463 | for isolated plans, the walk comes to the end exactly if every set is accepted on a present key and every repeated set where it comes: there it finds what the set before it told, or else what the walk has left |
| `PlanTakes.TakesAccepts` | hive/merge/walk_apply.go:446-463 | where the walk comes to the end, one operation at a time does |
| `PlanTakes.SmallTakes` | hive/edit/vkedit.go:93-121 | plans that set nothing above 16344 bytes fail in either way exactly by deleting the root |
| `PlanTakes.BigSetFails` | hive/merge/walk_apply.go:446-463 | every isolated plan in which a value above 16344 bytes is set, once, on a key that is there makes the walk fail |
| `WalkTheorem.BigSetDiffers` | hive/merge/walk_apply.go:446-463 | one such set, on any tree with the key: one operation at a time succeeds and the walk fails |
| `WalkTheorem.AppliedIsWalkKey` | hive/merge/walk_apply.go:160-183 | for isolated plans a key's meaning after the walk is the simple one: no case for creations below deleted keys remains |
| `WalkTheorem.SameTreeIff` | hive/merge/walk_apply.go:414-469 | where the walk of an isolated plan comes to the end, it leaves the keys and values of the one-at-a-time application exactly when values are deleted only under keys that are there or created, and no value is set and deleted last |
| `WalkTheorem.WalkAgreesIff` | hive/merge/walk_apply.go:414-469 | for isolated plans both ways come to the end with the same keys and values exactly when the walk comes to the end, values are deleted only under keys that are there or created, and no value is set and deleted last; what the subkey lists show of them is the subject of the rows on deferred mode |
| `WalkTheorem.ApplyPlan` | hive/merge/walk_apply.go:665-668 | the executor end to end: whether it comes to the end, every key known for every walkable plan, new keys counted, the agreement above for isolated plans, and what the lists on disk show of the tree, for one allocator and for all |
| `PendingLists.WithChildOk` | hive/edit/nkedit.go:334-385 | a pending child counts as inserted in order of name, unless its cell is that of a deleted sibling: then it is not among the children |
| `PendingLists.FlushedIff` | hive/edit/nkedit.go:443-579 | the flush of one parent writes the children it is to have if and only if the new ones came in order, where they are merged with raw entries; everywhere else it always does |
| `PendingLists.FlushKeeps` | hive/edit/nkedit.go:443-579 | exactly which children a flush in any order keeps: every raw one, and the new ones before the first that goes before an old child which an earlier new one goes behind |
| `PendingLists.InOrderFlushed` | hive/edit/nkedit.go:590-659 | sorted first, as the flush of all parents does, no child is lost |
| `PendingLists.FlushFair` | hive/edit/nkedit.go:443-579 | for any pending batch, on a list in order or not, a flush writes exactly the children the parent is to have but the ones it drops |
| `PendingLists.DroppedIff` | hive/edit/nkedit.go:671-730 | a flush drops none exactly when no old name lies between a new child and an earlier one behind it |
| `PendingLists.MergePrecedes` | hive/edit/nkedit.go:671-730 | and then the new children stand on disk in the order in which they came |
| `ListRuns.DroppedFirst` | hive/edit/nkedit.go:886-911 | over a run, the flush before a deletion drops keys only if it is the first below its parent, and then exactly if an old name lies between two children created before in the wrong order |
| `ListRuns.FlushShowsIff` | hive/edit/nkedit.go:590-636 | over whole runs of creations and deletions in any order, in which nothing is created at or below a deleted key: the flushed lists show exactly the keys there are to be, in order, if and only if no key got the cell of a sibling whose deletion was still to be flushed, and below every parent with a deleted child the children created before the first deletion came with no old name between two in the wrong order, and in order or with another created after |
| `ListRuns.MadeFirstNeverLost` | hive/edit/nkedit.go:498-534 | where no child is created after the deletion of a sibling, no allocator can give a key such a cell |
| `ListRuns.SomeAllocatorLoses` | hive/edit/nkedit.go:498-534 | where one is, some allocator does |
| `ListRuns.AlwaysShowsIff` | hive/edit/nkedit.go:590-636 | so the lists are right for all allocators exactly when, below every parent with a deleted child, all new children are created before the first deletion, in the order of their names |
| `DeferredPlans.LogIs` | hive/merge/session.go:256-303 | the edits of the operations, one after another, are such that every key is created where there is none and under a key, only what is there is deleted, and the keys they leave are those of the tree |
| `DeferredPlans.DeferredIff` | hive/merge/session.go:216-253 | both conditions, on the edits, for every hive that shows the tree |
| `DeferredPlans.IsolatedCutsAlone` | hive/merge/session.go:216-253 | in an isolated plan nothing is created at or below a deleted key, and no key is deleted after one below it |
| `PlanOrders.OrderIs` | hive/merge/session.go:256-303 | for isolated plans: below every parent, the order in which children are created, whether one is deleted, and which are created before, are told by the tree and the plan: the order in which paths first need them |
| `PlanOrders.PlanOrderIff` | hive/merge/session.go:216-253 | so both conditions on the edits are conditions that can be tested before the call |
| `PlanOrders.ApartIff` | hive/merge/session.go:216-253 | no parent has both a created and a deleted child exactly if no pair of operations of the plan says so |
| `PlanOrders.ApartIsSafe` | hive/merge/session.go:216-253 | plans that keep created and deleted keys apart are safe with every allocator |
| `DeferredLosses.EarlyKeyLost` | hive/edit/nkedit.go:886-911 | an isolated plan that creates two keys out of order and then deletes a sibling, and so is not in order: the flush before the deletion loses one of them, whatever the cells |
| `DeferredLosses.LateKeyLost` | hive/edit/nkedit.go:498-534 | an isolated plan that deletes a key and then creates a sibling in its cell, and so is not safe: the last flush drops the new key |
| `SubkeyList.Insert` | hive/subkeys/writer.go:328-364 | replaces the entry of the same name, else inserts before the first greater name |
| `SubkeyList.InsertedSorted` | hive/subkeys/writer.go:328-364 | inserting a new name keeps a list sorted |
| `SubkeyList.InsertedAllSorted` | hive/edit/nkedit.go:388-437 | inserting new names one by one gives the sorted list of exactly all entries |
| `SubkeyList.SortedUnique` | hive/edit/nkedit.go:505-534 | a sorted list is determined by its entries, so merging, sorting and inserting must agree |
| `SubkeyList.SortEntries` | hive/edit/nkedit.go:640-659 | the in-place insertion sort orders the array by name and keeps its entries |
| `SubkeyList.InsertBack` | hive/edit/nkedit.go:640-659 | one round moves one entry back into place and keeps all entries |
| `LazyMerge.ResolveRawEntryName` | hive/edit/nkedit.go:758-776 | the name of an entry, decoded or cached, and the cache never holds anything but decoded names |
| `LazyMerge.BinarySearchRawEntries` | hive/edit/nkedit.go:735-754 | the place of a name: after every smaller one, before every other |
| `LazyMerge.MergeRawAndNewEntries` | hive/edit/nkedit.go:671-730 | each new entry is placed by the search, and the merge interleaves in that order, for new entries in any order |
| `LazyMerge.MergeIsInsertion` | hive/edit/nkedit.go:671-730 | for sorted new names the merge is their insertion one by one: sorted, every entry exactly once |
| `LazyMerge.MergeCompleteIff` | hive/edit/nkedit.go:671-730 | for new entries in any order, no entry is lost exactly when no old name lies between a new entry and an earlier one that goes behind it |
| `LazyMerge.MergeInsertsIff` | hive/edit/nkedit.go:671-730 | for new names in any order, the merge is their insertion one by one exactly when they are given in order |
| `LazyMerge.UnsortedMergeLoses` | hive/edit/nkedit.go:893-899 | two unsorted new names of which the second is lost |
| `HiveCells.CellStore.WriteRaw` | hive/subkeys/writer.go:97-198 | what is written reads back as the same references in order, all in new cells: one leaf of at most 1024, or, for more, leaves of 1024 under a list of lists, the last one with the rest; no reference gives no list |
| `HiveCells.CellStore.Read` | hive/subkeys/reader.go:89-106 | reading a list gives the entries of its leaves in order |
| `HiveCells.CellStore.FreeSubkeyList` | hive/edit/nkedit.go:780-836 | exactly the cells of the list are freed, each once |
| `HiveCells.CellStore.Replace` | hive/edit/nkedit.go:388-437 | the old list is freed before the new one is written, in the same two forms; afterwards the new list and nothing of the old one is there |
| `HiveCells.ListFrame` | hive/edit/nkedit.go:780-836 | a list depends on its own cells only |
| `ListEditing.ListEditor.PendingOf` | hive/edit/nkedit.go:334-385 | what is pending once the list is read: raw entries for the first new child, entries with names if children were deleted |
| `ListEditing.ListEditor.InsertDeferredChild` | hive/edit/nkedit.go:334-385 | the pending batch is the old one with the child; it counts as inserted in order of name unless its cell is that of a deleted sibling; no other parent changes |
| `ListEditing.ListEditor.InsertImmediateChild` | hive/edit/nkedit.go:388-437 | the child is inserted in order of name on disk; the old list is freed and no other parent's list is touched |
| `ListEditing.ListEditor.CreateKey` | hive/edit/nkedit.go:172-212 | in either mode the parent has the one new child in order, unless its cell is that of a sibling whose deletion is still to be flushed; the new key has none, all others are as before |
| `ListEditing.ListEditor.MergePending` | hive/edit/nkedit.go:505-534 | merged with raw entries or sorted, the references are those `PendingLists.Flushed` says, for children in any order |
| `ListEditing.ListEditor.FlushDeferredParent` | hive/edit/nkedit.go:443-579 | what is pending for one parent goes to disk: the list written is known in every case, no other parent changes, and it shows the children the parent was to have if and only if the new ones came in order where they are merged |
| `ListSteps.FlushedOkIff` | hive/edit/nkedit.go:443-579 | every parent has the children it had before a flush exactly when the flushed one's new children were in order where they are merged |
| `ListEditing.ListEditor.FreeOldList` | hive/edit/nkedit.go:590-636 | the first pass sorts the new children and frees the old list without changing what any parent holds |
| `ListEditing.ListEditor.FlushDeferredSubkeys` | hive/edit/nkedit.go:590-636 | every parent ends on disk with the children it was to have and their count, deleted ones gone; nothing is pending, every old list is freed once and no list cell is lost or shared |
| `ListEditing.ListEditor.Build` | hive/edit/nkedit.go:122-132 | a whole batch of new keys under any parents, none in the cell of a deleted sibling, and the flush: whatever the mode, the lists on disk are those of immediate insertion |
| `ListEditing.ListEditor.RemoveDeferredChild` | hive/edit/nkedit.go:1202-1234 | the deleted child is marked, and a parent with nothing pending waits for its list to be read |
| `ListEditing.ListEditor.FlushBeforeDelete` | hive/edit/nkedit.go:886-911 | the flush of a childless key and of its parent before the deletion: the parent has on disk what its own flush makes of what was pending |
| `ListEditing.ListEditor.DetachKey` | hive/edit/nkedit.go:864-973 | the deletion of a childless key in deferred mode: the parent's list on disk is known in every case; if its new children came in order where they are merged, the parent loses exactly this child and no other parent changes |
| `ListSteps.DetachedAfter` | hive/edit/nkedit.go:864-973 | the two flushes and the mark together take exactly that child from its parent, under that condition |
| `Subtrees.TreeFrame` | hive/edit/nkedit.go:1010-1057 | a subtree depends on its own cells only |
| `CellFreeing.FreeBlocks` | hive/edit/common.go:28-77 | every block that the list names is freed once, if it is there |
| `CellFreeing.FreeBigDataIfNeeded` | hive/edit/common.go:28-77 | which cells are freed is told by the bytes of the cell: it alone, or, where they begin as a big-data header, the block list and the blocks it names too; a header cut short is an error that frees nothing |
| `CellFreeing.FreeData` | hive/edit/nkedit.go:1094-1140 | the same for callers that free the one cell on that error |
| `CellFreeing.OwnedFreed` | hive/edit/common.go:28-77 | big data, and data in one cell that is not followed as a header, is freed with exactly its own cells |
| `CellFreeing.OneCellIff` | hive/edit/common.go:28-77 | of data in one cell only that cell is freed, whatever else the hive holds, exactly when its bytes do not begin as a header with a reference |
| `CellFreeing.StrayDatum` | hive/edit/common.go:28-77 | twelve bytes of data with which another's cell is freed |
| `KeyDelete.TreeEditor.DeleteSingleValue` | hive/edit/nkedit.go:1094-1140 | exactly the value's cell and the cells its data's bytes lead to are freed and its index entry goes; those are its own unless its data is in one cell whose bytes are followed |
| `KeyDelete.TreeEditor.DeleteAllValues` | hive/edit/nkedit.go:1060-1091 | exactly all values of the key and the list of them are freed, with their index entries |
| `KeyDelete.TreeEditor.DeleteSubkeys` | hive/edit/nkedit.go:979-1006 | exactly the subtrees below the key and its whole subkey list are freed, with their index entries |
| `KeyDelete.TreeEditor.DeleteSubtreeNoParentUpdate` | hive/edit/nkedit.go:1010-1057 | exactly the cells a subtree owns are freed, each once, and exactly its key and value index entries go; the recursion ends by the size of the tree |
| `KeyDelete.TreeEditor.RemoveByRef` | hive/subkeys/writer.go:412-540 | a new list in new cells with all references but one, and its count; an empty list is none |
| `KeyDelete.TreeEditor.RemoveFromParentSubkeyList` | hive/edit/nkedit.go:1150-1200 | the parent's cell alone changes: it has a new list without the key; of the old list the head is freed |
| `KeyDelete.TreeEditor.DeleteKey` | hive/edit/nkedit.go:864-973 | each of the three refusals changes nothing; else exactly the subtree's cells and index entries go, and outside it only the parent's cell and list change |
| `KeyDeleteTree.PrunedRepresents` | hive/edit/nkedit.go:864-973 | what is left below the parent is a well-formed tree: the old one without that subtree |
| `KeyDeleteTree.PrunedApart` | hive/edit/nkedit.go:864-973 | and no cell of it belongs to two things |
| `KeyDeleteTree.LeftoversIff` | hive/edit/nkedit.go:1150-1200 | which cells stay allocated without an owner: the leaves of the parent's old list, exactly when it was a list of lists; for a list as it is written, when the parent had more than 1024 subkeys |
| `KeyPaths.PrunedIsWithoutKey` | hive/edit/nkedit.go:864-973 | the paths of the keys that are left, with their values, are the tree of paths without the deleted path: the deletion the executors use |
| `KeyPaths.DeeperIsWithoutKey` | hive/edit/nkedit.go:864-973 | a deletion somewhere below is the same deletion seen from above |
| `KeyPaths.RemovedEntriesIff` | hive/edit/nkedit.go:1010-1057 | the index entries that go with a deleted key are exactly those of the keys at and below its path |
| `DeferredDeletes.CutTakesNodes` | hive/edit/nkedit.go:979-1057 | with the subtree of a key on disk, the deletion in deferred mode takes exactly its keys, and the key cells that go are those of its nodes: what the recursion over lists on disk frees |
| `HashMatch.Hash` | hive/subkeys/hash.go:18-33 | the loop computes the 32-bit hash by 37 of the upper-case name |
| `HashMatch.HashIgnoresCase` | hive/subkeys/hash.go:18-33 | names that differ in case only have one hash |
| `HashMatch.AddHashTarget` | hive/subkeys/match_by_hash.go:22-26 | the wanted lower-case name joins the bucket of its hash, and the buckets hold exactly the wanted names |
| `HashMatch.HashTargetCount` | hive/subkeys/match_by_hash.go:29-35 | the buckets together count the wanted names |
| `HashMatch.MatchLH` | hive/subkeys/match_by_hash.go:110-159 | despite the hash filter and the early exit, the result is that of looking at every child, in order |
| `HashMatch.MatchLFLIFallback` | hive/subkeys/match_by_hash.go:166-226 | despite the early exit, the result is that of looking at every child, in order |
| `HashMatch.MatchDirectList` | hive/subkeys/match_by_hash.go:75-106 | the same for a leaf list of any kind |
| `HashMatch.MatchRIList` | hive/subkeys/match_by_hash.go:229-276 | the same over all leaves of a list of lists, with the exit across leaves and unreadable leaves passed over |
| `HashMatch.MatchByHash` | hive/subkeys/match_by_hash.go:52-72 | matching by hash first equals the full scan for lists of either shape; an unreadable list is the only error |
| `BigData.CalculateTotalNeed` | hive/bigdata/writer.go:109-132 | the reservation is the sum of all aligned requests and stays within 32 signed bits for every accepted block count |
| `BigData.WriteBlocks` | hive/bigdata/writer.go:50-105 | chunk after chunk in new cells of their own, each with room for its chunk and no more than the rounding of cell sizes adds; together they take exactly what was reserved for them |
| `BigData.WriteDataBlock` | hive/bigdata/writer.go:140-167 | one more chunk in one new cell |
| `BigData.Store` | hive/bigdata/writer.go:50-105 | a header, a block list and blocks in new cells of their own that hold the data; empty data, too many blocks and a hive without room are refused without a change, each exactly when |
| `BigData.ReadBack` | hive/bigdata/db.go:66-152 | from the bytes of any cells that hold the data: the header read, the block list read, the blocks joined and cut to the length give it back |
| `BigData.RoundTrip` | hive/bigdata/writer.go:50-105 | what is stored is read back so |
| `BigDataRead.ValueDB` | internal/reader/reader.go:783-870 | the reader, which takes the last four bytes of every block for padding, reads stored data whole if and only if the length of the last chunk is at most 4, or is 0 or more than 4 above a multiple of 8; else it has too few bytes and refuses |
| `BigDataRead.StoreAndRead` | internal/reader/reader.go:783-870 | the same for data stored by the writer |
| `BigDataRead.FirstUnread` | internal/reader/reader.go:783-870 | 16353 bytes is the shortest big data that is stored and not read back |
| `BigDataCodec.WriteDBHeader` | hive/bigdata/db.go:38-64 | a written header reads back as its count and block list reference; a short buffer is refused; later bytes are untouched |
| `BigDataCodec.WriteBlocklist` | hive/bigdata/db.go:109-124 | every reference is found in its four bytes; a short buffer is refused |
| `BigDataCodec.ReadBlocklist` | hive/bigdata/db.go:127-152 | as many references as asked for, each from its four bytes; a short buffer is refused |
| `BigDataCodec.RoundTrip` | hive/bigdata/db.go:109-152 | a written block list reads back |
| `KeyValues.CountIsSize` | hive/edit/vkedit.go:329-383 | a key's value count is the number of its names |
| `KeyValues.EditedOk` | hive/edit/vkedit.go:329-546 | an edit that keeps old values or stores new ones in new cells leaves the key well formed |
| `ValueFrames.UpdatedEdit` | hive/edit/vkedit.go:143-173 | an update changes no cell outside the key, and leaves exactly the old list's cell allocated without an owner, and the old data exactly if it was above 16344 bytes |
| `ValueFrames.RunNext` | hive/edit/vkedit.go:46-62 | one more edit of a run: cells outside the key stay, and what is left over adds up |
| `ValueEdit.ValueEditor.AllocateVK` | hive/edit/vkedit.go:223-307 | the value is stored inline, in one cell or as big data, by its size, in new cells; data above 1 GB, above the block limit, or without room in the hive is refused without a change |
| `ValueEdit.ValueEditor.NeedsUpdate` | hive/edit/vkedit.go:93-121 | exactly when type or data differ; a value kept as big data cannot be compared when only its bytes may differ |
| `ValueEdit.ValueEditor.FreeVK` | hive/edit/vkedit.go:177-220 | the value's cell and its data are freed, but not big data, whatever the bytes are |
| `ValueEdit.ValueEditor.CreateValue` | hive/edit/vkedit.go:124-140 | the map gains the value; cells, count and index agree with it; no cell outside the key changes, and of its own the old list's cell stays allocated |
| `ValueEdit.ValueEditor.UpdateValue` | hive/edit/vkedit.go:143-173 | the map has the new value under the name, at the old place in the list; cells, count and index agree with it; the old list's cell stays allocated, and the old data exactly if it is above 16344 bytes |
| `ValueEdit.ValueEditor.DeleteValue` | hive/edit/vkedit.go:439-500 | the map loses the name, whatever its case; a name that is not there changes nothing; unless the data is in one cell whose bytes are followed, exactly its cells go, the key stays well formed, and the old list's cell stays allocated |
| `ValueEdit.ValueEditor.RemoveFromValueList` | hive/edit/vkedit.go:503-546 | a new list without the reference, or none when it was the last |
| `ValueEdit.ValueEditor.ReplaceInValueList` | hive/edit/vkedit.go:386-436 | the new reference takes the old one's place |
| `ValueEdit.ValueEditor.UpsertValue` | hive/edit/vkedit.go:66-90 | create, leave or update, as the map says; an unchanged value touches no cell; each refusal exactly when, and then nothing changes; no cell outside the key changes, and what stays allocated without an owner is known |
| `ValueEdit.ValueEditor.UpsertValues` | hive/edit/vkedit.go:46-62 | over any run of sets and deletions, as far as it gets, the cells, the value list, the count and the index agree with the map the operations make; no cell outside the key changes; it stops at the first refused operation, or before it only for want of room |
| `NameIndex.Fnv32` | hive/index/numeric_index.go:81-88 | the loop computes 32-bit FNV-1a |
| `NameIndex.Fnv32Lower` | hive/index/numeric_index.go:65-77 | hashing while lower-casing is the hash of the lower-case name |
| `NameIndex.NumericKeyInjective` | hive/index/numeric_index.go:107-109 | parent and hash are recovered from the 64-bit key |
| `NameIndex.StringKeyInjective` | hive/index/string_index.go:169-197 | parent and name are recovered from the string key, although names may hold digits and colons |
| `NameIndex.StringAgrees` | hive/index/string_index.go:82-136 | after every run of edits the string index answers as a map on parent and lower-case name |
| `NameIndex.NumericAgrees` | hive/index/numeric_index.go:113-488 | after every run of edits over names that do not collide the numeric index answers as the same map |
| `NameIndex.NumericAgreesIff` | hive/index/numeric_index.go:113-488 | it does so in all runs over some names exactly when no two of them have one parent and one hash |
| `NameIndex.CollisionDiffers` | hive/index/numeric_index.go:56-60 | two colliding names share a slot: one added, the other found |
| `NameIndex.NumericIndex.GetNK` | hive/index/numeric_index.go:345-372 | after any run of additions and removals over names that do not collide, what a map by parent and lower-case name would answer, whatever the case of the name |
| `NameIndex.NumericIndex.GetVK` | hive/index/numeric_index.go:376-400 | the same for values, which have a history of their own |
| `NameIndex.StringIndex.MakeKey` | hive/index/string_index.go:169-197 | the key appended piece by piece into a buffer is the decimal offset, a colon and the name |
| `NameIndex.StringIndex.GetNK` | hive/index/string_index.go:126-129 | after any run of additions and removals, what a map by parent and lower-case name answers, whatever the case of the name |
| `NameIndex.StringIndex.GetVK` | hive/index/string_index.go:133-136 | the same for values, which have a history of their own |
| `NameCache.Touched` | hive/namecache/cache.go:54-115 | moving a hit to the front, or evicting the last for a miss, gives the most recently touched distinct keys of the longer history |
| `NameCache.RecentDistinct` | hive/namecache/cache.go:54-115 | the keys of a history, each once |
| `NameCache.Shard.Lookup` | hive/namecache/cache.go:54-70 | a hit gives the triple stored last and is a touch; a miss changes nothing; the shard holds exactly the most recently touched keys in order, with map and list in bijection |
| `NameCache.Shard.Store` | hive/namecache/cache.go:76-115 | the triple is remembered and the key touched, unless the capacity is 0; what is evicted is the least recently touched; the same invariant is kept |
| `NameCache.Shard.SetCapacity` | hive/namecache/cache.go:120-132 | exactly the least recently touched keys over the new capacity go |
| `NameCache.Shard.Reset` | hive/namecache/cache.go:135-140 | the shard is empty and its history starts again |
| `NameCache.ShardedCache.Lookup` | hive/namecache/cache.go:176-178 | only the key's shard answers, with what was stored last |
| `NameCache.ShardedCache.Store` | hive/namecache/cache.go:180-182 | only the key's shard changes |
| `NameCache.ShardedCache.Len` | hive/namecache/cache.go:157-206 | all shards together never hold more than the capacity or, below 16, one element each |
| `DirtyRanges.Tracker.AlignAll` | hive/dirty/dirty.go:207-262 | rounding to whole pages touches exactly the same pages |
| `DirtyRanges.Tracker.MergeSorted` | hive/dirty/dirty.go:207-262 | merging ranges that overlap or meet leaves gaps between ranges and touches exactly the same pages |
| `DirtyRanges.Tracker.Coalesce` | hive/dirty/dirty.go:207-262 | whole pages, in order, with a real gap between ranges, and exactly the pages that some added range touches |
| `RegHex.FormatHexBytes` | hive/printer/reg.go:388-406 | two hex digits for each byte with commas between |
| `RegHex.FormatHexBytesWithWrapping` | hive/printer/reg.go:411-462 | deleting the line breaks gives the unwrapped list, and no line passes 80 characters exactly when the prefix leaves room for the first byte and what follows it |
| `MultiString.EncodeMultiString` | hive/builder/encode.go:39-76 | every string in UTF-16LE, pairs for code points above the basic plane, with a null after it, and one null more; two nulls for no strings |
| `MultiString.DecodeMultiString` | hive/builder/regtext.go:285-315 | the byte loop is the state machine over 16-bit units: a null ends a string, or ends the list once there is one; each unit becomes one code point, a surrogate the replacement character |
| `MultiString.RoundTripIff` | hive/builder/regtext.go:285-315 | decoding what was encoded gives the strings back exactly when none is empty, none has a null in it, and none has a code point above the basic plane |
| `MultiString.UnitsBackIff` | hive/builder/regtext.go:285-315 | on the level of units, they come back exactly when no string is empty and none has a null in it |
| `MultiString.BackShows` | hive/builder/regtext.go:285-315 | what comes back of strings that are not empty and have no nulls: both units of every pair replaced |
| `MultiString.PairNotBack` | hive/builder/regtext.go:285-315 | a string of one emoji comes back as two replacement characters |
| `MultiString.DecodedClean` | hive/builder/regtext.go:285-315 | no decoded string is empty or has a null in it, for any bytes |

## Left out

Allocator:

- FastAlloc.FastAllocator.Alloc: requests so large that the aligned size or the growth passes 32 signed bits are excluded (`GrowthFor(need) <= MAX_I32`), because the source's int32 arithmetic wraps there.
- FastAlloc.FastAllocator.Alloc: where a large block has been taken whole, a run of the class continues only from states with exact indexes; what later calls do with the stale entry is shown on cells and ends (`StaleEnds`), with the cells they are given chosen.
- FastAlloc.FastAllocator.NewFast: is stated for well-formed hives; on others only the iterators' error answers are modelled.
- FastAlloc.FastAllocator.Free: is stated for references of live cells and for references past the end; freeing a free cell or the middle of one is a caller's error that the source does not detect.
- FastAlloc.FastAllocator.GrowByHBINSize: failures of the file append are left out; growth stops at 2 GB - 1, the source's own limit.
- Bump mode, TruncatePages and GrowByPages, which the core paths do not use.
- The start index, which nothing reads, the largest-free hints, per-HBIN statistics, call counters, cell pooling and logging: they decide no allocation.
- The header checksum and the time stamp and sequence numbers of the base block.
- The growth factor of a size class table is a real number; rounding of float64 products is not modelled.

Plans:

- WalkApply.WalkApplier.constructor: takes plans in which, after a DeleteKey, only value operations follow on the same key (`DeletesOnce`); the source would go on to use the freed cell of the deleted key.
- KeyEditing.KeyEditor.DeleteKey: on this level a key is its path and a reference is a path; the cells are those of `KeyDelete`, and `KeyPaths` shows that its deletion is this one.
- KeyEditing.KeyEditor.UpsertValues: on the level of plans a set never fails for want of room in the hive, nor a deletion for data cut short; `ValueEdit` says what happens to the cells then.
- Sessions.Session.Apply: speaks of isolated plans; for others what deferred lists show is stated for each flush (`ListEditing.ListEditor.FlushDeferredParent`), not for the whole plan. Keys lost from a list stay in the index, and operations on them are not followed further.
- Sessions.Session.DeleteKey: speaks of keys in cells and index, as in immediate mode. In deferred mode the flush it makes first may drop pending siblings, which is in the rows on deferred mode; and it reaches keys below through lists on disk only, so that what is still pending below them keeps its cells and index entries, and a later EnsureKey of such a path finds it. Isolated plans delete nothing that they have created below.
- Sessions.Session.ApplyOps: the same for a whole plan: in deferred mode its fold is that of plans which create nothing below a key they delete.
- ListRuns.FlushShowsIff: a run is of creations and deletions of keys; where a flush loses a key, its cell stays in use, as in the code. The allocator's other choices, for values and lists, cannot be mistaken for deleted children and are not part of a run.
- WalkApply.WalkApplier.EnterNode: the walk also indexes a node's values; value indexes are kept in `ValueEdit`, not here.
- PlanIndex.SortStable: the library's stable sort is modelled by a stable insertion sort, and so is the library sort of dirty ranges.
- WalkApply.WalkApplier.MatchChildren: finds the wanted children that are there, in any order; that hash-first matching finds them is `MatchedChildren.MatchIsWanted`.
- Key names are not empty and hold no backslash, as in a path. Upper case in names is not kept: the tree holds names as they are compared.
- The counters of values set and deleted in the walk, cancellation, path prefixes, transactions and the reading of `.reg` text.

Subkey lists and deletion:

- HiveCells.CellStore.Alloc: gives any unused reference; that a real allocator does is the subject of `FastAlloc`. Cells of data, headers and block lists are bytes; key, value and list cells are typed, with any encoding as bytes, and their allocation does not fail. The stored hashes beside the references are not carried through list edits.
- ListEditing.ListEditor.CreateKey: takes names that are new below their parent and in the case they are ordered by; createKey passes the display name as the lower-case one.
- LazyMerge.MergeRawAndNewEntries: all names decode; the branch that keeps an entry whose name cannot be decoded is left out.
- KeyDelete.TreeEditor.DeleteKey: takes subtrees without data in one cell that begins as a header with a reference; for such data `KeyDelete.TreeEditor.DeleteSingleValue` says which cells go, and what a subtree that lost them looks like is not followed. It reads lists on disk: the flush that comes first in deferred mode is `ListEditing.ListEditor.FlushBeforeDelete`.
- ListEditing.ListEditor.DetachKey: the deletion of a key that has no children; those of a key with children are freed by `KeyDelete`, whose cells this editor's keys do not have; `DeferredDeletes` says which keys and key cells go.
- A reference in a value, list or header that is no cell's is freed without effect, as in the code; that a stray reference hits the middle of a cell is left out.
- Lists that cannot be read, which the source treats as empty, and the failures it ignores while it frees cells.
- Security cells, class names, time stamps and the largest-name fields of key cells.

Values:

- ValueEdit.ValueEditor.UpsertValues: a run must not delete a value kept in one cell whose data begins as a header with a reference, or as one and has less than 8 bytes (`DeletesPlain`), since other cells go with it; `ValueEdit.ValueEditor.DeleteValue` still says what the map and the index are then. Setting such values is not restricted.
- BigData.Store: the reservation is a test whether the hive has room for as many cells; the pages it adds are not modelled, only its size (`BigData.CalculateTotalNeed`).

Fast forms and codecs:

- HashMatch.MatchByHash: ASCII names; the slower Unicode hash is left out.
- NameIndex.NumericIndex.GetNK: the maps for collisions, which the source never creates, and the capacity hints are left out.
- NameCache.ShardedCache.Store: one operation at a time; the mutexes are left out, and so is the decoding of names.
- DirtyRanges.Tracker.Coalesce: flushing to disk is left out.
- MultiString.EncodeMultiString: a string is given as its code points; the UTF-8 that Go keeps it in, and bytes in it that are no code point, are left out.
- Case folding outside ASCII, everywhere.
- encodeString, decodeUTF16LEString, the fixed-width integer encoders, and the JSON and text printers: easy members beside the ones here.
