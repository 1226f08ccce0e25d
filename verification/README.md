# SQLite storage engine: a verified model

This project models the storage engine of the SQLite 3.24.0 library that the repository vendors under
`sqlite/`, and proves what its comments and assertions promise. The code works in place on page
buffers, lists and counters, and so does the model: pages are byte arrays, objects are classes, loops
are loops with invariants, and each method is proved against a specification over values.

- `Arithmetic`, `Bytes`, `Blocks`, `PageLayout`, `PageBytes`, `PageImage`, `PageSpace`, `PageDefrag`,
  `MemPageModel`: the space of one b-tree page, from the partition of its bytes to runs of insertions
  and removals.
- `PageEdit`, `EditInPlace`, `MemPageEdit`: replacing the cells of a page by others, some of which are on it.
- `Packing`, `SiblingUpdate`, `Siblings`: dividing cells among siblings, the order of rewriting them, and
  both together on the bytes of all siblings.
- `Varint`, `CellFormat`, `Payload`: cells, overflow chains and the overflow page-number cache.
- `BtreeTree`, `CursorModel`: seeking and stepping.
- `PtrMap`, `PtrMapPage`, `DbPages`, `FreelistModel`, `FreelistRuns`, `PageGraph`, `AutoVacuumModel`:
  pointer map, free list, moving pages, vacuum at commit and incremental vacuum.
- `SharedCache`, `BtSharedModel`, `BtMutex`: table locks and transactions of a shared cache, and the
  BtShared mutexes, as protocols over any number of handles or threads.
- `BackupModel`: online backup under every interleaving with changes of the source.
- `Stat4Counts`, `Stat4`: the samples of ANALYZE in the STAT4 build.
- `HashTable`, `BitvecModel`: bit vectors.

A page is well-formed (`Good`) if header, cell pointers, cells, freeblocks and fragment count agree
byte for byte without overlap, with at most 60 fragment bytes; `Valid` adds that nFree is right. Page
sizes, page numbers, and the numbers of siblings, samples, handles and threads are arbitrary within
what the code allows. Widths are written out where they matter: 16-bit offsets with 0 for 65536,
payload sizes modulo 2^32, 32-bit wrap-around in finalDbSize and in page distances. Memory allocation
and input/output succeed. Returns for corrupt data are modelled for the packing, with the exact
condition for each loop, and for pointer-map entries. Elsewhere pages and lists are well-formed, and it is shown that these tests do
not fire on them: those of freeSpace, the last one of defragmentPage, the one of rebuildPage, the first
one of allocateBtreePage and the one for root pages in incrVacuumStep.

Where code and comments differ the model follows the code:

- A comment (`sqlite/src/btree.c:1516-1518`) says that a slot one to three bytes too large is passed
  over if that would make more than 60 fragment bytes. The code (`sqlite/src/btree.c:1541-1544`) gives
  up the whole search at the first slot less than four bytes too large, exact fits included, as soon as
  there are more than 57. `MemPageModel.MemPage.PageFindSlot` states this exactly, and
  `MemPageModel.MemPage.AllocateSpace` that space is found all the same.
- The fast way of defragmentPage is described for two or fewer freeblocks (`sqlite/src/btree.c:1408`);
  with none the code takes the general way. `MemPageModel.MemPage.FewFreeblocks` states when.
- A comment on incremental vacuum (`sqlite/src/btree.c:3701-3702`) speaks of the first page pulled off
  the free list; the code asks for a page at or below nFin.

## Model

| member | source | states |
|---|---|---|
| `MemPageModel.MemPage.constructor` | sqlite/src/btree.c:1973-2003 | zeroPage: whatever the buffer held, the page is well-formed and empty, and its cell size function is the one of its page type |
| `PageSpace.FindFit` | sqlite/src/btree.c:1523-1560 | the walk along the freeblocks ends at the first one that is large enough, with the address of the pointer to it, or shows there is none |
| `PageSpace.TakeAll` | sqlite/src/btree.c:1541-1549 | a slot used up but for at most three bytes leaves the list, the rest become fragments; the page stays well-formed and every cell keeps its bytes |
| `PageSpace.TakeEnd` | sqlite/src/btree.c:1550-1555 | a larger slot keeps its beginning; the page stays well-formed and every cell keeps its bytes |
| `MemPageModel.MemPage.PageFindSlot` | sqlite/src/btree.c:1520-1566 | exactly which slot is given: the end of the first fit, or none if there is no fit or the first fit would be used up with more than 57 fragment bytes; the slot is disjoint from cells and freeblocks, and a failure changes nothing |
| `PageSpace.SlotMeans` | sqlite/src/btree.c:1520-1566 | the slot is the end of the first freeblock that is large enough, and there is none if that would be used up with more than 57 fragment bytes, whatever follows |
| `PageSpace.FindSlot` | sqlite/src/btree.c:1520-1566 | the same for blocks in use of any kind, as editing a page in place needs it |
| `MemPageModel.MemPage.Slide` | sqlite/src/btree.c:1428-1446 | the memmoves around one or two freeblocks act as one map from old to new bytes, in spite of their overlaps |
| `MemPageModel.MemPage.AdjustPointers` | sqlite/src/btree.c:1447-1451 | every cell pointer moves by as much as its cell did, and nothing else changes |
| `MemPageModel.MemPage.SlideUp` | sqlite/src/btree.c:1428-1452 | the fast way: every cell is whole, in its order, in one piece of content at the end of the page |
| `MemPageModel.MemPage.RebuildOne` | sqlite/src/btree.c:1459-1490 | one cell of the rebuild: cells not copied yet can still be read, from the page before the first move and from the temporary copy after it |
| `MemPageModel.MemPage.Rebuild` | sqlite/src/btree.c:1457-1491 | the general way: every cell is whole, in its order, packed at the end of the page |
| `MemPageModel.MemPage.FewFreeblocks` | sqlite/src/btree.c:1413-1428 | the fast way is taken if and only if there are at most nMaxFrag fragment bytes and one or two freeblocks |
| `MemPageModel.MemPage.Defragment` | sqlite/src/btree.c:1379-1504 | for every nMaxFrag, the -1 of balancing included: well-formed, no freeblocks, fragments left only by the fast way, every cell with its bytes and index; without fragments all free space is the gap |
| `MemPageModel.MemPage.ContentStart` | sqlite/src/btree.c:1604-1612 | the stored content offset is read back, 0 standing for 65536 |
| `MemPageModel.MemPage.MakeRoom` | sqlite/src/btree.c:1636-1642 | under the limit min(4, nFree - (2 + nByte)) defragmentation always makes the gap large enough |
| `MemPageModel.MemPage.AllocateSpace` | sqlite/src/btree.c:1581-1656 | complete: with nByte + 2 free bytes in all it always succeeds; the block is disjoint from cells, freeblocks and the pointer array with its next slot; cells keep bytes and order; which of slot, gap and defragmented page it comes from is exact |
| `PageSpace.FindPlace` | sqlite/src/btree.c:1692-1707 | the freed block belongs between the freeblock of the pointer found and the next |
| `PageSpace.Coalesce` | sqlite/src/btree.c:1715-1738 | the block joined with the freeblocks at most three bytes away, and how many fragment bytes that uses up |
| `PageSpace.MergePlace` | sqlite/src/btree.c:1715-1747 | on a well-formed page the overlap, fragment, end-of-page and content-start tests of freeSpace do not fire |
| `MemPageModel.MemPage.FreeSpace` | sqlite/src/btree.c:1671-1763 | the cell's bytes become free, in the list or in the gap; list order, fragment count and nFree stay exact; all other cells keep their bytes |
| `PageSpace.FreeBlock` | sqlite/src/btree.c:1671-1763 | the same for any block in use, a run of adjacent cells included, with the content start stored |
| `MemPageModel.MemPage.DropCell` | sqlite/src/btree.c:6490-6529 | the page is well-formed and holds the same cells in order without cell idx; when it was the last the whole content area is gap again |
| `MemPageModel.MemPage.InsertCell` | sqlite/src/btree.c:6545-6632 | among all cells, on the page or set aside, the new one is number i, the others before and after it are as they were; it has the child page number in its first four bytes and is otherwise the cell given; it is set aside if and only if cells are set aside already or cells and pointers would exceed the page |
| `MemPageModel.RunPage` | sqlite/src/btree.c:6490-6632 | over every sequence of insertions and removals whose cells and pointers add up to at most the page, nothing is ever set aside and the page holds exactly the cells the sequence leaves: each is one that was there at the start, unchanged, or one inserted, with its child page number, at the index that later operations have moved it to |
| `MemPageModel.ChildStored` | sqlite/src/btree.c:6577-6615 | a cell written with a child page number gives that number back, and its other bytes are as given |
| `MemPageModel.FreeBytes` | sqlite/src/btree.c:1761-1761 | gap, freeblocks and fragments add up to the free bytes; cells and freeblocks are disjoint, and the fragment count is the number of content bytes in neither |
| `PageLayout.FragmentsExact` | sqlite/src/btree.c:1541-1549 | the fragment count is the number of content bytes in no cell and no freeblock |
| `PageLayout.TakeWhole` | sqlite/src/btree.c:1541-1549 | using up a slot keeps the partition of the page with the fragments counted |
| `PageLayout.GiveSpace` | sqlite/src/btree.c:1715-1753 | giving a block back keeps the partition: freeblocks ascending, four bytes long and four apart; the bytes joined over were fragments |
| `PageImage.ImageJoin` | sqlite/src/btree.c:1740-1760 | the bytes written when the block joins the list are those of the new list, and no other cell is touched |
| `PageImage.ImageShrink` | sqlite/src/btree.c:1740-1760 | the bytes written when the block joins the gap are those of the new page, and no other cell is touched |
| `PageImage.ImageDrop` | sqlite/src/btree.c:6525-6527 | closing the pointer array gives a well-formed page with the other cells untouched |
| `PageImage.ImageInsert` | sqlite/src/btree.c:6612-6621 | writing cell, pointer and count gives a well-formed page with one cell more, the others untouched |
| `PageDefrag.RebuildPrepares` | sqlite/src/btree.c:1457-1491 | after the rebuild every cell is whole at its packed place |
| `PageDefrag.SlidePrepares` | sqlite/src/btree.c:1437-1451 | after the memmoves and the pointer update every cell is whole at its shifted place |
| `Packing.GreedyDominates` | sqlite/src/btree.c:7520-7561 | filling from the left ends every page at or after where any division within the limits ends it |
| `Packing.Shrink` | sqlite/src/btree.c:7522-7540 | moving cells off an over-full page keeps running totals exact; it stops only at a page that fits or when the pages are used up |
| `Packing.Grow` | sqlite/src/btree.c:7541-7554 | filling up a page keeps running totals exact and ends with the next cell not fitting |
| `Packing.PackLeft` | sqlite/src/btree.c:7519-7561 | first loop: a division with exact totals; with cells that fit a page each it gives up only if no division onto that many pages exists |
| `Packing.FewestPages` | sqlite/src/btree.c:7519-7561 | no division within the limit has fewer pages than filling from the left |
| `Packing.ShareWithLeft` | sqlite/src/btree.c:7575-7598 | second loop, one page: the page ends non-empty, totals exact and within the limit; where it stops is exact, so that the left page is larger by less than the two cells at the boundary, and no move but a forced one makes the right page larger by more than 2 |
| `Packing.EvenedMeans` | sqlite/src/btree.c:7583-7598 | what the stopping rule comes to in bytes, from the running totals alone: both bounds on how uneven two neighbours can be left |
| `Packing.Rebalance` | sqlite/src/btree.c:7574-7603 | second loop: it gives up if and only if single-cell pages lead up to an empty last page; else every page is non-empty, within the limit, exact and evened out with its left neighbour |
| `Packing.ChainNeedsBigCells` | sqlite/src/btree.c:7599-7602 | without dividers, or with cells of which any two fit a page, the second loop never gives up |
| `Packing.Pack` | sqlite/src/btree.c:7510-7603 | the packing has exact totals, no page over-full and none empty among several, neighbours evened out, and no division has fewer pages; without dividers or with cells of which any two fit a page, it succeeds if and only if some division onto that many pages exists |
| `Packing.HoldsAll` | sqlite/src/btree.c:7495-7509 | siblings with such boundaries, read left to right with their dividers, give back the cell sequence |
| `CellFormat.PackingFits` | sqlite/src/btree.c:3133-3148 | cells of the file format meet what the packing needs: each fits a page, and any two do except on table leaves, which have no dividers |
| `SiblingUpdate.NotYet` | sqlite/src/btree.c:7851-7879 | the pages on which the cells of a sibling live have not been rewritten when its turn comes |
| `SiblingUpdate.ReadInTime` | sqlite/src/btree.c:7851-7879 | so each cell it receives can still be read, whichever page it lives on |
| `SiblingUpdate.PassStep` | sqlite/src/btree.c:7851-7886 | one position of the two passes keeps: done pages hold their new cells, the others their old ones |
| `SiblingUpdate.UpdateSiblings` | sqlite/src/btree.c:7829-7889 | for any old and new boundaries every page counts exactly one rewrite and has its own new cells, whatever reading from a rewritten page would give |
| `SiblingUpdate.RedistributionKeepsCells` | sqlite/src/btree.c:7829-7889 | siblings and dividers read after the update as they did before |
| `PageEdit.FreeArray` | sqlite/src/btree.c:6808-6851 | the space of those of the cells that are on the page is given back, neighbours in one piece; their number is returned, and all other cells keep their bytes |
| `PageEdit.InsertArray` | sqlite/src/btree.c:6762-6797 | the cells get space disjoint from all other cells, their bytes and their pointers; or there is too little space in one piece, and all other cells are as they were |
| `EditInPlace.RebuildPage` | sqlite/src/btree.c:6693-6735 | with cells that fit, a page without freeblocks and fragments that has exactly the cells wanted, each with the bytes it had, although some are read from the page being overwritten; the corruption test does not fire |
| `EditInPlace.Remove` | sqlite/src/btree.c:6887-6895 | exactly the cells wanted of those on the page stay, with their bytes, pointers moved together |
| `EditInPlace.InsertAt` | sqlite/src/btree.c:6900-6932 | cells inserted between others: all cells are then in order with their bytes; if space runs out those that were on the page are intact |
| `EditInPlace.AddOverflows` | sqlite/src/btree.c:6913-6925 | each overflow cell that is wanted gets its place among the others, and no other is put in |
| `EditInPlace.StillIntact` | sqlite/src/btree.c:6953-6956 | whenever editing gives up, every cell of the old page that is wanted can still be read from it |
| `EditInPlace.Edit` | sqlite/src/btree.c:6865-6957 | editPage as a whole, in place or rebuilt: a well-formed page with exactly the cells wanted, in order, byte for byte as they were on this page or elsewhere |
| `MemPageEdit.EditPage` | sqlite/src/btree.c:6865-6957 | on a page in memory, with the count of free bytes that the caller stores: valid, nothing set aside, contents exactly the cells wanted |
| `MemPageEdit.OwnCells` | sqlite/src/btree.c:7437-7459 | the part of the cell array that a page is given for is the cells on the page with its overflow cells merged in |
| `Siblings.EditSibling` | sqlite/src/btree.c:7876-7884 | one sibling edited, its cells read from wherever they are: it gets the bytes they had at the start |
| `Siblings.UpdatePages` | sqlite/src/btree.c:7829-7889 | both passes on the bytes of all siblings: for any old and new boundaries every new sibling ends up well-formed, nothing set aside, with exactly its cells as they were at the start, and no other page changes |
| `Siblings.OldContents` | sqlite/src/btree.c:7437-7460 | before the update an old sibling with its overflow cells holds its part of the same cells |
| `FreelistModel.SizeIsCount` | sqlite/src/btree.c:5776-5778 | with no page listed twice the counted trunk and leaf pages are the number of distinct free pages |
| `FreelistModel.CountBelow` | sqlite/src/btree.c:5778-5782 | there are always fewer free pages than pages, so the first corruption test does not fire |
| `FreelistModel.Closest` | sqlite/src/btree.c:5936-5960 | the leaf chosen: one at or below nearby if there is one, or one of least 32-bit distance, or the first |
| `FreelistModel.LeafTaken` | sqlite/src/btree.c:5979-5982 | putting the last leaf in the place of the one taken removes exactly that page from the list |
| `FreelistModel.TrunkTaken` | sqlite/src/btree.c:5882-5891 | unlinking a trunk page without leaves removes exactly that page |
| `FreelistModel.TrunkReplaced` | sqlite/src/btree.c:5893-5926 | when a trunk page with leaves is taken its first leaf becomes the trunk, and exactly one page leaves the list |
| `FreelistModel.FreeList.TryTrunk` | sqlite/src/btree.c:5822-5994 | one round of the search takes a page that is searched for, or shows that this trunk and its leaves have none; without a search the page taken is the trunk without leaves or its leaf nearest to the page wanted |
| `FreelistModel.FreeList.Search` | sqlite/src/btree.c:5822-5997 | the search fails only if no page it is for is on the list, and then changes nothing on the list |
| `FreelistModel.FreeList.Append` | sqlite/src/btree.c:6021-6044 | a page added at the end is neither the pending-byte page nor a pointer-map page, and no usable page is passed over |
| `FreelistModel.FreeList.AllocateBtreePage` | sqlite/src/btree.c:5757-6065 | exactly one page goes from free to used with used pages untouched, or the file grows by one usable page; without a search it is the page of the first trunk nearest to nearby; with the pointer map marking exactly the free pages an exact request gives the page asked for if it is free, only a bounded one can fail, and only if no such page is free; the pointer map stays right |
| `FreelistModel.FreeList.FreePage` | sqlite/src/btree.c:6079-6206 | exactly one page goes from used to free: the last leaf of the first trunk if that has fewer than usable/4 - 8, otherwise a new first trunk; the count is right, used pages are untouched, and the pointer map again marks exactly the free pages |
| `FreelistModel.FreeList.constructor` | sqlite/src/btree.c:3240-3250 | a file without free pages is in order, and the pointer map marks exactly the free pages |
| `FreelistModel.FreeList.Store` | sqlite/src/btree.c:6435-6453 | writing a page that has been handed out, and its entry, keeps the list; the pointer map again marks exactly the free pages |
| `FreelistRuns.Request` | sqlite/src/btree.c:5757-6065 | one request against a ledger of free pages: answered rightly, the exact page if it is free, or refused if and only if no page answers |
| `FreelistRuns.RunPages` | sqlite/src/btree.c:5757-6206 | over any sequence of allocations and releases every page in use holds what was written to it when it was handed out, free pages and their count are right, every answer is right, and the run ends early only at a request that has no answer |
| `PtrMap.OrdinaryBySlot` | sqlite/src/btree.c:947-959 | which pages are ordinary, with the pending-byte page inside a group or where a map page would be |
| `PtrMap.MapPages` | sqlite/src/btree.c:947-959 | which pages are map pages: every n+1st from page 2 on, and where that is the pending-byte page the one after it |
| `PtrMap.EstimateLeads` | sqlite/src/btree.c:3751-3756 | before its closing loop finalDbSize is at the right page or above it with no ordinary page between |
| `PtrMap.FinalDbSize` | sqlite/src/btree.c:3746-3762 | in 32-bit unsigned arithmetic, the result is an ordinary page with exactly nFree fewer ordinary pages up to it |
| `PtrMapPage.PtrmapPut` | sqlite/src/btree.c:971-1014 | the five bytes of the entry are where the format puts them, the entry read afterwards is the one written, and every other page's entry is as before; it fails, with nothing changed, if and only if the page has no entry |
| `PtrMapPage.PtrmapGet` | sqlite/src/btree.c:1023-1052 | kind and parent, or corruption for pages without an entry and for kinds other than 1 to 5 |
| `PtrMapPage.PutsThenGet` | sqlite/src/btree.c:971-1052 | after any sequence of puts a get gives what was put last for that very page |
| `PageGraph.MoveRenames` | sqlite/src/btree.c:3575-3628 | after a move every page in use has the content it had, up to the new number |
| `PageGraph.MoveTies` | sqlite/src/btree.c:3575-3628 | after a move every page in use but the roots is again pointed to from exactly one place |
| `PageGraph.MoveMaps` | sqlite/src/btree.c:3592-3626 | after a move the pointer map names the one referrer of every page in use, and entries of free pages are as before |
| `PageGraph.SameView` | sqlite/src/btree.c:3575-3628 | what is reachable from a page, to any depth, is not changed by renumbering |
| `AutoVacuumModel.SetChildPtrmaps` | sqlite/src/btree.c:3451-3480 | exactly the entries of the pages that the page points to are written, each with its kind and the parent |
| `AutoVacuumModel.ModifyPagePointer` | sqlite/src/btree.c:3496-3545 | the one pointer of the kind the entry names is set to the new page, and nothing else changes |
| `AutoVacuumModel.AutoVacuum.RelocatePage` | sqlite/src/btree.c:3557-3628 | referrers, pointer map and free list stay right, and every root leads to what it led to |
| `AutoVacuumModel.PlaceExists` | sqlite/src/btree.c:3712-3721 | while a page in use lies beyond nFin some ordinary page at or below nFin is not in use |
| `AutoVacuumModel.RootsStay` | sqlite/src/btree.c:3670-3672 | with root pages first in the file no root page lies beyond nFin, so that test does not fire |
| `AutoVacuumModel.AutoVacuum.TakePlace` | sqlite/src/btree.c:3712-3720 | the loop over free pages ends, with one at or below nFin |
| `AutoVacuumModel.AutoVacuum.CommitStep` | sqlite/src/btree.c:3650-3739 | a step at commit leaves the last page unused; it is done early only if nothing beyond nFin is in use |
| `AutoVacuumModel.AutoVacuum.AutoVacuumCommit` | sqlite/src/btree.c:3814-3861 | the pages in use are then exactly the ordinary pages of the shortened file, the pointer map is right, and every root leads to what it led to |
| `AutoVacuumModel.AutoVacuum.IncrVacuum` | sqlite/src/btree.c:3650-3803 | a step with a free page left always succeeds: the file loses its last ordinary page and one free page, and every root leads to what it led to |
| `AutoVacuumModel.AutoVacuum.IncrVacuumAll` | sqlite/src/btree.c:3746-3803 | repeated until no page is free, the file ends at the ordinary page with as many fewer ordinary pages as were free at the start, which finalDbSize named then; as many pages are in use as before, and they are all its ordinary pages |
| `CellFormat.ReadSize` | sqlite/src/btree.c:1165-1173 | the inlined loop reads the integer modulo 2^32, in one to nine bytes |
| `CellFormat.ReadKey` | sqlite/src/btree.c:1181-1194 | the inlined loop reads the 64-bit integer, with all bits of a ninth byte |
| `CellFormat.ParseCell` | sqlite/src/btree.c:1082-1248 | the three parse routines agree with one description of the format, and the size needs no more than 16 bits |
| `CellFormat.CellSizePtr` | sqlite/src/btree.c:1269-1337 | the size found without parsing is the one the full parse finds |
| `CellFormat.LastPageFull` | sqlite/src/btree.c:1087-1109 | the local part leaves the last overflow page full unless it is the minimum |
| `CellFormat.LocalExact` | sqlite/src/btree.c:1087-1109 | of the local sizes that leave the last overflow page full the one at most maxLocal is taken, otherwise minLocal |
| `CellFormat.HalfLocal` | sqlite/src/btree.c:3133-3148 | minLocal and maxLocal of an index are embedded fractions 32 and 64 of 255: one is half of the other, up to rounding |
| `CellFormat.SizeIsLocal` | sqlite/src/btree.c:1269-1337 | the size of a cell depends only on that many of its bytes, so it survives being moved |
| `Payload.FillInCell` | sqlite/src/btree.c:6300-6480 | the cell starts with child, payload size and key and has exactly the length the format gives it; it parses back to key and payload size, holds the local part, and its overflow chain the rest, for every payload with any number of zeros at the end; other pages are untouched |
| `Payload.InteriorParses` | sqlite/src/btree.c:1127-1143 | a cell of an interior table page, a child and a key, parses back to the key, without payload |
| `Payload.AccessPayload` | sqlite/src/btree.c:4626-4811 | every slice of the payload, from page and chain; the same whether the page-number cache is absent, partly filled or full, and the cache stays right |
| `Payload.ReadBack` | sqlite/src/btree.c:4626-4811 | key and any slice of the payload are read back from what represents them, which is what FillInCell makes |
| `CursorModel.EntryAt` | sqlite/src/btree.c:5558-5641 | the entry under the cursor is the one whose number is the count of entries before its path |
| `CursorModel.BtCursor.First` | sqlite/src/btree.c:5165-5181 | on the first entry, or none if and only if the tree is empty |
| `CursorModel.BtCursor.MoveToLast` | sqlite/src/btree.c:5187-5224 | on the last entry, also when the AtLast flag lets it do nothing; none if and only if the tree is empty |
| `CursorModel.BtCursor.ClimbRight` | sqlite/src/btree.c:5602-5609 | from the end of a page to the nearest page above that goes on, with the same number of entries before it |
| `CursorModel.BtCursor.Next` | sqlite/src/btree.c:5558-5641 | one entry further; it ends if and only if the cursor was on the last |
| `CursorModel.BtCursor.Previous` | sqlite/src/btree.c:5663-5733 | one entry back; it ends if and only if the cursor was on the first |
| `CursorModel.BtCursor.ThereAndBack` | sqlite/src/btree.c:5558-5733 | Previous undoes Next, which succeeds if and only if there is a next entry |
| `CursorModel.BtCursor.Scan` | sqlite/src/btree.c:5165-5641 | First and then Next until the end give every entry once, in order |
| `CursorModel.ComparisonIsTarget` | sqlite/src/btree.c:5386-5447 | every comparison that is monotone along the entries, a prefix or default result included, is one with a range of keys that counts as equal |
| `CursorModel.SearchPage` | sqlite/src/btree.c:5347-5447 | with either bias: the place of what is sought among the cells, and the last comparison |
| `CursorModel.BtCursor.Shortcut` | sqlite/src/btree.c:5272-5305 | answers without a search, by the same key, AtLast or key + 1, are those of a search |
| `CursorModel.BtCursor.Moveto` | sqlite/src/btree.c:5256-5495 | on an entry that compares equal, or on an entry next to the place with the right sign; zero if and only if some entry compares equal |
| `CursorModel.EntriesAscend` | sqlite/src/btree.c:5233-5251 | entries of a tree that is ordered page by page ascend |
| `SharedCache.EveryStateSound` | sqlite/src/btree.c:275-466 | in every state of every run of any number of handles, writer, pending, exclusive and transaction count agree with the open transactions, and no two handles hold conflicting locks |
| `SharedCache.DifferentIsConflict` | sqlite/src/btree.c:305-316 | that another handle's lock differs is the same as that it conflicts |
| `SharedCache.LockKeeps` | sqlite/src/btree.c:275-399 | asking for a table lock, granted or not, keeps the invariant |
| `SharedCache.LockMeans` | sqlite/src/btree.c:275-399 | a table lock is granted if and only if no other handle has a lock on the table, or only read locks when a read lock is asked for; granted, the handle has at least that lock and all its others; refused, only pending can change |
| `SharedCache.BeginKeeps` | sqlite/src/btree.c:3303-3442 | starting or upgrading a transaction, whatever the result, keeps the invariant |
| `SharedCache.BeginMeans` | sqlite/src/btree.c:3303-3442 | a granted request gives the transaction asked for: the schema table is read-locked, for writing the handle is the writer, exclusive if asked; other handles' transactions and locks, and the handle's own locks, stay; a refused request changes nothing |
| `SharedCache.BeginGranted` | sqlite/src/btree.c:3303-3442 | the result is exactly this: at once if the transaction is open already, read-only or locked by the state of the others alone, and else what the pager says |
| `SharedCache.EndKeeps` | sqlite/src/btree.c:3920-3954 | ending a transaction or going back to reading keeps the invariant |
| `SharedCache.EndMeans` | sqlite/src/btree.c:3920-3954 | ending gives up all locks, or turns them into read locks while others on the connection still read; writer and exclusive go with the writer, and other handles keep theirs |
| `SharedCache.ExclusiveIsAlone` | sqlite/src/btree.c:3405-3412 | an exclusive writer is the only handle with a transaction |
| `SharedCache.PendingHoldsOffOthers` | sqlite/src/btree.c:3332-3349 | while pending no handle starts or upgrades a transaction; and exactly when ending one ends pending |
| `SharedCache.LoneWriterIsGranted` | sqlite/src/btree.c:275-326 | a writer with the only open transaction is granted every lock |
| `BtSharedModel.BtShared.QueryLock` | sqlite/src/btree.c:275-326 | walking the lock list grants what the lock table allows, and sets pending exactly when a write lock meets another handle's lock |
| `BtSharedModel.BtShared.SetLock` | sqlite/src/btree.c:347-399 | the list then has the stronger of the lock held and the lock asked for, and all other locks |
| `BtSharedModel.BtShared.LockOneTable` | sqlite/src/btree.c:275-399 | asking and setting on the list is one step of the protocol; granted, the lock is there, and other handles keep theirs |
| `BtSharedModel.BtShared.BeginTransaction` | sqlite/src/btree.c:3303-3442 | on lists and flags it takes one step of the protocol, with the same result; granted, the handle has the transaction asked for, as the writer if for writing and exclusively if asked, and other handles keep theirs |
| `BtSharedModel.BtShared.EndTransaction` | sqlite/src/btree.c:3920-3954 | on lists and flags it takes one step of the protocol; the handle is not the writer and has no transaction, or a read transaction if others still read; other handles keep theirs |
| `BtSharedModel.BtShared.ClearLocks` | sqlite/src/btree.c:411-450 | exactly the handle's locks leave the list, and what becomes of writer, exclusive and pending |
| `BtSharedModel.BtShared.DowngradeLocks` | sqlite/src/btree.c:455-466 | of the writer, every lock on the list becomes a read lock and the flags are cleared; of others, nothing changes |
| `PtrMap.SlotsAreDistinct` | sqlite/src/btreeInt.h:595-597 | entries of different ordinary pages do not overlap and lie inside a map page that comes before their pages |
| `Varint.RoundTrip` | sqlite/src/util.c:832-867 | every 64-bit value is read back from its one to nine bytes, whatever follows, and every 32-bit value by the 32-bit loop |
| `Varint.EncodeShortest` | sqlite/src/util.c:832-867 | no encoding is longer than its value needs |
| `Varint.PutVarint` | sqlite/src/util.c:832-867 | the one-, two-, nine-byte and general paths all write the format's bytes |
| `BtMutex.StepKeeps` | sqlite/src/btmutex.c:71-152 | every step of every thread keeps wantToLock, locked and mutex ownership in agreement |
| `BtMutex.EveryStateSound` | sqlite/src/btmutex.c:71-152 | they agree in every state of every run |
| `BtMutex.HoldsOnlySmaller` | sqlite/src/btmutex.c:118-136 | a thread that waits holds only mutexes of smaller address |
| `BtMutex.NeverDeadlock` | sqlite/src/btmutex.c:105-137 | in every state of every run, also when mutex_try fails on free mutexes, some thread is not blocked, and if one is blocked, one that holds a mutex is not |
| `BtMutex.StepsGoDown` | sqlite/src/btmutex.c:105-137 | every step inside a call leaves fewer steps to its end |
| `BtMutex.IdleFlags` | sqlite/src/btmutex.c:71-152 | in every state of every run, between calls: a Btree is locked if and only if wantToLock is positive, if and only if this thread owns the mutex, and then the BtShared names its connection |
| `BtMutex.WantsCount` | sqlite/src/btmutex.c:71-152 | in every state of every run wantToLock of a Btree is the number of its calls to enter less the number of its calls to leave |
| `BtMutex.LockedWhileInUse` | sqlite/src/btmutex.c:71-152 | between calls a Btree is locked, and its mutex owned by this thread, if and only if it has been entered more often than left |
| `BtMutex.BtreeList.BtreeEnter` | sqlite/src/btmutex.c:71-137 | the loops along the list do what the steps of the protocol do; wantToLock of this Btree is one more and no other changes, and all end with locked equal to wantToLock being positive |
| `BtMutex.BtreeList.BtreeLeave` | sqlite/src/btmutex.c:143-152 | the same for leaving: wantToLock is one less, unlocked exactly at the last use |
| `BackupModel.BackupOnePage` | sqlite/src/backup.c:227-313 | for page sizes one of which divides the other, the page's bytes reach the destination except its pending-byte page, no other byte changes, and the first page is given the number of pages of the source |
| `BackupModel.Backup.SourceWrite` | sqlite/src/backup.c:690-717 | a write of any source page, also beyond the end, keeps the part already copied up to date, changes that page and the length only, and leaves the destination alone if the page is still to be copied |
| `BackupModel.UnreportedGap` | sqlite/src/backup.c:690-717 | what SourceWrite asks for is needed: with the source cut below iNext, pages that come into being unreported break the agreement |
| `BackupModel.Backup.BackupUpdate` | sqlite/src/backup.c:690-717 | with one source page changed, all pages below iNext agree with the destination again; the destination changes for no page from iNext on |
| `BackupModel.Backup.Restart` | sqlite/src/backup.c:730-736 | any change from outside is safe: the backup starts again at page 1 |
| `BackupModel.Backup.CopyPages` | sqlite/src/backup.c:419-432 | exactly nPage pages are copied, or all that are left if these are fewer or nPage is negative, and all source pages below iNext agree with the destination |
| `BackupModel.ExtraPages` | sqlite/src/backup.c:536-551 | source pages inside the destination's pending-byte page reach the file, and no other byte changes |
| `BackupModel.Conclude` | sqlite/src/backup.c:448-571 | the destination gets the length of the source and its bytes, except header fields of its own: schema cookie, change counter and version are those given, and with a destination in WAL mode bytes 18 and 19 are 2, otherwise they are the source's |
| `BackupModel.Backup.Step` | sqlite/src/backup.c:348-597 | a step copies exactly nPage pages, or all that are left; it is done if and only if fewer were left, read-only for a WAL destination of another page size, and an error that is final stays; the step that is done leaves a copy with the header fields given, and refusals leave everything but the result code alone |
| `BackupModel.FinishedByStep` | sqlite/src/backup.c:348-597 | only a step that is not busy finishes a backup, and it does not change the source |
| `BackupModel.RunBackup` | sqlite/src/backup.c:227-736 | over every sequence of writes, truncations, restarts and steps the source and the progress are what the events make them, and a finished backup is a copy of the source as the events before the finishing step had left it, with the header fields given |
| `Stat4Counts.CountsMean` | sqlite/src/analyze.c:751-763 | in sorted rows the running counts are the numbers of rows equal and of rows less, on each column prefix |
| `Stat4Counts.ChangesMean` | sqlite/src/analyze.c:756-757 | the running change count is the number of different prefixes less |
| `Stat4.SampleIsBetter` | sqlite/src/analyze.c:504-549 | the order of preference as a relation: more equal rows, then the column further left, then more equal rows to the right, then the greater hash |
| `Stat4.BetterMeans` | sqlite/src/analyze.c:504-549 | the relation, decided by the first column to the right in which two samples differ |
| `Stat4.FindMin` | sqlite/src/analyze.c:632-642 | the sample given up next is not periodic, and no other such sample is less desirable |
| `Stat4.FewPeriodic` | sqlite/src/analyze.c:454-454 | periodic samples fill at most a third of the places, so there is always one to give up |
| `Stat4.PeriodTight` | sqlite/src/analyze.c:454-454 | and the period is the smallest: with one less, periodic samples would fill more than a third |
| `Stat4.BestInsertable` | sqlite/src/analyze.c:658-664 | the best sample of a column that changes has exact counts from that column on |
| `Stat4.FillRight` | sqlite/src/analyze.c:673-682 | counts left open are filled in with the true ones |
| `Stat4.Stat4Accum.SampleInsert` | sqlite/src/analyze.c:555-643 | adding, replacing or upgrading keeps samples in row order and within the limit, their counts exact or open, and the number of periodic ones; exactly which sample is upgraded or given up, and that when full the next to be given up is the least desirable |
| `Stat4.Stat4Accum.OfferBest` | sqlite/src/analyze.c:658-664 | the best sample of a column, its count now final, is inserted if and only if there is room or it is better than the one to be given up |
| `Stat4.Stat4Accum.SamplePushPrevious` | sqlite/src/analyze.c:652-710 | afterwards all counts from the changed column on are exact |
| `Stat4.PickedOn` | sqlite/src/analyze.c:787-796 | the best sample of a column stays the best of all rows of its group when one more row is counted |
| `Stat4.Stat4Accum.StatPush` | sqlite/src/analyze.c:728-796 | one more row keeps all of this, and that the best sample of each column is one of the rows of the current group with no better one among them |
| `Stat4.Analyze` | sqlite/src/analyze.c:504-796 | for every sorted row stream each sample's counts are the true numbers of rows equal, rows less and different prefixes less, and its rowid is that of its row; samples are in row order, within the limit, and the periodic ones are exactly as many as are due, each in a row that is due |
| `HashTable.Probe` | sqlite/src/bitvec.c:199-205 | probing ends, at the value or at the first empty slot of its path, and tells which |
| `HashTable.EmptySlotExists` | sqlite/src/bitvec.c:188-205 | a table in use is never full |
| `HashTable.Rebuild` | sqlite/src/bitvec.c:255-270 | the rebuilt table has exactly the other values, and their count |
| `BitvecModel.Divisor` | sqlite/src/bitvec.c:219-219 | sub-vectors are smaller than the vector, and there are enough of them |
| `BitvecModel.NarrowDivisor` | sqlite/src/bitvec.c:219-219 | with a sum of 32 bits the divisor is right if and only if the sum does not wrap, and otherwise 0 |
| `BitvecModel.JoinedAdd` | sqlite/src/bitvec.c:175-183 | a bit set in its sub-vector is exactly that bit of the whole |
| `BitvecModel.Bitvec.constructor` | sqlite/src/bitvec.c:115-123 | the empty set |
| `BitvecModel.Bitvec.Test` | sqlite/src/bitvec.c:130-152 | membership in the set, for every 32-bit index, 0 and those out of range included, in all three forms |
| `BitvecModel.Bitvec.Set` | sqlite/src/bitvec.c:169-232 | the set with the element, in all three forms and across rehashing; the recursion ends |
| `BitvecModel.Bitvec.Subdivide` | sqlite/src/bitvec.c:209-227 | turning the hash table into sub-vectors keeps its values and adds the new one |
| `BitvecModel.Bitvec.Clear` | sqlite/src/bitvec.c:240-272 | the set without the element |
| `BitvecModel.ReplayMeansSetLast` | sqlite/src/bitvec.c:115-272 | after any operations an element is in the set if and only if it was set and not cleared later |
| `BitvecModel.RunAndTest` | sqlite/src/bitvec.c:115-272 | over any operations in range, Test answers exactly that |

## Left out

- Corrupt databases: what the code does with malformed pages and lists, beyond what is said above.
- Pager, journal, WAL, file system and memory allocation: their failures would only add error returns. Of WAL mode only what a backup into such a database does is modelled.
- Secure delete, the codec, and reading overflow pages directly from the file.
- balance_quick, balance_deeper, and the changes of the parent page in balance_nonroot.
- Siblings.UpdatePages: cells on other pages are read when a page's turn comes and not in the middle of editing it, which changes no other page.
- MemPageEdit.EditPage: that the cells assigned to a page fit on it is a precondition, which `Packing.Pack` meets; with more the code reports corruption.
- The pointer-map entries that balancing and fillInCell write.
- Creating and dropping tables, and with it moving root pages; that root pages come first in the file is a precondition of vacuum.
- Writing through accessPayload, and saving and restoring cursor positions.
- Decoding of index records: entries are integers that stand for records in order, and what is sought is any monotone comparison with them.
- Trees are values in `CursorModel`: a tree changed by others under a cursor is not modelled.
- Trunk pages of the free list, overflow pages, and the pages of `AutoVacuumModel` are modelled by their fields, not their bytes.
- Handles that are not sharable, which skip all locking, and the busy handler.
- 64-bit overflow of row counts and of a key plus one; files within four pages of 2^31 pages.
- FreelistModel.FreeList.AllocateBtreePage: without a page to search for, the page taken is the nearest of the first trunk page; the code does not look at other trunk pages then.
- FreelistModel.FreeList.FreePage: page numbers below 2, which the code reports as corruption, are excluded.
- PtrMapPage.PtrmapPut: the pending-byte page, which is never asked for, is excluded.
- PtrMapPage.PtrmapGet: the same.
- AutoVacuumModel.AutoVacuum.IncrVacuum: the answer that nothing is left to do is the guard of the loop in `IncrVacuumAll`.
- BitvecModel.Bitvec.Set: a missing vector, for which the code does nothing, is not modelled, nor is it for Test and Clear.
- BitvecModel.Bitvec.Clear: the element is at most the size, which the code does not assert.
- Stat4.Stat4Accum.SamplePushPrevious: that the samples kept are the best ones overall is not stated; the best row of each group, when it is inserted and which sample is given up are.
- Stat4.Analyze: the number of rows is at most the estimate given at the start, and the STAT3 build is not modelled.
- BackupModel.Backup.Step: the database that is created for an empty source is a parameter, and the destination then has its first bytes.
- BackupModel.Backup.SourceWrite: writes beyond the next page while the source ends below iNext are excluded; `UnreportedGap` shows that they break the agreement if the pages between are not reported. The pending-byte page is never written.
- BackupModel.Conclude: change counter, size, schema cookie and version fields of the header, and the source's pending-byte page, are excepted from the copy, and for a destination in WAL mode bytes 18 and 19.
- BitvecModel.Divisor: the sum is taken without wrapping, as with 64-bit sizes; `NarrowDivisor` says what 32 bits make of it.
- The min-heap of the integrity check, code generation of ANALYZE, and the repository's own programs around the database.
