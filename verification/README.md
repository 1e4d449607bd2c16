# SQLite's storage core, modelled and proved

A Dafny model of the part of SQLite that keeps tables and indexes in a file: the b-tree engine, from the bytes of one page up to the
ordered map that a cursor works on, and the smaller state machines around it.  The pager is a map from page number to page content.  All
results are for runs in which no allocation and no I/O fails, starting from well-formed states.  The exits that report a corrupt database
are in the code of the model and are proved not to be taken, except on pages that have lost bytes: there each one is taken exactly under
the condition its contract gives.

Layers and files:

- **B-tree as an ordered map** (`Btree*.dfy`).  `BtreeNode` and `BtreeShape` define pages, cells, their sizes and the in-order walk of a
  tree; `BtreePacking`, `BtreeSiblings`, `BtreeRebalance`, `BtreeBalance`, `BtreeAlong`, `BtreeStep`, `BtreeRounds` and `BtreeTree` are
  balancing, from the choice of cut points to the loop that works its way up from a leaf; `BtreeRank`, `BtreeSeek`, `BtreeCursor`, `BtreeEdit`,
  `BtreeDelete`, `BtreeScan` and `BtreeSkip` are cursors: seeking, stepping, saving and restoring, counting, inserting and deleting.
  `BtreeLost` follows the bytes that pages may have lost, `BtreePtrmap` the pointer map while siblings are spread anew.
- **Page bytes** (`Bytes`, `CellFormat`, `PageSpace`, `PageBytes`, `SlottedPage`, `PageDefrag`, `PageEdit`, `MemPage`): a slotted page in
  an array of bytes, with its cell pointers, gap, chain of free blocks, fragment count and bytes lost.  `PageNode` shows that these bytes
  and the pages of the tree above are two views of one page, `PageLift` what a deletion from an interior page does to them.
- **Payloads** (`CellHeader`, `OverflowChain`, `Payload`): cells and the chains of overflow pages they spill on.
- **The file** (`PtrMap`, `Freelist`, `PageGraph`, `AutoVacuum`): pointer-map geometry, the list of free pages, and the vacuum that runs
  before a commit.
- **Shared cache** (`SharedCache`): transactions and table locks of the connections that share one b-tree.
- **Around it**: deadlock-free locking of many b-trees by many threads (`BtMutex`), online backup between databases of different page sizes
  (`BackupBytes`, `Backup`), the bit vector of journalled pages (`BitvecHash`, `Bitvec`, `BitvecStuck`), foreign-key counters (`FKey`), the sampler of
  ANALYZE (`Stat3`) and the full-text index's hash table (`FtsHash`).

Code that changes things in place is a class or works on arrays here too; each method is proved against what it promises about the old and
the new state, and the lemmas beside it say what that means.  Where the code does not keep a promise in some case, the contract says in
exactly which one; these cases are:

- A restore that does not find the saved key leaves a `skipNext` other than 0, and nothing but Next and Previous resets it.  So the step
  after First, Last or a seek stays where it is, exactly if a `skipNext` in its direction is pending (`BtreeScan.ScanForward`,
  `BtreeScan.ScanBackward`, `BtreeSkip.SeekThenNext`, `BtreeSkip.SeekThenPrevious`).  `BtreeSkip.LoseEntry` shows how that comes about,
  `BtreeSkip.FirstStays`, `BtreeSkip.LastStays` and `BtreeSkip.SeekStays` what follows, and `BtreeSkip.FirstTwice` starts from an empty
  index.
- Saving a cursor again before it has stepped forgets a pending `skipNext`, so that an entry is passed over (`BtreeSkip.SaveAgain`,
  `BtreeSkip.EntrySkipped`).
- `sqlite3BtreeDelete` goes wrong exactly for an entry of an interior page while a `skipNext < 0` is pending: the step back to the leaf
  does not move, and the code takes the interior page for the leaf (`BtreeCursor.BtCursor.TakeOut`, `BtreeSkip.DeleteStays`, and, from a
  concrete tree, `BtreeSkip.InteriorStays`).  What it goes on to do puts an entry without a payload in the place of the one to be deleted
  and takes off the last entry of that page (`PageLift.DeleteAstray`).
- When `sqlite3BtreeDelete` moves the last cell of an index leaf up to an interior page (btree.c:7127-7151), it sets aside the padded size
  that the cell has on the leaf.  A cell of less than 4 bytes, such as that of an empty text, takes less than that on the interior page,
  and the rest is lost: in no cell, in no free block and not counted as a fragment.  The page is well-formed afterwards exactly if it was
  before and the cell takes 4 bytes or more, or was put aside (`PageLift.LiftCell`, `PageLift.ShortCell`, and for the tree
  `BtreeCursor.BtCursor.TakeOut`).  The tree keeps its contents, but on such a page `defragmentPage` reports corruption always
  (`PageEdit.DefragmentPage`, `PageLift.LosesByte`), `allocateSpace` exactly if it has to defragment (`PageEdit.AllocateSpace`), and
  `freeSpace` exactly if the bytes between the blocks it merges, lost ones among them, are more than are counted as fragments
  (`SlottedPage.FreeSpace`).  Database files have no such cells; the indexes made for a compound SELECT or an IN have (btree.c:6533-6535).
- An interior page that has lost nearly a third of its bytes would not be balanced when it has become empty, at a threshold that
  `BtreeStep.EmptyCaught` makes exact.
- `sqlite3BitvecSet` does not return for a vector of more than 2^32 - 62 bits exactly if its hash table is too full for the value: the
  divisor it should be split by is 0 (`Bitvecs.DivisorVanishes`, `Bitvecs.Bitvec.Set`, `BitvecStuck.SetReturns`).  Page numbers stay
  below 2^31 (pager.c:786), so that no caller in the program gets there.
- An INSERT of a single row that an immediate foreign key aborts leaves what it has already added to the deferred counter
  (`FKeys.Database.Insert`, `FKeys.AbortLeavesCount`), because such a statement opens no statement transaction that could restore it
  (fkey.c:424-436, vdbeaux.c:1496, vdbeaux.c:2013-2054).

## Model

| member | source | states |
|---|---|---|
| BtreeCursor.BtCursor.Insert | btree.c:6925-7053 | after an insert the tree is sound (in key order, all leaves at one depth, every page within its space, no overflow cell left, pages owned exactly once), and as a map it is the old one with exactly that key set; in key order exactly one entry was added or replaced; the tree is the old one with the cell in its place, and, exactly where the cell did not fit, balanced from that page up; a cursor that stays valid is on the entry stored |
| BtreeCursor.BtCursor.Delete | btree.c:7069-7180 | after a delete the tree is sound and its contents are the old ones without exactly the entry the cursor was on, also when that entry lay on an interior page and another one moved up in its place; it works exactly unless the entry lies on an interior page and a skipNext < 0 is pending; no page loses bytes unless an entry of less than 4 moved up; the tree is the old one with the cell taken off, balanced from its leaf up, and where an entry moved up, from that page up as well: the leaf is at most two thirds free, or the root, or was spread anew with its neighbours |
| BtreeCursor.BtCursor.TakeOut | btree.c:7096-7151 | before balancing, the contents already lack just that entry, and the tree is ready to be balanced from the leaf up; the interior page has lost nothing exactly if it had not before and the entry moved up takes 4 bytes or more or was put aside; with a pending skipNext < 0 the step to the leaf leaves the cursor on the interior page |
| BtreeCursor.BtCursor.MovetoUnpacked | btree.c:4593-4771 | a seek, by either fast path or by the full search, ends on the entry with the key, or on a leaf entry right before or right after where the key belongs, with the matching sign |
| BtreeCursor.BtCursor.SearchPage | btree.c:4682-4745 | the binary search of one page leaves only the subtree in which the key can be, for every choice of the first probe |
| BtreeCursor.SoughtGap | btree.c:4593-4771 | an entry next to where the key belongs is the last smaller or the first larger one of the whole tree |
| BtreeCursor.BtCursor.First | btree.c:4506-4524 | the cursor is on entry 0, or the tree is empty |
| BtreeCursor.BtCursor.Last | btree.c:4529-4563 | the cursor is on the last entry, also when it trusts that it is already there; in that case the caller's result variable is not written |
| BtreeCursor.BtCursor.Next | btree.c:4795-4848 | from entry p to entry p + 1 or off the end; after a save, any change to the tree and a restore, to the first entry beyond the saved key; a pending skipNext > 0 makes it stay |
| BtreeCursor.BtCursor.Previous | btree.c:4870-4922 | from entry p to entry p - 1 or off the start; after a save, any change and a restore, to the last entry before the saved key |
| BtreeCursor.BtCursor.Save | btree.c:598-636 | the key of the entry is remembered |
| BtreeCursor.BtCursor.Restore | btree.c:714-729 | in whatever tree there is now, the cursor is on the saved key or next to where it was, and skipNext says on which side |
| BtreeCursor.BtCursor.Count | btree.c:7628-7691 | the walk over all pages adds up to the number of entries |
| BtreeCursor.BtCursor.Ascend | btree.c:7664-7676 | going up from a leaf, the entries counted and those still to come are all entries |
| BtreeCursor.BtCursor.MoveToChild | btree.c:4276-4300 | the subtree entered is the stretch of the walk between two cells |
| BtreeCursor.BtCursor.MoveToParent | btree.c:4331-4355 | back at the cell that follows the subtree just left |
| BtreeCursor.BtCursor.MoveToRoot | btree.c:4378-4449 | at the start of the walk, also where page 1 holds no cells and one child; the cursor is invalid exactly for an empty tree |
| BtreeCursor.BtCursor.MoveToLeftmost | btree.c:4457-4472 | on the leaf cell where the subtree's walk starts |
| BtreeCursor.BtCursor.MoveToRightmost | btree.c:4482-4501 | on the leaf cell where the subtree's walk ends |
| BtreeScan.ScanForward | btree.c:4506-4848 | First and Next until the end visit every entry exactly once in order, unless the cursor enters with skipNext > 0; then the first one comes twice |
| BtreeScan.ScanBackward | btree.c:4529-4922 | Last and Previous until the start visit the same entries backwards, with the mirrored exception |
| BtreeSkip.SeekThenNext | btree.c:4593-4848 | a seek and one Next end one entry beyond where the seek ended, exactly unless a skipNext > 0 is pending; then the cursor stays |
| BtreeSkip.SeekThenPrevious | btree.c:4593-4922 | the same backwards, with a skipNext < 0 |
| BtreeSkip.LoseEntry | btree.c:598-729 | when another cursor deletes the entry of a saved one, the restored one is beside the gap with a pending skipNext for the side it is on, unless nothing is left |
| BtreeSkip.SaveAgain | btree.c:598-729 | saved and restored in an unchanged tree, a cursor is on the same entry and no skipNext is pending any more |
| BtreeSkip.FirstStays | btree.c:4506-4848 | after the loss of the first entry, First and Next end on the same entry, for every tree of two or more |
| BtreeSkip.LastStays | btree.c:4529-4922 | after the loss of the last entry, Last and Previous do |
| BtreeSkip.SeekStays | btree.c:4593-4848 | after the loss of the first entry, any seek and Next end on the entry the seek ended on |
| BtreeSkip.EntrySkipped | btree.c:598-729 | lost, saved again and restored, the cursor passes over the entry that came next |
| BtreeSkip.DeleteStays | vdbe.c:5097-5123 | after the loss of the last entry, seeking any other one and deleting it works exactly if that one lies on a leaf |
| BtreeSkip.FirstTwice | btree.c:4506-4848 | from an empty index, a run in which First and Next return the same entry |
| BtreeSkip.InteriorStays | btree.c:7096-7104 | a concrete index and run, with two deletions through two cursors, in which the second one does not get from the interior page to the leaf |
| BtreeScan.ThereAndBack | btree.c:4795-4922 | Previous undoes Next |
| BtreeTree.Btree.Balance | btree.c:6790-6900 | the loop ends; contents and order are kept, pages allocated and freed are all accounted for, and either the whole tree is sound or what is left to do starts at the interior page a deletion changed; the rounds go on exactly until a page is neither overfull nor more than two thirds free, or is the root, and each is one of the three ways to balance, chosen as the code does |
| BtreeRounds.ReachesSteady | btree.c:6796-6895 | where the loop ends the page needs no balancing, and it does nothing before exactly where the first page needs none |
| BtreeRounds.UnderfullSpread | btree.c:6821-6875 | a page that is not overfull but more than two thirds free is spread with its neighbours under their parent |
| BtreeRounds.OnePage | btree.c:6332-6347 | where one page can hold the cells of the siblings, one page is left |
| BtreeTree.Btree.BalanceOnce | btree.c:6816-6895 | one round leaves the parent as the only page that may need balancing |
| BtreeTree.Btree.Deepen | btree.c:6803-6815 | an overfull root becomes the parent of one new page, with the same contents |
| BtreeBalance.BalanceNonroot | btree.c:6079-6700 | a child and its neighbours are spread anew under their parent: the same walk (on table leaves the same entries under new dividers), sound children, pages accounted for, and a root left with one child collapses when that fits; the siblings are those the code picks, and they end on as few pages as can hold their cells |
| BtreeBalance.BalanceQuick | btree.c:5855-5933 | appending at the end of a table gives the new entry a page of its own, with the same result as a full balance promises; the old leaf keeps all but that entry |
| BtreeBalance.BalanceDeeper | btree.c:6733-6778 | the root's content moves unchanged to a new child |
| BtreeRebalance.SpreadSiblings | btree.c:6253-6580 | siblings and dividers read left to right give the same sequence before and after, on at most two pages more, none overfull and none empty; on as few pages as any way to spread the cells needs, evened out except in a bulk load, the old pages used first, in ascending order |
| BtreeRebalance.PlanPages | btree.c:6253-6380 | the cells of the siblings in one run, and cut points for them that fit, on as few pages as possible |
| BtreePacking.Pack | btree.c:6332-6379 | the two packing loops give strictly increasing cut points such that every page fits and none is empty, on as few pages as any other way to spread the cells needs, and no boundary can move further left |
| BtreePacking.PackedFewest | btree.c:6332-6379 | no other cut points that fit make fewer pages |
| BtreePacking.PackLeft | btree.c:6332-6347 | filling pages from the left never takes more pages than any partition that fits |
| BtreePacking.Shift | btree.c:6359-6379 | moving cells over one boundary keeps both pages within bounds and stops exactly where the code's comparison does |
| BtreePacking.GreedyAhead | btree.c:6332-6347 | no partition that fits ever cuts further right than the left-to-right packing |
| BtreeSiblings.CutJoin | btree.c:6487-6561 | pages and dividers cut from a run of cells give back that run |
| BtreeSiblings.CutWalk | btree.c:6487-6561 | on index and interior pages the walk over the new pages is the walk over the old ones |
| BtreeSiblings.CutEntries | btree.c:6487-6561 | on table leaves the entries are the same and each divider repeats the key on its left |
| BtreeSiblings.SiblingGroups | btree.c:6079-6130 | however full up to three siblings are, five pages hold all their cells: the array of new pages never overflows |
| BtreeRebalance.SortPgnos | btree.c:6443-6473 | the new siblings use the chosen page numbers in ascending order |
| BtreeRebalance.InsertDividers | btree.c:6497-6561 | the dividers end up in the parent in order, those that do not fit as adjacent overflow cells |
| BtreeEdit.MapInsert | btree.c:6925-7053 | an entry put into the gap where its key belongs sets that key in the map and was not there before |
| BtreeEdit.MapRemove | btree.c:7069-7180 | leaving out an entry removes its key from the map and nothing else |
| BtreeDelete.WalkTakenUp | btree.c:7127-7151 | replacing an interior entry by the entry before it, taken from its leaf, is removing just that interior entry from the walk |
| BtreeShape.InsertFits | btree.c:5685-5771 | a cell inserted into a page that fits leaves a page that fits, with at most one more overflow cell |
| BtreeLost.CutKeeps | btree.c:6525-6561 | siblings spread anew have lost nothing, as short cells are measured again, and nothing changes below them |
| BtreeStep.EmptyCaught | btree.c:6792-6823 | an empty interior page counts as full enough not to be balanced exactly if it has lost more than a threshold |
| BtreeCursor.LongSpared | btree.c:6533-6535 | where cells take 4 bytes or more, no deletion brings a page over that threshold |
| BtreePtrmap.NextOld | btree.c:6625-6640 | the walk over the old siblings stands on the page that a cell was on, or knows it for a divider or overflow cell |
| BtreePtrmap.MoveCells | btree.c:6608-6667 | writing only the entries of cells that changed pages, or were dividers or overflow cells, makes the entries of all cells on the new pages true; no other entry changes |
| BtreePtrmap.PutSiblings | btree.c:6608-6674 | on interior pages the right children are true as well |
| BtreePtrmap.Reparent | btree.c:6581-6680 | after interior siblings have been spread anew, the entry of every child, and of every overflow chain of a cell on them, names its new page |
| BtreeSeek.PageIn | btree.c:7895-8060 | every page of a sound tree has its leaves at the same depth and only the root may be empty |
| MemPages.MemPage.InsertCell | btree.c:5685-5771 | for a cell that starts the bytes given, which may be more than it takes: it is put aside exactly when those do not fit, and else is cell number i, all others keep their bytes and order, nFree falls by the bytes given and the pointer, and what the cell does not take is lost; every other byte is in exactly one cell or free block or counted as a fragment; it fails exactly if bytes were lost before and the page has to be defragmented |
| MemPages.MemPage.DropCell | btree.c:5628-5671 | exactly that cell is gone and nFree has grown by its size and pointer; it fails exactly if more lies between its bytes and the free blocks beside them than is counted as fragments, and never if nothing was lost |
| PageNode.InsertCell | btree.c:5685-5771 | inserting into the bytes of a page that reads as a node leaves bytes that read as the node with the cell inserted, on the page or put aside, with the same bytes lost; it fails exactly where the page has to be defragmented and has lost bytes |
| PageNode.DropCell | btree.c:5628-5671 | dropping a cell from the bytes drops it from the node they read as, and cannot fail if no byte was lost |
| PageLift.LiftCell | btree.c:7127-7151 | a leaf cell moved up to an interior page, on the bytes: nothing is lost exactly if nothing was before and the cell takes 4 bytes or more or was put aside, and else it is the padding |
| PageLift.ShortCell | btree.c:5708-5713 | the cell of an empty text is a whole cell of 4 bytes on a leaf, and with a child pointer before it takes 7 of the 8 bytes set aside |
| PageLift.LosesByte | btree.c:1144-1164 | a concrete page on which, after such a cell has moved up, the defragmentation fails |
| PageLift.StrayCell | btree.c:7145 | a cell that has a child pointer already and gets another one is read as a cell without a payload |
| PageLift.DeleteAstray | btree.c:7118-7151 | how a deletion goes on that takes the interior page for the leaf: an entry without a payload takes the place of the entry, the last entry of the page is gone, and its other bytes are lost |
| PageNode.FreeAgrees | btree.c:1410-1516 | nFree is the room the node's cells leave |
| PageNode.FilledGood | btree.c:5470-5618 | the cells filled in for a leaf are within the bounds that balancing relies on |
| MemPages.InitPage | btree.c:1410-1516 | a page is accepted exactly if its free blocks can be followed from the header, in ascending order, at least 4 bytes apart and inside the page, and make no more free bytes than there is room for |
| MemPages.PageReadable | btree.c:1410-1516 | a well-formed page is such a page, whatever bytes it has lost, and reading it back finds the same nFree |
| MemPages.ZeroPage | btree.c:1522-1552 | an emptied page is well-formed and offers all its space |
| PageEdit.AllocateSpace | btree.c:1183-1265 | the bytes set aside overlap no cell and no free block, and no cell changes, also when the page is defragmented first; it fails exactly if it has to defragment and bytes are lost |
| PageEdit.DefragmentPage | btree.c:1093-1166 | every cell keeps its bytes and its number, and the free space is one piece; it is of nFree bytes exactly if none was lost, and else corruption is reported |
| SlottedPage.FreeSpace | btree.c:1282-1361 | the freed bytes join the chain, sorted, merged with neighbours less than 4 bytes away and with the gap, every byte still accounted for; it fails exactly if merging takes in more bytes than are counted as fragments, and never if none is lost; no free block is left at the start of the content area |
| SlottedPage.FindLink | btree.c:1307-1320 | the link found is the one between the free blocks around the freed bytes |
| SlottedPage.Coalesce | btree.c:1327-1351 | one pass merges everything that is too close, turning fragments into free space, and fails exactly if those are fewer than the bytes between |
| SlottedPage.GapsBeside | btree.c:1327-1351 | in a chain without close neighbours the bytes merged in are just those between the freed bytes and the blocks beside them |
| CellFormat.SizeAgrees | btree.c:924-1062 | the fast way to find a cell's size agrees with parsing it |
| CellFormat.CellDelimited | btree.c:924-985 | a cell tells where it ends, whatever follows it |
| CellFormat.LocalDivides | btree.c:964-985 | of a payload too large for the page, that number of bytes within the bounds stays there which leaves no overflow page partly empty, and the least if there is none |
| CellFormat.LocalBounds | btree.c:2500-2503 | the bounds are the largest numbers such that 23 more are at most 32 and 64 parts of 255 of the usable bytes less 12; a table leaf keeps up to 35 bytes less than a page |
| CellFormat.ParseDivides | btree.c:924-985 | every cell, however it came about, is read with that split, and the number of its first overflow page right behind |
| CellHeader.HeaderReads | btree.c:5470-5520 | the header of a new cell is read back as written |
| CellHeader.FilledIsCell | btree.c:5470-5618 | a cell of the length filled in is one cell to the parser |
| Bytes.VarintRoundTrip | util.c:698-866 | every 64-bit integer written as a varint is read back, whatever follows |
| Bytes.Get4Put4 | btreeint.h:658-661 | four bytes written are read back and others are untouched |
| Payload.PageStore.FillInCell | btree.c:5470-5618 | the cell and a chain of distinct pages hold exactly the payload, followed by the zeros asked for; the chain's pages are just those taken off the free list or new to the file, and every page in use keeps its bytes; the split is the one the file format asks for |
| Payload.PayloadSurvives | btree.c:5470-5618 | a payload stored before is still there, on the same pages, after another one has been stored |
| Payload.PageStore.AccessPayload | btree.c:3959-4125 | any slice is read back exactly, or overwritten exactly with all other bytes kept, with or without the cache of overflow pages; out of range is refused; the bytes on the page are as many as the file format says; with a cache, every overflow page touched is known afterwards, and nothing known before is forgotten |
| Payload.PageStore.AccessChain | btree.c:4038-4118 | the same for the part on overflow pages, and every page number put into the cache is right |
| Payload.PageStore.FindStart | btree.c:4017-4036 | the page the cache names for a position is the one that holds it, and else the search begins at the first page of the chain |
| Payload.PageStore.ClearCell | btree.c:5396-5456 | exactly the pages of the cell's chain join the free list |
| OverflowChain.ChainLength | btree.c:5396-5456 | a chain has as many pages as its bytes need |
| PtrMap.EntryInside | btree.c:770-782 | each page's pointer-map entry lies inside its map page |
| PtrMap.EntryOwn | btreeint.h:570-572 | no two pages share a pointer-map entry |
| PtrMap.EntriesFill | btree.c:770-782 | no further entry fits on a map page |
| PtrMap.MapCovers | btree.c:770-782 | the pages after a map page up to the next one are exactly those with entries on it, the pending page aside |
| PtrMap.MapPages | btree.c:770-782 | one map page for every Entries + 1 pages from page 2 on, and one page later exactly where the pending page is in the way |
| PtrMap.FinalDbSize | btree.c:3100-3116 | the size after a vacuum is exact: the usable pages up to it are those before less the free ones, and its last page is usable |
| Freelist.FreeList.FreePage2 | btree.c:5265-5386 | exactly one page joins the list, the header count rises by one and no page is on the list twice; as a leaf of the first trunk exactly while that has room, leaving six entries unused, else as a new first trunk |
| Freelist.FreeList.AllocateBtreePage | btree.c:4947-5251 | exactly the page returned leaves the list, or the file grows to a usable page; exact mode returns `nearby` when it is free, at-most mode a page not above it whenever there is one; without a search the page comes from the first trunk, the leaf closest to `nearby` |
| Freelist.FreeList.Take | btree.c:4995-5175 | following the chain finds a wanted page exactly when there is one; without a search the first trunk gives a page |
| Freelist.Closest | btree.c:5118-5141 | the leaf chosen from a trunk is the first at most `nearby`, or number 0 if none is; in the other modes the first of those closest to it; without `nearby` number 0 |
| PageGraph.MovedOk | btree.c:2911-2982 | renaming a page in all pointers and entries keeps the pointer map true |
| PageGraph.Relocated | btree.c:2911-2982 | moving the content, redirecting the one pointer to it and re-parenting what it points to is that renaming |
| PageGraph.SameThen | btree.c:3168-3215 | a graph that was renamed page by page is the old one up to one renaming |
| AutoVacuum.Database.AutoVacuumCommit | btree.c:3168-3215 | afterwards the page graph is the old one up to renaming with all roots in place, every pointer-map entry names the true parent, every usable page up to the new end is in use and the free list is empty |
| AutoVacuum.Database.VacuumLoop | btree.c:3191-3199 | the loop ends with no page in use above nFin |
| AutoVacuum.Database.VacuumStep | btree.c:3004-3093 | one page less to deal with; what is in use is moved, and as many free pages as pages to move remain below nFin; it ends the loop exactly at a page that can hold content when no page is free |
| AutoVacuum.Database.FreeTarget | btree.c:3066-3075 | the allocation loop never runs out of free pages and never extends the file |
| AutoVacuum.Database.RelocatePage | btree.c:2911-2982 | the graph is renamed in this one page |
| AutoVacuum.Database.ModifyPagePointer | btree.c:2851-2905 | the one pointer of the kind the entry names is redirected; its absence is unreachable |
| AutoVacuum.Database.SetChildPtrmaps | btree.c:2801-2836 | all children and overflow pages of the page name it as their parent |
| AutoVacuum.RoomEnough | btree.c:3100-3116 | below the final size there are exactly as many free pages as there are used pages above it |
| SharedCache.BtShared.QueryLock | btree.c:241-296 | a lock is granted exactly when it conflicts with none held by others and no other handle is exclusive, although only locks of the other level are looked for; a refused write lock sets PENDING |
| SharedCache.BtShared.SetLock | btree.c:313-365 | the lock is raised or added, never lowered, and no two handles come to hold conflicting locks |
| SharedCache.BtShared.LockTable | btree.c:8349-8365 | the handle holds the lock if and only if it could be granted |
| SharedCache.BtShared.ClearLocks | btree.c:377-416 | exactly the handle's locks leave the list; PENDING falls with the writer or its last reader |
| SharedCache.BtShared.DowngradeLocks | btree.c:421-432 | the writer's locks become read locks |
| SharedCache.BtShared.BeginTrans | btree.c:2656-2792 | nothing to do, or READONLY for a write on a read-only database, or refused exactly because of PENDING, another writer, locks of others beside an exclusive request, or a write-locked schema, and else as the pager answers; what is granted changes just the transaction of the handle, its lock on table 1 and the writer; while PENDING no transaction opens |
| SharedCache.BtShared.EndTransaction | btree.c:3274-3308 | nTransaction and inTransaction are again the number and the maximum over all handles; the locks of all others stay, those of the handle go or become read locks, and PENDING falls exactly with the writer or the last reader beside it |
| SharedCache.BtShared.Conclude | btree.c:3335-3361 | a commit or rollback ends the handle's transaction, or leaves it reading while statements still run; locks and PENDING as there |
| SharedCache.BtShared.Close | btree.c:2067-2115 | a closed handle leaves no lock and no transaction, and those of the others stay |
| SharedCache.ExclusiveAlone | btreeint.h:385-405 | an exclusive writer holds all locks there are and is the only open transaction |
| SharedCache.PendingWaits | btreeint.h:390-405 | while PENDING there is a writer and somebody else it waits for: the flag never outlives its cause |
| SharedCache.Maximum | btree.c:2745-2750 | the two counters say what they should about all handles |
| BtMutex.StepKeeps | btmutex.c:68-138 | every step of every thread keeps the locking invariant, opening and closing of connections included |
| BtMutex.RunKeeps | btmutex.c:68-138 | so does every run of any number of threads |
| BtMutex.NoDeadlock | btmutex.c:68-128 | in no reachable state do threads wait for each other in a circle |
| BtMutex.SomeoneRuns | btmutex.c:96-125 | whenever a thread waits, some thread holding a mutex can go on |
| BtMutex.BetweenCalls | btmutex.c:130-138 | between calls a handle is locked exactly when it is wanted, and then its shared b-tree belongs to that connection |
| BtMutex.WantCounts | btmutex.c:93-138 | in every run wantToLock of a handle is the number of calls to sqlite3BtreeEnter less those to sqlite3BtreeLeave since it was opened |
| BtMutex.InsideCalls | btmutex.c:68-138 | between a call to sqlite3BtreeEnter and the call to sqlite3BtreeLeave that matches it a thread owns the mutex, and outside it does not |
| BtMutex.StepOpen | btree.c:1954-1978 | opening keeps the handles of a connection in ascending order of address |
| Backup.Backup.Step | backup.c:330-548 | every answer is exact: BUSY for a writing source, a destination not locked yet and busy, or a source that refuses a read transaction; else READONLY for a WAL destination of another page size, or one in memory if a page is to be copied, and then neither the file nor the pages change but for what locking does; else DONE when all pages are copied and OK before, with exact progress; the schema cookie and the change counter are those read when the destination was locked; DONE means that the destination file is the source's image, with the header as Finish says |
| Backup.Backup.BackupOnePage | backup.c:215-301 | for any two page sizes exactly the bytes of the source page change, less those on the destination's pending page, and the page count in the header is set |
| Backup.Backup.SourceWritten | backup.c:654-677 | a reported source write, also one that makes it grow, keeps every copied page equal; it makes the backup fail exactly if that page was copied and the destination cannot take it |
| Backup.Backup.BackupUpdate | backup.c:654-677 | a page already copied is copied again; one not yet copied does not matter; nothing else is written |
| Backup.Backup.BackupRestart | backup.c:685-693 | after an unknown change nothing counts as copied |
| Backup.Backup.Finish | backup.c:427-518 | the finished file is as long as the source and byte-equal to it outside its pending page and the header fields set on the way; those hold the new schema cookie, the version numbers for WAL, the destination's own change counter plus one and the library version, and the page count of the source when page 1 was last copied; for an empty source it is a new database |
| Backup.Backup.Commit | backup.c:446-512 | flushing, which stamps page 1 (pager.c:2927-2939), writing the pages that share the destination's pending page and cutting the file give that image |
| Backup.CountedHeader | pager.c:2927-2939 | page 1 on its way to the file gets change counter and version in bytes 24-27 and 92-99, and no other byte changes |
| Backup.Backup.SpillPageOne | pager.c:4224-4254 | when the cache writes page 1 early, the copied pages stay equal to the source but for that stamp, which it gets |
| Backup.TruncateCovers | backup.c:437-485 | a destination with larger pages is cut so that it still holds all of the source, or all up to the pending page |
| Backup.TruncateLeast | backup.c:437-462 | and no page more, nor the pending page at its end |
| Backup.CopyMirrors | backup.c:266-297 | copying a page makes good for it and harms no other |
| BackupBytes.StretchInPage | backup.c:266-289 | an aligned stretch of the smaller page size lies on one page of the larger |
| Bitvecs.Test | bitvec.c:129-151 | the answer is membership, for every representation and for no vector at all |
| Bitvecs.Bitvec.Set | bitvec.c:165-228 | exactly the one value is added, through bitmap, hash table, parts and the switch from one to the next, for every size a vector can have; it fails exactly if the hash table of a vector too large to be split is too full |
| Bitvecs.Bitvec.Subdivide | bitvec.c:205-222 | the table of parts holds the new value and all values the hash table held |
| Bitvecs.Bitvec.Clear | bitvec.c:236-268 | exactly the one value is removed |
| Bitvecs.Rebuild | bitvec.c:251-266 | the rebuilt hash table holds every value but the one cleared |
| Bitvecs.Probe | bitvec.c:144-149 | probing ends, at the value or at a free slot that proves it absent |
| BitvecHash.FreeSlot | bitvec.c:184-206 | the hash table always has a free slot |
| BitvecHash.CrowdedWhen | bitvec.c:184-206 | a table is too full for a value with one free slot at most, or half full where the value meets a collision |
| BitvecHash.Stored | bitvec.c:224-227 | a value stored at the end of its probe keeps every other value reachable |
| Bitvecs.DivisorVanishes | bitvec.c:215 | the divisor is positive exactly for sizes up to 2^32 - 62 |
| BitvecStuck.SetReturns | bitvec.c:184-228 | with a divisor of 0 a call returns, however deep calls may be nested, exactly if the value is in the table already or the table is not too full for it |
| FKeys.Database.Insert | fkey.c:318-443 | both counters stay the number of violating pairs of constraint and child row, for rows that refer to themselves too; when a single-row insert is aborted, the deferred counter is off by exactly the row's deferred violations before the failing constraint |
| FKeys.Database.Delete | fkey.c:702-857 | both counters stay the number of violating pairs |
| FKeys.Database.Update | update.c:489-509 | the same for an update, which may change the rowid |
| FKeys.Database.CheckFk | vdbeaux.c:2065-2080 | the check at the end of a statement or transaction passes exactly when nothing is violated |
| FKeys.Database.LoseOwn | fkey.c:318-345 | what a deleted row violates leaves the counter, and skipping the test for a counter of zero changes nothing |
| FKeys.Database.LoseChildren | fkey.c:473-584 | rows that get a parent leave the counter, and skipping the scan for a counter of zero changes nothing |
| FKeys.AfterDelete | fkey.c:58-64 | a deletion ends the row's own violations and makes those of the rows that refer to it, and no others |
| FKeys.AfterInsert | fkey.c:50-57 | an insertion makes the row's own violations and ends those of the rows that refer to it, and no others |
| FKeys.AbortLeavesCount | fkey.c:424-440 | a concrete aborted insert after which the deferred counter is above zero although nothing is violated |
| Stat3.Stat3Accum.Push | analyze.c:294-363 | every key is accounted for as kept or lost, in all the ways the samples are bounded and ordered |
| Stat3.Stat3Accum.FindMin | analyze.c:340-362 | the search meets a sample that is not periodic and ends on the least of them |
| Stat3.PeriodsFit | analyze.c:256-268 | at most a third of the samples are periodic, for all row counts and sizes |
| Stat3.PeriodLeast | analyze.c:256-268 | a shorter period could let more than a third of the samples be periodic |
| Stat3.CrossesHits | analyze.c:315 | a key is periodic exactly if one of its rows has a multiple of the period as its number |
| Stat3.Kept | analyze.c:294-363 | all periodic keys are kept, samples are in order, and every kept other key has at least the (nEq, hash) of every lost one; for every multiple of the period so far the key at that row is kept |
| FtsHash.Fts1Hash.Insert | fts1_hash.c:302-367 | insert, replace and delete by NULL change the map in exactly one key and return the old value; the list stays doubly linked, each bucket stays one run of it, and there are never more elements than buckets; it has 8 buckets at first and twice as many whenever there would be more elements, and none when it is empty |
| FtsHash.Fts1Hash.Find | fts1_hash.c:278-288 | returns what the map holds |
| FtsHash.Fts1Hash.InsertElement | fts1_hash.c:161-185 | the element becomes the first of its bucket's run, or of the list, and no other run is torn apart |
| FtsHash.Fts1Hash.Rehash | fts1_hash.c:192-211 | the same elements, in a list that fits the new buckets |
| FtsHash.Fts1Hash.FindElement | fts1_hash.c:217-238 | looking at `count` elements from `chain` on finds the key if it is in the table at all |
| FtsHash.Fts1Hash.RemoveElement | fts1_hash.c:243-272 | exactly the element is gone; an emptied table is cleared |
| FtsHash.Fts1Hash.Clear | fts1_hash.c:61-80 | nothing is left |
| FtsHash.InsertedBuckets | fts1_hash.c:161-185 | inserting before a run, or at the front, keeps every bucket a run |
| FtsHash.RemovedBuckets | fts1_hash.c:243-262 | so does removing |

## Left out

- Delete: an entry of an interior page is not deleted through a bulk-load cursor, as the code asserts (btree.c:6155) and no statement does; nor where the interior page would come to have lost more than the threshold of `BtreeStep.EmptyCaught`. The tree of the model goes on where an operation on the bytes of a page that has lost some would report corruption; where that is, is said for the bytes.
- TakeOut: with a pending skipNext < 0 on an interior page the model of the tree stops, as the code goes on with the interior page as the leaf; what that does to the bytes of the page is in `PageLift`, for page numbers below 2^24, but not what the page number is that it reads from a page the cursor does not hold.
- PageNode.InsertCell: child pointers are bytes of the cell; that they name the node's children is not part of the view.
- Insert: keys are real numbers, standing for any countable total order; collations and record comparison are not modelled.
- Balance: pages of a tree are nested by value, with their page numbers; sibling links, reference counts, the pager's page handles and the temporary buffers of balance_nonroot are not modelled, nor is the pointer map part of the tree: `BtreePtrmap` is the part of balance_nonroot that keeps it true, the entries written elsewhere (btree.c:5755-5765, 5884-5933, 6733-6778) are not modelled.
- Save: the overflow-page cache and cached row ids of a cursor, and the loop that saves all other cursors before a write.
- FillInCell: the pointer-map entries written for new overflow pages; for reading, the guess by getOverflowPage, from the pointer map, that the next overflow page follows the last one, and the direct read from the file that bypasses the page cache.
- AutoVacuumCommit: the incremental step outside a commit (btree.c:3126-3160), and databases whose free pages or root pages are not where a vacuumed or newly created file has them.
- DefragmentPage: the temporary copy of the page is a value.
- BeginTrans: reading page 1 and the busy handler are one answer of the pager; the file-size field of page 1 is not written.
- BtMutex: sqlite3BtreeEnterAll and sqlite3BtreeLeaveAll are runs of the single calls; a thread that drives two connections, as a backup does, is outside the theorem.
- Backup.Step: a codec, the destination's reserved bytes, the order of journal writes and the list of several backups of one source; the loop that only marks pages for the journal (backup.c:466-478).
- Set: when it is stuck the model stops instead of running on. The descent through the parts of a bit vector is a recursion instead of a loop; the three arrays that share their space are three fields, with the sizes for 8-byte pointers.
- Database.Insert: key values are compared for equality without affinity or collation; ON DELETE and ON UPDATE actions, OR REPLACE, deferred parent tables that are missing, and the opcodes themselves.
- Fts1Hash.Insert: the hash function is any function, keys are compared as byte strings with their length, and FTS1_HASH_STRING is not modelled where it differs: lengths found by strlen, and keys with a NUL byte, after which strncmp stops while strHash reads on, so that keys that compare equal can hash apart; allocation never fails.
- Push: at least one sample is wanted; the memory block and the SQL function interface are not modelled.
- The pager, journals, WAL, file locks, memory allocation, `BTS_SECURE_DELETE`, the integrity check, creating and dropping tables, savepoints and incremental blob handles beyond the overflow cache.
