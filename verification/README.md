# Verified model of the TapirusDB storage core

A Dafny model of TapirusDB's B+Tree, of the pager's transactions, and of five smaller algorithms, with proofs of what
they promise. The model follows the Rust code branch by branch: page buffers are arrays changed in
place, the pager is a class, loops are loops. Where the code departs from its own documentation the
model keeps the code, shows an input on which it goes wrong, and proves exactly when it goes right.

## What is modelled

**The slotted-page B+Tree**, in layers, each proved against the one above it.

1. Bytes (`Bytes`, `Varint`, `Cells`): little-endian fields, SQLite varints, page headers and cells.
2. Pages (`Slots`, `Pages`, `LeafPages`, `InteriorPages`): pointer array and content area of a raw
   buffer as a sorted sequence of cells; binary search, pointer shifting, in-place replacement,
   defragmentation, deletion.
3. The pager and overflow (`Freelist`, `Paging`, `OverflowChains`): numbered pages, a freelist kept in
   the bytes of free pages and proved to be a stack, chains of overflow pages.
4. Trees as values (`Keyed`, `TreeModel`, `TreeRows`, `TreeInvariant`, `TreeSizes`, `TreeInsertion`,
   `InsertTheorems`, `Runs`, `FreshKeys`, `Packing`, `SplitLimits`, `SplitExamples`): what routing,
   upserts, splits by count, right-append splits, interior splits and root splits do to rows, sizes and separators.
   `Linking` names the two ways to link a split kid: `AsCoded` (what the code does) and `AsMeant`
   (what the separator contract of `TableInteriorCell` asks for).
5. Trees on pages (`StoredTrees`, `LeafNodes`, `LeafInsertion`, `InteriorNodes`, `NodeSteps`,
   `NodeInsertion`, `BTreeInsert`, `RootInsertion`, `BTreeRead`, `BTreeDelete`, `Replay`, `StaleReads`):
   the methods of `BTreeStorage` over the pager, with the pages of nodes, chains and freelist accounted for.

A ghost argument `s: Stored` says which page holds which node; a ghost result says it for the new
tree. `Value(s)` is the tree as a value, `Rows` its rows in key order, `MapOf` the finite map.

The main results: a run of puts with ever-larger keys, interleaved with any deletions, searches
and scans, is answered as by a finite map, and afterwards the pages in use are the old ones with the
old tree's pages exchanged for the new tree's (`Replay.RunEverLarger`). For single insertions, of
new and of present keys alike, `InsertTheorems.InsertExact` gives the exact condition under which the
code is a map update: no kid but a right child splits (`SplitsMiddle`) and the leaf takes the row
(`Takes`), both told before the call by the nodes on the way to the key.

**What the code does not do.**

- `insert_into_subtree_cow` (src/btree/engine.rs:723-741) adds a cell for the old kid but repoints
  nothing to the new one unless the kid was the right child. The rows of the new half are then
  unreachable: with 4096-byte pages and 1024-byte payloads, putting keys 10, 20, 30, 40 and 5 loses 20
  and 30 (`SplitExamples.MiddleSplitExample`).
- An upsert of the last cell of what becomes the left half of a full leaf is written, yet, if only right
  children split, the key still leads to the old row. If that row has no overflow a search returns the old payload
  (`StaleReads.UpsertThenSearch`). If it has, its chain was freed before the split: the cell names
  pages that are free by now or hold nodes of the tree, the new right leaf among them, and the payload
  is no longer stored (`StaleReads.StraddledOverflow`). With one overflow page, and up to 65536 pages in
  all, a search of the key fails (`StaleReads.SearchAfterLoss`), and freeing the row's overflow, as a
  deletion does, frees a node of the tree and fails (`StaleReads.FreeAfterLoss`).
- A full leaf that is halved by count drops a cell when a half does not fit its page, for new keys
  (`SplitExamples.CrampedExample`) and for present ones (`SplitExamples.CrampedUpsertExample`). A
  present key has two bytes more than the sizes of the halves suggest, since the replaced cell gives
  its pointer back (`SplitExamples.TightUpsertExample`).
- `Session::close` returns early when its rollback fails, and the session goes on owning a transaction
  that is gone (`Sessions.ExactStep`, `Sessions.ExactStepExample`).

- `evict_if_needed` (src/pager/mod.rs:968-1001) does not ask whether a page it drops is stored anywhere.
  With a file every page is. Without one, pages opened from bytes are in the cache alone, and a checkpoint
  empties the log into the cache: opening more than 256 pages and committing a transaction that does
  nothing leaves 256 pages that can be read (`Transactions.OpenThenCommitNothing`).
- A callback of `Session::transaction` that commits itself keeps what it has committed even if it then
  fails (`Sessions.CommitInside`).

**Transactions** (`UndoLogs`, `PageChanges`, `Eviction`, `Transactions`): the pager keeps, for the
transaction and for every savepoint, the pages as they were before their first change. Undoing these
logs is proved to be the same as keeping whole copies of the database, through nested savepoints,
allocation and freeing, and storage that fails; exactly the pages that are dropped from the cache and
stored nowhere are lost, from the present and all copies. A database in a file (`Whole`) never loses any,
through commits, checkpoints, done or failed, and evictions. `Sessions` then tells what interleaved
sessions over such a connection leave behind.

**Beside the B+Tree**: breadth-first search and triangle counting on compressed sparse rows (`Csr`,
`Bfs`, `Triangles`), session ownership and serial outcomes (`Sessions`), the IoT import protocol
(`Iot`), the BM25 inverted index and its ranking (`Bm25`, `Bm25Search`, `Ranking`), graph traversal
with its bounded heap (`Traversal`).

## Checking it

`dafny verify dfyconfig.toml` with Dafny 4.11.

## Model

| member | source | states |
|---|---|---|
| Varint.RoundTrip | src/btree/varint.rs:13-68 | decoding an encoded u64 gives it back, with the number of bytes written, whatever follows |
| Varint.DecodedAt | src/btree/varint.rs:48-68 | the same from any position of a buffer |
| Varint.LengthMonotone | src/btree/varint.rs:13-45 | encodings take one to nine bytes, never fewer for a larger value |
| Varint.EncodeVarint | src/btree/varint.rs:13-45 | the buffer-filling encoder writes exactly the encoding and returns its length |
| Varint.DecodeVarint | src/btree/varint.rs:48-68 | the shifting decoder computes the reference decoding, errors included |
| Cells.HeaderRoundTrip | src/btree/mod.rs:83-133 | a stored page header is read back, whatever follows it |
| Cells.LeafCellRoundTrip | src/btree/mod.rs:165-219 | a leaf cell is read back from any position of a page with any suffix |
| Cells.InteriorCellRoundTrip | src/btree/mod.rs:229-248 | an interior cell is read back from any position of a page with any suffix |
| Slots.CloseUp | src/btree/engine.rs:342-352 | the shifting loop removes one pointer and keeps the others in order |
| Slots.OpenUp | src/btree/engine.rs:245-257 | the backward shifting loop makes room for one pointer |
| Slots.ClosedUpSlots | src/btree/engine.rs:333-356 | after the shift exactly the removed cell is gone; the remaining cells are intact and disjoint |
| Slots.WithSlotSlots | src/btree/engine.rs:237-268 | a cell written below the content area joins at its index; no other cell is touched and none overlap |
| Pages.LeafCellRead | src/btree/engine.rs:77-136 | on a well-formed leaf page every cell, and its row id alone, is read as stored |
| Pages.InteriorCellRead | src/btree/engine.rs:105-118 | on a well-formed interior page every cell is read as stored |
| Pages.LeafLayout | src/btree/engine.rs:16-72 | byte for byte: on page 1 the leaf header is bytes 100 to 107 and the pointers follow, on every other page the front; each pointer leads to its cell |
| Pages.InteriorLayout | src/btree/engine.rs:16-72 | the same for interior pages, whose header has twelve bytes |
| LeafPages.InitLeafPage | src/btree/engine.rs:25-37 | an empty leaf; database header and trailer stay |
| LeafPages.FindLeafCellIndexByKey | src/btree/engine.rs:139-174 | fast path and binary search find the index of the key or the index to insert at |
| LeafPages.InsertLeafCellRaw | src/btree/engine.rs:194-275 | true exactly when the cell fits; then the page holds the cells with that key put, in order; false changes nothing; the first 100 bytes of page 1 and the last 40 of every page stay |
| LeafPages.DefragmentLeafPage | src/btree/engine.rs:279-329 | same cells, no dead space, exact free space, every unused byte zero, the first 100 bytes of page 1 and the last 40 of every page untouched |
| LeafPages.DeleteLeafCellFromPage | src/btree/engine.rs:333-359 | true exactly when the key is there; then that cell alone is gone and the page is clean; false changes nothing; database header and trailer stay |
| InteriorPages.InitInteriorPage | src/btree/engine.rs:40-52 | an interior page with a right child only; database header and trailer stay |
| InteriorPages.InsertInteriorCellIntoPage | src/btree/engine.rs:362-419 | true exactly when the cell fits; then it joins behind equal keys; false changes nothing; database header and trailer stay |
| InteriorPages.SetRightChild | src/btree/engine.rs:730-734 | only the right child of the header changes; database header and trailer stay |
| Freelist.PopSlot | src/pager/mod.rs:1330-1358 | lowering a trunk's count takes the page freed last off the list, and nothing else |
| Freelist.PushSlot | src/pager/mod.rs:1463-1476 | writing a slot and the count puts a page on top of the list |
| Freelist.PushTrunk | src/pager/mod.rs:1456-1485 | a page that becomes the trunk is on top of the list |
| Paging.Pager.AllocatePage | src/pager/mod.rs:1317-1445 | read off the trunk pages: the page freed last, or a new one; zeroed, not in use before, no page in use changed |
| Paging.Pager.FreePage | src/pager/mod.rs:1448-1489 | written into the trunk or made the trunk, the page is on top of the freelist, no page in use changed; page 1 and unknown pages are refused; a page that is free already is accepted, and then exactly the freelist is broken |
| Paging.Pager.WritePage | src/pager/mod.rs:1187-1314 | one page replaced; the first 100 bytes of page 1 stay the pager's; a page in use leaves the freelist intact |
| OverflowChains.WriteOverflowChain | src/btree/engine.rs:425-463 | a chain on fresh pages that carries exactly the data; pages in use before are untouched |
| OverflowChains.PagesForRoundsUp | src/btree/engine.rs:425-463 | such a chain has as many pages as its bytes need at 46 bytes less than a page each |
| OverflowChains.ReadOverflowChain | src/btree/engine.rs:466-486 | on any pages on which the links come to an end: the pieces in link order, or the error met |
| OverflowChains.ChainFollowed | src/btree/engine.rs:425-486 | following a chain as written gives its data back |
| OverflowChains.FreeOverflowChain | src/btree/engine.rs:489-503 | exactly the linked pages become free, in order, zeroed but for those the freelist writes in; an error exactly when the last link leads nowhere |
| Keyed.PushAndSort | src/btree/engine.rs:860-865 | pushing an element behind a sorted list and sorting stably puts it behind its equals |
| TreeInvariant.RowsBetween | src/btree/engine.rs:1005-1050 | in a well-formed tree the rows ascend strictly from leaf to leaf |
| TreeInvariant.LookupFindsScan | src/btree/engine.rs:516-577 | routing finds a key exactly when the tree's map has it, with the same value |
| TreeInvariant.DeleteCorrect | src/btree/engine.rs:1054-1107 | deletion keeps order, bounds, balance and capacities and removes exactly that key |
| TreeSizes.CountHalvesFit | src/btree/engine.rs:867-871 | footprints in [s, S] overflowing a capacity C by one cell can be halved by count when s(C - S) >= S² |
| TreeSizes.RatioMakesRoom | src/btree/engine.rs:860-893 | under that ratio both halves of a full leaf fit their pages |
| TreeSizes.InteriorHalvesFit | src/btree/engine.rs:772-824 | an interior split never drops a cell, at any page size from 100 bytes |
| TreeSizes.FilledExact | src/btree/engine.rs:873-893 | refilling a page keeps all of some ascending rows exactly when they fit together |
| TreeSizes.FilledPair | src/btree/engine.rs:201-235 | of two neighbours with one key the later row wins, the earlier one's bytes stay dead and its pointer is free again: exactly when all following rows are kept |
| TreeInsertion.SplitPresent | src/btree/engine.rs:860-895 | a full leaf that holds the key comes out right if and only if old and new row lie in one half and that half can take the upsert, the freed pointer counted |
| TreeInsertion.SplitLeafCorrect | src/btree/engine.rs:827-896 | a leaf split keeps every row and the bounds at the separator when the leaf takes the row |
| TreeInsertion.PromotedIsSeparator | src/btree/engine.rs:653-824 | whether a subtree splits and which separator comes up is told by keys and sizes on the way to the key |
| TreeInsertion.MiddleOfTwoLevels | src/btree/engine.rs:714-741 | in a tree of two levels a middle kid splits if and only if the leaf of the key has no room and is not the last one |
| TreeInsertion.RoomSplitsNothing | src/btree/engine.rs:688-694 | while the leaf of the key has room nothing splits |
| TreeInsertion.NodeStepKeepsKids | src/btree/engine.rs:772-824 | whatever entry a node is given, dividing its page loses none of its kids |
| TreeInsertion.NodeStepCorrect | src/btree/engine.rs:700-824 | the step the separators ask for leaves one or two well-formed nodes around the promoted key |
| InsertTheorems.InsertIntoCorrect | src/btree/engine.rs:653-769 | inserting into a subtree keeps order, balance and capacities and is a map update: as meant for every key, as coded when only right children split |
| InsertTheorems.InsertCorrect | src/btree/engine.rs:580-651 | the same for the whole tree, root split included; at most one level is added |
| InsertTheorems.LeafExact | src/btree/engine.rs:680-712 | for every key, a leaf step goes wrong exactly when the leaf cannot take the row |
| InsertTheorems.CrampedHalves | src/btree/engine.rs:867-893 | halving by count loses a row when the key is new and a half does not fit its page |
| InsertTheorems.CodedWrong | src/btree/engine.rs:723-741 | when a kid other than the right child splits, or the leaf goes wrong, the rows of the tree come out wrong |
| InsertTheorems.InsertExact | src/btree/engine.rs:580-769 | for every well-formed tree and every row: the code is a map update if and only if no middle kid splits and the leaf takes the row |
| InsertTheorems.CodedIsMeant | src/btree/engine.rs:723-755 | whatever else is lost, upserts that straddle a cut left aside: the code takes the step the separators ask for if and only if no middle kid splits, interior splits included |
| InsertTheorems.StraddleKeepsBoth | src/btree/engine.rs:860-895 | a straddling upsert leaves the old row last on the left and the new one first on the right |
| StoredTrees.StoresFrame | src/btree/engine.rs:580-1107 | a stored tree depends on the pages it owns and on no others |
| LeafNodes.SplitLeafPage | src/btree/engine.rs:827-896 | the pages hold the two leaves of the split; one new page; nothing else changes |
| LeafInsertion.InsertIntoLeaf | src/btree/engine.rs:670-712 | the leaf case refines the value-level step; the replaced chain is freed, its last page becoming the new right leaf; pages are conserved when the leaf takes the row |
| InteriorNodes.Route | src/btree/engine.rs:714-733 | the loop picks the kid of the first separator not below the key, or the right child |
| NodeInsertion.SplitInteriorPage | src/btree/engine.rs:772-824 | the pages hold the two halves around the promoted middle entry |
| NodeInsertion.GrowNode | src/btree/engine.rs:723-736 | the entry joins the node's page exactly when it fits; the right child is repointed only if it split |
| BTreeInsert.LinkSplit | src/btree/engine.rs:718-755 | from the kid's outcome to the node's: pages placed, overflow kept, pages conserved for a right child |
| BTreeInsert.InsertIntoSubtree | src/btree/engine.rs:653-769 | the recursion refines the value-level insertion for every key, correct or not, and touches no page outside the tree |
| RootInsertion.SplitRoot | src/btree/engine.rs:594-647 | the left half is copied to a new page and the root page becomes a node over both halves |
| RootInsertion.Insert | src/btree/engine.rs:580-651 | insertion refines the value-level tree under the same root page; clean insertions conserve pages |
| BTreeRead.SearchPages | src/btree/engine.rs:516-577 | the loop finds the row that routing leads to and brings together what its cell and the pages behind its pointer hold, errors included |
| BTreeRead.Search | src/btree/engine.rs:516-577 | the loop returns the value-level lookup, overflow assembled, on every stored tree with sorted leaves |
| BTreeRead.ScanSubtreeWith | src/btree/engine.rs:1005-1050 | the callback is offered the rows in order until it refuses one |
| BTreeRead.ScanSubtreeWithRef | src/btree/engine.rs:932-1003 | the borrowed scan offers the same rows in the same order |
| BTreeRead.BorrowedIsCopied | src/btree/engine.rs:946-974 | decoding a cell in place and copying it agree on every buffer, errors included |
| BTreeRead.OfferedIsPrefix | src/btree/engine.rs:908-916 | early stop delivers a prefix that ends with the first refused row |
| BTreeRead.Scan | src/btree/engine.rs:899-906 | scan collects every row in key order with its whole payload |
| BTreeDelete.DeleteFromSubtree | src/btree/engine.rs:1058-1107 | the row and its chain are gone, its pages free, everything else as before; true exactly when the key was there |
| BTreeDelete.Delete | src/btree/engine.rs:1054-1056 | one key leaves the map; the tree stays well-formed and separate |
| Runs.EverLargerIsHarmless | src/btree/engine.rs:837-858 | puts above all keys put before never split a middle kid, straddle or overflow a half, whatever is deleted between |
| Runs.HighKeyInsert | src/btree/engine.rs:837-858 | such a put adds one row at the end and keeps the tree well-formed up to that key |
| Runs.ListsUnique | src/btree/engine.rs:899-906 | a map has one listing in key order |
| Runs.ScanIsSearch | src/btree/engine.rs:516-577 | a scan ascends strictly and lists (k, v) exactly when search(k) returns v |
| Replay.Apply | src/btree/engine.rs:516-1107 | one operation on pages: the map's answer, the tree ready again, its pages exchanged |
| Replay.Run | src/btree/engine.rs:516-1107 | every run of clean operations is answered as by a finite map; root page kept; no page lost, shared or taken from others |
| Replay.RunEverLarger | src/btree/engine.rs:516-1107 | the same for all runs with ever-larger keys, with no further assumption on sizes |
| Replay.RunFromScratch | src/btree/engine.rs:516-1107 | from a new pager and an empty table, every such run is answered as by an empty map |
| Replay.CreateTree | src/sql/executor.rs:573-576 | an empty leaf on a new page is a tree these runs can start from |
| FreshKeys.FreshRun | src/btree/mod.rs:218-225 | distinct keys in any order, sizes within the ratio: the step as meant keeps the tree ordered and balanced, with exactly these rows |
| FreshKeys.RatioIsRoomy | src/btree/engine.rs:860-893 | under the size ratio no leaf is too full to be halved, whatever the key |
| Packing.LoadedIsPacked | src/btree/engine.rs:837-858 | loading ascending rows leaves every leaf but the last with more than C - S bytes of rows |
| Packing.LeafPagesBound | src/btree/engine.rs:832-836 | so the leaves number at most the total footprint divided by C - S + 1, plus one |
| SplitLimits.UpsertExact | src/btree/engine.rs:860-895 | an upsert at index j of a full n-cell leaf leaves one row for the key if and only if j is not (n + 1)/2 - 1 |
| SplitLimits.OldRowStays | src/btree/engine.rs:860-895 | after a straddling upsert below right children the key still leads to the old row |
| SplitLimits.StaleRead | src/btree/engine.rs:516-577 | so if the old payload has no overflow, a lookup finds that payload |
| StaleReads.UpsertThenSearch | src/btree/engine.rs:516-769 | on pages: insert, then search, returns the payload from before the upsert |
| StaleReads.StraddledOverflow | src/btree/engine.rs:684-700 | an old row with overflow still names the chain that was freed: its pages are free or hold nodes, the last one surely a node, so no chain holds the payload; the tree is stored with all its payloads if and only if the old row has no overflow |
| StaleReads.Misread | src/btree/engine.rs:466-503 | when the old row had one overflow page, that page is now a node with cells, whose first bytes, read as a link, lead beyond 65536 pages |
| StaleReads.SearchAfterLoss | src/btree/engine.rs:516-577 | so a search of the key fails |
| StaleReads.FreeAfterLoss | src/btree/engine.rs:489-503 | and freeing the row's overflow frees a node of the tree and fails |
| StaleReads.InsertSearchable | src/btree/engine.rs:580-769 | every insertion, right or wrong, leaves a tree in which search can run |
| SplitLimits.MiddleSplitHides | src/btree/engine.rs:723-741 | after a middle kid splits, no key of its new right half is found |
| SplitExamples.MiddleSplitExample | src/btree/engine.rs:723-741 | five insertions into an empty table that lose two rows |
| SplitExamples.StaleReadExample | src/btree/engine.rs:860-895 | with a leaf full of 10, 20 and 30, putting another payload under 20 is not seen by a search |
| SplitExamples.CrampedExample | src/btree/engine.rs:867-893 | eight insertions into an empty table of which the last, of a new key, loses key 300 |
| SplitExamples.CrampedUpsertExample | src/btree/engine.rs:867-893 | nine insertions into an empty table of which the last, of a present key, loses key 300 |
| SplitExamples.TightUpsertExample | src/btree/engine.rs:201-235 | an upsert that comes out right although the cells of a half exceed the page |
| Csr.FromNeighbours | src/graph/csr.rs:50-99 | offsets and targets hold each node's neighbours, sorted, and nothing else |
| Csr.CommonNeighborsCount | src/graph/csr.rs:200-222 | the two-pointer walk computes the size of the intersection, duplicates counted |
| Triangles.SumIsThreefold | src/graph/csr.rs:225-241 | on simple symmetric graphs the common-neighbour counts over edges u < v add up to three times the triangles |
| Triangles.TriangleCount | src/graph/csr.rs:225-241 | the nested loops return the number of unordered triangles on simple symmetric graphs |
| Bfs.Bfs | src/graph/csr.rs:244-269 | each node within the depth limit once, nothing else, by ascending shortest distance; the start comes first even if unknown |
| Bfs.SeenInTime | src/graph/csr.rs:252-266 | once all seen nodes are expanded, whatever lies within n steps was seen at depth at most n |
| Sessions.StepInv | src/session.rs:128-286 | an open transaction has an owner; owners are open, held sessions of an unpoisoned, open database |
| Sessions.ExactStep | src/session.rs:254-286 | owner and open transaction correspond after every step except the owner's close when its rollback fails |
| Sessions.ExactStepExample | src/session.rs:254-270 | open, begin and a close whose rollback fails: the session owns a transaction that is gone |
| Sessions.ExactRun | src/session.rs:128-286 | in every interleaving without such a close a session owns the database exactly while a transaction is open |
| Sessions.ExactRestored | src/session.rs:157-166 | after such a close the owner's next access sets the owner right again |
| Sessions.Isolation | src/session.rs:128-166 | while a session owns a transaction, calls of others and the database's close change neither data nor ownership |
| Sessions.IsolationRun | src/session.rs:128-166 | the same for any number of calls by others |
| Sessions.PoisonedStep | src/session.rs:135-139 | after poisoning no statement takes effect, for good |
| Sessions.PoisonedBy | src/session.rs:272-286 | only dropping the owner's last handle with a failing rollback poisons |
| Sessions.CloseIsFinal | src/session.rs:128-145 | after a session's close, or the database's, was answered with Ok, and whatever came in between, every access of that session, or of any, is refused and changes nothing |
| Sessions.RollbackToUndoes | src/pager/mod.rs:1680-1739 | whatever work and whatever savepoints of other names came since, going back to a savepoint makes the connection what it was when the savepoint was made |
| Sessions.SameNames | src/pager/mod.rs:1708-1713 | savepoint names are the same up to the case of ASCII letters |
| Sessions.RunSerial | src/session.rs:128-286 | after every interleaving, savepoints and storage failures included, the committed database is the committed work in commit order, and every savepoint holds what was done by then; work rolled back, wholly or to a savepoint, and dropped work leaves no trace |
| Sessions.RunFromFresh | src/session.rs:49-60 | the same for every interleaving from a new database |
| Sessions.SessionDatabase.Access | src/session.rs:128-166 | admission checks in order, then one statement and the new owner |
| Sessions.SessionDatabase.CloseSession | src/session.rs:254-270 | the owner's transaction is rolled back, the session closed for good |
| Sessions.SessionDatabase.DropLast | src/session.rs:272-286 | dropping the last handle rolls back and releases |
| Sessions.SessionDatabase.Transaction | src/session.rs:196-216 | Ok if and only if a transaction can begin, is still open when the callback has made its calls, the callback accepts and the commit works; the calls made are those the callback asks for, whatever comes of it; then, as long as the transaction stayed open, all its work that was not rolled back to a savepoint is committed, else none; no transaction is left open |
| Sessions.SessionDatabase.Finish | src/session.rs:196-216 | the guard: committed exactly if asked for and the commit works; otherwise the database is the committed one, and storage whose last rollback failed has to be opened anew |
| Sessions.OpenWork | src/session.rs:128-166 | while its transaction stays open a session commits nothing, and it sees the committed database with the work done since |
| Sessions.CommitInside | src/session.rs:196-216 | a callback that commits itself and then fails has not left nothing |
| UndoLogs.BackNewest | src/pager/mod.rs:1716-1729 | undoing the newest log first is letting the oldest log that knows a page decide |
| UndoLogs.BackMergedAll | src/pager/mod.rs:1749-1757 | a released savepoint's pages join the one before without changing what undoing brings back |
| UndoLogs.PopLevel | src/pager/mod.rs:1716-1735 | undoing the newest savepoint brings back the database as it was at that savepoint, and leaves the start and all older savepoints what they were |
| UndoLogs.ChangePage | src/pager/mod.rs:1230-1271 | noting a page in two logs before changing it keeps the start and every savepoint |
| UndoLogs.ReleaseLevels | src/pager/mod.rs:1742-1759 | releasing keeps the start and all older savepoints |
| UndoLogs.TurnOver | src/pager/mod.rs:968-1001 | dropping pages from the cache takes exactly those that are stored nowhere from the present, the start and every savepoint |
| UndoLogs.EmptyStorage | src/pager/wal.rs:553-628 | moving the log into the cache keeps the present, the start and every savepoint |
| PageChanges.TakeIsPop | src/pager/mod.rs:1317-1417 | allocating takes the page freed last off the freelist in the pages and zeroes it; only free pages change |
| PageChanges.TakeIsNew | src/pager/mod.rs:1365-1411 | without free pages it adds a zeroed page behind the last, until there are no more numbers |
| PageChanges.GiveIsPush | src/pager/mod.rs:1448-1489 | freeing puts the page on top of the freelist in the pages; only it and free pages change |
| Eviction.EvictedSize | src/pager/mod.rs:968-1001 | eviction ends exactly at the capacity when every page but the first may go |
| Eviction.OldestGoFirst | src/pager/mod.rs:968-1001 | a page is dropped only if all pages used less recently are, those the transaction has changed left aside; no more are dropped than asked for, and fewer only if none is left that may go |
| Transactions.PageStore.EvictIfNeeded | src/pager/mod.rs:968-1001 | exactly the dropped pages that are neither in the log nor in the file are lost; nothing changes if and only if there are none, as in a file |
| Transactions.PageStore.ReadPage | src/pager/mod.rs:1030-1094 | cache, log, then file; refused exactly for pages that cannot be read and storage to be reopened; the page becomes the most recently used, and what loading drives out of the cache is accounted for |
| Transactions.PageStore.WritePage | src/pager/mod.rs:1187-1274 | a page written in a transaction: only the present changes; refused exactly for a wrong size, an unknown page or a page that cannot be read |
| Transactions.PageStore.AllocatePage | src/pager/mod.rs:1317-1417 | the page the freelist in the pages gives, or a new one, in a transaction: only the present changes |
| Transactions.PageStore.FreePage | src/pager/mod.rs:1448-1489 | a page listed in a transaction: only the present changes |
| Transactions.PageStore.Begin | src/pager/mod.rs:1549-1570 | refused within a transaction and on storage to be reopened; else the present becomes the start |
| Transactions.PageStore.Checkpoint | src/pager/wal.rs:534-628 | done exactly if storage works, and there is nothing to do or nothing fails: then the log is in the file, or the cache, and empty; storage has to be reopened exactly if emptying the log failed; the same can be read as before, whether it is done or fails |
| Transactions.PageStore.Maintain | src/pager/mod.rs:1635-1647 | after a commit: a checkpoint exactly when the log has reached the threshold, whose failure does not undo the commit, and a smaller cache |
| Transactions.PageStore.StorageIsCurrent | src/pager/mod.rs:1573-1648 | outside transactions what is stored never differs from the database, and a file has all of it but perhaps the first page |
| Transactions.PageStore.CommitTransaction | src/pager/mod.rs:1573-1648 | the present becomes the committed database and is added to what is stored, but for exactly the pages that the checkpoint and eviction at the end leave neither cached nor stored, of which a file has none; afterwards storage has to be reopened exactly if the log of a file reached the threshold and could not be emptied; if writing fails nothing has changed, and storage works again exactly if the log could be cut back |
| Transactions.PageStore.RollbackTransaction | src/pager/mod.rs:1651-1677 | the database is again what it was at the start, also when truncating the log fails |
| Transactions.PageStore.CreateSavepoint | src/pager/mod.rs:1680-1695 | remembers the present under a name, beginning a transaction if there is none |
| Transactions.PageStore.RollbackToSavepoint | src/pager/mod.rs:1708-1739 | the database is again what it was at the newest savepoint of that name, which is kept; older savepoints and the start stay |
| Transactions.PageStore.ReleaseSavepoint | src/pager/mod.rs:1742-1759 | that savepoint and all newer ones are forgotten, nothing else changes |
| Transactions.PageStore.AtomicStatement | src/sql/executor.rs:1225-1264 | a statement, alone or inside a transaction: all its changes, or none; on a file it succeeds exactly when its changes can be made, are accepted and are written; refused while storage works, it leaves it working; storage has to be reopened exactly when cutting back or emptying the log failed |
| Transactions.OpenThenCommitNothing | src/pager/mod.rs:595-665 | more than 256 pages opened from bytes: committing an empty transaction leaves 256 that can be read |
| Iot.IotTables.ImportCapsule | src/iot.rs:89-208 | checks, memory update and head update as one step that a refusal leaves undone |
| Iot.ImportStep | src/iot.rs:128-153 | refused and replayed frames change nothing; an applied frame moves one head strictly forward |
| Iot.ImportExact | src/iot.rs:89-208 | accepted exactly when the frame is acceptable and its source is new, behind, or where this frame took it; the receipt names source, sequence, deletion, and whether it was applied; every error |
| Iot.AnswersAfter | src/iot.rs:128-153 | once a frame was taken, and whatever came since that does not overtake it: the same frame is answered as a replay, a lower sequence or another frame of the same sequence is refused, a larger sequence is applied |
| Iot.DeliveryAnswers | src/iot.rs:66-72 | in a consistent delivery a frame is accepted exactly when none of its source overtook it, and applied exactly when it had not been delivered before |
| Iot.DeliveryReflects | src/iot.rs:89-208 | the tables hold the newest acceptable frame of every source and nothing else |
| Iot.DeliveryConverges | src/iot.rs:66-72 | any order of delivery, with any repetitions, ends in the same tables |
| Bm25.Bm25Index.IndexDocument | src/memory/bm25.rs:72-103 | indexing or re-indexing keeps the index exact for the live documents, older saved states included, and records the document's terms |
| Bm25.Bm25Index.RemoveDocument | src/memory/bm25.rs:106-131 | removal keeps the index exact, by the recorded terms or by a full sweep; the document's terms are forgotten |
| Bm25.Bm25Index.AvgDocLength | src/memory/bm25.rs:139-147 | total length over number of documents, from the saved total or recomputed |
| Bm25.Maintain | src/memory/bm25.rs:72-131 | any history of changes ends with the index of the documents left |
| Bm25.Rebuild | src/memory/bm25.rs:50-103 | indexing the live documents in any order gives an exact index |
| Bm25.RebuiltIsSame | src/memory/bm25.rs:72-131 | an index however maintained equals a rebuilt one: lengths, total, terms, postings as multisets |
| Bm25Search.OneMoreTerm | src/memory/bm25.rs:191-216 | scoring one posting list adds that term's contribution for every admitted live document |
| Bm25Search.ScoreAll | src/memory/bm25.rs:186-217 | the score table holds every admitted document with a query term, scored once per distinct term |
| Bm25Search.UniquesOnce | src/memory/bm25.rs:189-194 | repeated query words count once |
| Bm25Search.SearchWhere | src/memory/bm25.rs:172-228 | the result is the k best of those scores, or all, by descending score and ascending id; every result is live, allowed, accepted and has a query word |
| Ranking.BestUnique | src/memory/bm25.rs:219-227 | there is only one such list |
| Ranking.SelectedThenSorted | src/memory/bm25.rs:219-227 | selecting the k best, cutting and sorting gives what sorting everything and cutting gives |
| Traversal.StepOnce | src/graph/chain.rs:198-228 | the loops with their visited set compute the next frontier |
| Traversal.NextExact | src/graph/chain.rs:198-228 | it has exactly one candidate for each distinct triple of a frontier node, a neighbour and the id of an admitted edge between them, with the path of the first frontier entry at that node and the first such edge |
| Traversal.ResolveCandidates | src/graph/chain.rs:182-252 | the loop over the steps, with its early end, computes the candidates |
| Traversal.CandidatesLed | src/graph/chain.rs:182-252 | every candidate is a walk over all steps and passes the filters; every end point of such a walk is a candidate |
| Traversal.CandidatesExact | src/graph/chain.rs:182-252 | there are exactly as many candidates as last hops that some walk over the other steps can go on with and whose end passes the filters, one for each |
| Traversal.CollectIds | src/graph/chain.rs:524-531 | the ids are, without repetition, exactly the filtered nodes some walk leads to |
| Traversal.PushBounded | src/graph/chain.rs:303-306 | pushing one candidate and evicting the worst beyond k keeps k candidates, none worse than one dropped, by score and then id |
| Traversal.ScoreCandidates | src/graph/chain.rs:288-308 | the loop keeps the k best of the candidates that have a vector of the query's length |
| Traversal.VectorNear | src/graph/chain.rs:272-326 | the results are k candidates that can be compared, or all of them if there are fewer, best first, none worse than one left out; so they are filtered walks with their own scores, and every comparable end point is listed, or there are k results and none is worse than it |

## Left out

- Page 1 as the root of a tree: the right-append split is skipped there and its buffer carries the database header. Page operations are proved for page 1, tree operations for other roots.
- Page sizes that do not hold two of the largest leaf cells (below 2130 bytes): stated as `MIN_PAGE`.
- Pager internals: encryption, compression, recovery, page-id arithmetic on disk and the frames of the write-ahead log. The tree is proved over a pager without cache and log, `Paging`; `Transactions` has those.
- I/O errors inside B+Tree operations, and running out of page ids, which is the precondition on `Room`.
- Malformed pages: single reads report them as errors; the tree operations are proved on well-formed pages. An index out of range, where the code would panic, is an error in the model.
- `usize` overflow when a corrupt varint announces a huge payload.
- Errors returned by scan callbacks; a callback is a function of all it has received that says whether it wants more.
- What a search or a deletion makes of the freed chain of an old row that had more than one overflow page, or in a database of more than 65536 pages: the pages it follows belong to others or to the freelist by then, and what they hold decides.
- Random-order insertion on the unchanged interior step: not satisfied by the code, see `InsertTheorems.InsertExact`.
- SQL, catalog, HNSW, the memory engine, CLI, HTTP and bindings.
- CSR: incoming rows (the same loop with sources), labels, weights, edge ids and serialization; `has_edge`, a library binary search on the sorted slice.
- Sessions and transactions: what the executor caches beside the pages. After a rollback whose log could not be truncated the pages are as before the transaction and every statement is refused in the model; reads served from cached pages and a stale catalog are not modelled. A ROLLBACK TO that fails does so at the newest savepoint; a failure to reload the catalog afterwards is left out.
- Transactions: writes outside a transaction (every data-changing statement runs in one), the commit counter, the header bytes inside page 1 and the order of frames in the log.
- Pagers over remote storage: a page write bypasses the logs there, and a page dropped from the cache is read from the remote copy.
- Sessions: time. A waiting access is a later access; timeouts only decide whether it happens. Interference by clones of the same session inside `transaction`, and a callback that closes the session, are not modelled.
- IoT: the capsule decoder, SHA-256, UTF-8 checking, embeddings and tags; `headId` and `digest` are arbitrary functions.
- BM25: tokenization, floating-point rounding and the formula of a term's weight; any weight function of the same inputs is allowed. Rank fusion.
- Graph traversal: the engine behind `neighbor_refs`; similarity measures are any function of two vectors; the order of equal scores, which depends on the heap; `max_hops`, which the code never reads.
