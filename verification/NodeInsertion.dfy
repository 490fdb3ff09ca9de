// Giving a stored interior node the entry for a kid that was split, splitting the node
// itself when the entry does not fit.
module NodeInsertion {
  import opened Wrappers
  import opened Bytes
  import opened Cells
  import opened Keyed
  import opened Pages
  import opened Paging
  import opened TreeModel
  import opened TreeInvariant
  import opened TreeSizes
  import opened TreeInsertion
  import opened InsertTheorems
  import opened StoredTrees
  import opened LeafInsertion
  import opened InteriorNodes
  import opened NodeSteps

  // The node, or the two nodes, after kid i became left and right around sep.
  function NodeOutcome(s: Stored, i: nat, left: Stored, right: Stored, sep: u64, rightId: PageId, page: nat)
    : (o: StoredOutcome)
    requires s.StoredNode? && |s.kids| == |s.seps| + 1 && i <= |s.seps|
    ensures o.tree.StoredNode? && o.tree.id == s.id && |o.tree.kids| == |o.tree.seps| + 1
    ensures o.TwoTrees? <==> !NodeFits(s.seps, sep, page)
    ensures o.TwoTrees? ==> o.right.StoredNode? && o.right.id == rightId && |o.right.kids| == |o.right.seps| + 1
  {
    var (kids', seps') := Grown(s.kids, s.seps, i, left, right, sep, AsCoded);
    if NodeFits(s.seps, sep, page) then OneTree(StoredNode(s.id, kids', seps'))
    else
      var mid := |seps'| / 2;
      var (lk, ls) := FilledEntries(kids'[..mid], seps'[..mid], kids'[mid], page);
      var (rk, rs) := FilledEntries(kids'[mid + 1..|seps'|], seps'[mid + 1..], kids'[|seps'|], page);
      TwoTrees(StoredNode(s.id, lk, ls), StoredNode(rightId, rk, rs), seps'[mid])
  }

  lemma NodeOutcomeValue(s: Stored, i: nat, left: Stored, right: Stored, sep: u64, rightId: PageId, page: nat)
    requires s.StoredNode? && |s.kids| == |s.seps| + 1 && i <= |s.seps|
    ensures ValueOf(NodeOutcome(s, i, left, right, sep, rightId, page))
         == NodeStep(Values(s.kids), s.seps, i, Value(left), Value(right), sep, page, AsCoded)
  {
    hide Grown, FilledEntries, NodeFits, Value, Values;
    var o := NodeOutcome(s, i, left, right, sep, rightId, page);
    ValuesGrown(s.kids, s.seps, i, left, right, sep);
    ValueOfNode(o.tree);
    if o.TwoTrees? {
      var (kids', seps') := Grown(s.kids, s.seps, i, left, right, sep, AsCoded);
      var mid := |seps'| / 2;
      ValuesFilled(kids'[..mid], seps'[..mid], kids'[mid], page);
      ValuesFilled(kids'[mid + 1..|seps'|], seps'[mid + 1..], kids'[|seps'|], page);
      ValuesParts(kids', mid);
      ValueOfNode(o.right);
    }
  }

  lemma ValuesParts(kids: seq<Stored>, mid: nat)
    requires mid + 1 < |kids|
    ensures var n := |kids| - 1; var vs := Values(kids);
            && Values(kids[..mid]) == vs[..mid] && Values(kids[mid + 1..n]) == vs[mid + 1..n]
            && Value(kids[mid]) == vs[mid] && Value(kids[n]) == vs[n]
  {
    hide Value;
  }

  lemma {:induction false} FilledEntriesMembers<T>(kids: seq<T>, seps: seq<u64>, right: T, page: nat, x: T)
    requires |kids| == |seps| && x in FilledEntries(kids, seps, right, page).0
    ensures x == right || x in kids
  {
    hide NodeFits, Above;
    if seps != [] {
      var n := |seps| - 1;
      var (kids', seps') := FilledEntries(kids[..n], seps[..n], right, page);
      if x in kids' {
        FilledEntriesMembers(kids[..n], seps[..n], right, page, x);
      }
    }
  }

  lemma GrownMembers(s: Stored, i: nat, left: Stored, right: Stored, sep: u64, m: Stored)
    requires s.StoredNode? && |s.kids| == |s.seps| + 1 && i <= |s.seps|
    requires m in Grown(s.kids, s.seps, i, left, right, sep, AsCoded).0
    ensures KnownKid(s, i, TwoTrees(left, right, sep), m)
  {
    hide Above;
    var relinked := if i == |s.seps| then s.kids[i := right] else s.kids[i := left];
    if m != left && m != right {
      assert m in relinked;
      var k :| 0 <= k < |relinked| && relinked[k] == m;
    }
  }

  lemma OutcomeKids(s: Stored, i: nat, left: Stored, right: Stored, sep: u64, rightId: PageId, page: nat, m: Stored)
    requires s.StoredNode? && |s.kids| == |s.seps| + 1 && i <= |s.seps|
    requires var o := NodeOutcome(s, i, left, right, sep, rightId, page);
             m in o.tree.kids || (o.TwoTrees? && m in o.right.kids)
    ensures KnownKid(s, i, TwoTrees(left, right, sep), m)
  {
    hide Grown, FilledEntries, NodeFits, KnownKid;
    var o := NodeOutcome(s, i, left, right, sep, rightId, page);
    var (kids', seps') := Grown(s.kids, s.seps, i, left, right, sep, AsCoded);
    if o.TwoTrees? {
      var mid := |seps'| / 2;
      if m in o.tree.kids {
        FilledEntriesMembers(kids'[..mid], seps'[..mid], kids'[mid], page, m);
      } else {
        FilledEntriesMembers(kids'[mid + 1..|seps'|], seps'[mid + 1..], kids'[|seps'|], page, m);
      }
    }
    assert m in kids';
    GrownMembers(s, i, left, right, sep, m);
  }

  // When the right child was split, the outcome has all kids, each once, in order.
  lemma RightOutcome(s: Stored, left: Stored, right: Stored, sep: u64, rightId: PageId, page: nat, lo: int)
    requires s.StoredNode? && |s.kids| == |s.seps| + 1 && Ascending(s.seps) && SepsFitAlone(s.seps, page) && page >= 100
    requires Lower(s.seps, lo, |s.seps|) < sep
    ensures var o := NodeOutcome(s, |s.seps|, left, right, sep, rightId, page);
            var kids := Divided(s.kids, |s.seps|, left, right);
            match o
            case OneTree(node) => node.kids == kids
            case TwoTrees(a, b, _) => exists m :: 0 <= m <= |kids| && a.kids == kids[..m] && b.kids == kids[m..]
  {
    hide Grown, FilledEntries, NodeFits, Ascending, SepsFitAlone;
    var n := |s.seps|;
    CodedRight(s.kids, s.seps, lo, left, right, sep);
    if !NodeFits(s.seps, sep, page) {
      var (kids', seps') := Grown(s.kids, s.seps, n, left, right, sep, AsCoded);
      var mid := |seps'| / 2;
      GrownSeparators(s, n, left, right, sep);
      InteriorHalvesFit(s.seps, Above(s.seps, sep), sep, page);
      JoinedNotDescending(s.seps, sep);
      DividedEntries(kids', seps', mid, page);
      assert mid + 1 <= |kids'|;
    }
  }

  lemma GrownSeparators(s: Stored, i: nat, left: Stored, right: Stored, sep: u64)
    requires s.StoredNode? && |s.kids| == |s.seps| + 1 && i <= |s.seps|
    ensures Grown(s.kids, s.seps, i, left, right, sep, AsCoded).1 == Inserted(s.seps, Above(s.seps, sep), sep)
  {
    hide Above;
  }

  // ---- pages ----

  lemma SameIds(b: seq<byte>, id: PageId, kids: seq<Stored>, seps: seq<u64>, i: nat, kid: Stored)
    requires NodeImage(b, id, kids, seps) && i < |kids| && kid.id == kids[i].id
    ensures NodeImage(b, id, kids[i := kid], seps)
  {
    hide InteriorPage, SeparatorBytes;
    assert EntriesOf(kids[i := kid], seps) == EntriesOf(kids, seps);
  }

  lemma GrownEntries(kids: seq<Stored>, seps: seq<u64>, i: nat, left: Stored, right: Stored, sep: u64)
    requires |kids| == |seps| + 1 && i <= |seps| && left.id == kids[i].id && Ascending(seps)
    ensures var (kids', seps') := Grown(kids, seps, i, left, right, sep, AsCoded);
            && SortedByKey(EntriesOf(kids, seps) + [InteriorCell(left.id, sep)], (c: InteriorCell) => c.rowId)
               == EntriesOf(kids', seps')
            && kids'[|seps'|].id == if i == |seps| then right.id else kids[|seps|].id
  {
    hide Above, SortedByKey;
    var key := (c: InteriorCell) => c.rowId;
    var relinked := if i == |seps| then kids[i := right] else kids[i := left];
    assert EntriesOf(relinked, seps) == EntriesOf(kids, seps);
    assert KeysOf(EntriesOf(kids, seps), key) == seps;
    assert Separators(EntriesOf(kids, seps)) == seps;
    PushAndSort(EntriesOf(kids, seps), key, InteriorCell(left.id, sep));
    EntriesJoined(relinked, seps, left, sep);
  }

  lemma EntryParts(kids: seq<Stored>, seps: seq<u64>, mid: nat)
    requires |kids| == |seps| + 1 && mid < |seps|
    ensures var cells := EntriesOf(kids, seps);
            && cells[..mid] == EntriesOf(kids[..mid], seps[..mid])
            && cells[mid + 1..] == EntriesOf(kids[mid + 1..|seps|], seps[mid + 1..])
            && cells[mid] == InteriorCell(kids[mid].id, seps[mid])
  {
  }

  method ReadEntries(b: seq<byte>, id: PageId, numCells: u16, ghost kids: seq<Stored>, ghost seps: seq<u64>)
    returns (cells: seq<InteriorCell>)
    requires NodeImage(b, id, kids, seps) && numCells == |seps|
    ensures |kids| == |seps| + 1 && cells == EntriesOf(kids, seps)
  {
    hide NodeImage, ReadInteriorCell;
    NodeRead(b, id, kids, seps);
    cells := [];
    for i := 0 to numCells
      invariant |cells| == i && forall j :: 0 <= j < i ==> cells[j] == InteriorCell(kids[j].id, seps[j])
    {
      cells := cells + [ReadInteriorCell(b, id, i).value];
    }
  }

  // A newly allocated page filled with entries.
  method AddNodePage(pager: Pager, cells: seq<InteriorCell>, right: PageId, ghost kids: seq<Stored>,
                     ghost seps: seq<u64>, ghost rightKid: Stored)
    returns (id: PageId)
    requires pager.Valid() && pager.Room() > 0 && MIN_PAGE <= pager.pageSize
    requires |kids| == |seps| && cells == EntriesOf(kids, seps) && right == rightKid.id
    modifies pager
    ensures pager.Valid() && pager.Room() == old(pager.Room()) - 1
    ensures id !in old(pager.InUse()) && id > 1 && pager.InUse() == old(pager.InUse()) + {id}
    ensures Agree(old(pager.pages), pager.pages, old(pager.InUse()))
    ensures var (kids', seps') := FilledEntries(kids, seps, rightKid, pager.pageSize);
            NodeAt(pager.pages, id, kids', seps', pager.pageSize)
  {
    hide NodeImage, FilledEntries, Pager.Valid, Pager.InUse, Pager.Room, EntriesOf;
    pager.ValidFacts();
    id := pager.AllocatePage();
    var buf := BuildInteriorPage(pager.pageSize, id, cells, right, kids, seps, rightKid);
    pager.ValidFacts();
    var written := pager.WritePage(id, buf);
  }

  // An existing page filled anew.
  method RewriteNodePage(pager: Pager, id: PageId, cells: seq<InteriorCell>, right: PageId,
                         ghost kids: seq<Stored>, ghost seps: seq<u64>, ghost rightKid: Stored)
    requires pager.Valid() && MIN_PAGE <= pager.pageSize && id > 1 && id in pager.InUse()
    requires |kids| == |seps| && cells == EntriesOf(kids, seps) && right == rightKid.id
    modifies pager
    ensures pager.Valid() && pager.Room() == old(pager.Room()) && pager.InUse() == old(pager.InUse())
    ensures pager.pages.Keys == old(pager.pages).Keys
    ensures forall x :: x in pager.pages && x != id ==> pager.pages[x] == old(pager.pages)[x]
    ensures var (kids', seps') := FilledEntries(kids, seps, rightKid, pager.pageSize);
            NodeAt(pager.pages, id, kids', seps', pager.pageSize)
  {
    hide NodeImage, FilledEntries, Pager.Valid, Pager.InUse, Pager.Room, EntriesOf;
    pager.ValidFacts();
    var buf := BuildInteriorPage(pager.pageSize, id, cells, right, kids, seps, rightKid);
    var written := pager.WritePage(id, buf);
  }

  method SplitInteriorPage(pager: Pager, leftId: PageId, leftBuf: seq<byte>, newCell: InteriorCell,
                           newRight: Option<PageId>, ghost s: Stored, ghost i: nat, ghost left: Stored,
                           ghost right: Stored)
    returns (rightId: PageId, splitKey: u64)
    requires pager.Valid() && pager.Room() > 0 && MIN_PAGE <= pager.pageSize
    requires s.StoredNode? && s.id == leftId && i < |s.kids| == |s.seps| + 1 && left.id == s.kids[i].id && Ascending(s.seps)
    requires leftId in pager.InUse() && leftId in pager.pages && pager.pages[leftId] == leftBuf
    requires NodeAt(pager.pages, leftId, s.kids, s.seps, pager.pageSize)
    requires newCell.leftChild == left.id && newRight == if i == |s.seps| then Some(right.id) else None
    requires !NodeFits(s.seps, newCell.rowId, pager.pageSize)
    modifies pager
    ensures pager.Valid() && pager.Room() == old(pager.Room()) - 1
    ensures rightId !in old(pager.InUse()) && rightId > 1 && pager.InUse() == old(pager.InUse()) + {rightId}
    ensures Agree(old(pager.pages), pager.pages, old(pager.InUse()) - {leftId})
    ensures var o := NodeOutcome(s, i, left, right, newCell.rowId, rightId, pager.pageSize);
            && splitKey == o.sep
            && NodeAt(pager.pages, leftId, o.tree.kids, o.tree.seps, pager.pageSize)
            && NodeAt(pager.pages, rightId, o.right.kids, o.right.seps, pager.pageSize)
  {
    hide NodeImage, FilledEntries, Grown, Pager.Valid, Pager.InUse, Pager.Room, EntriesOf, ReadPageHeader, NodeFits,
         SortedByKey, Ascending;
    pager.ValidFacts();
    NodeRead(leftBuf, leftId, s.kids, s.seps);
    var header := ReadPageHeader(leftBuf, leftId).value;
    var allCells := ReadEntries(leftBuf, leftId, header.numCells, s.kids, s.seps);
    allCells := SortedByKey(allCells + [newCell], (c: InteriorCell) => c.rowId);
    ghost var (kids', seps') := Grown(s.kids, s.seps, i, left, right, newCell.rowId, AsCoded);
    GrownEntries(s.kids, s.seps, i, left, right, newCell.rowId);
    var mid := |allCells| / 2;
    EntryParts(kids', seps', mid);
    splitKey := allCells[mid].rowId;
    var promotedLeftChild := allCells[mid].leftChild;
    var origRightChild := if newRight.Some? then newRight.value else header.rightChild.value;
    rightId := AddNodePage(pager, allCells[mid + 1..], origRightChild,
                           kids'[mid + 1..|seps'|], seps'[mid + 1..], kids'[|seps'|]);
    pager.ValidFacts();
    RewriteNodePage(pager, leftId, allCells[..mid], promotedLeftChild, kids'[..mid], seps'[..mid], kids'[mid]);
  }

  // modify_page with a new entry: nothing changes when it does not fit.
  method GrowNode(pager: Pager, id: PageId, cell: InteriorCell, newRight: Option<PageId>, ghost s: Stored,
                  ghost i: nat, ghost left: Stored, ghost right: Stored)
    returns (ok: bool)
    requires pager.Valid() && s.StoredNode? && s.id == id && i < |s.kids| == |s.seps| + 1 && left.id == s.kids[i].id
    requires id in pager.InUse() && NodeAt(pager.pages, id, s.kids, s.seps, pager.pageSize)
    requires cell.leftChild == left.id && newRight == if i == |s.seps| then Some(right.id) else None
    modifies pager`pages
    ensures pager.Valid() && pager.InUse() == old(pager.InUse()) && pager.Room() == old(pager.Room())
    ensures ok <==> NodeFits(s.seps, cell.rowId, pager.pageSize)
    ensures ok ==> var (kids', seps') := Grown(s.kids, s.seps, i, left, right, cell.rowId, AsCoded);
                   NodeAt(pager.pages, id, kids', seps', pager.pageSize)
    ensures !ok ==> pager.pages == old(pager.pages)
    ensures pager.pages.Keys == old(pager.pages).Keys
    ensures forall x :: x in pager.pages && x != id ==> pager.pages[x] == old(pager.pages)[x]
  {
    hide NodeImage, Above, Inserted, Pager.Valid, Pager.InUse, Pager.Room, NodeFits, ReadPageHeader, ReadInteriorCell;
    pager.ValidFacts();
    var read := pager.ReadPage(id);
    var buf := read.value;
    NodeRead(buf[..], id, s.kids, s.seps);
    SameIds(buf[..], id, s.kids, s.seps, i, left);
    ghost var kids := s.kids[i := left];
    ghost var j := Above(s.seps, cell.rowId);
    ok := InsertEntry(buf, id, cell, kids, s.seps, left);
    if ok && newRight.Some? {
      RepointRight(buf, id, newRight.value, Inserted(kids, j, left), Inserted(s.seps, j, cell.rowId), right);
      RepointedLast(s.kids, j, left, right);
    }
    var written := pager.WritePage(id, buf);
    assert !ok ==> pager.pages == old(pager.pages);
  }

  lemma RepointedLast(kids: seq<Stored>, j: nat, left: Stored, right: Stored)
    requires j < |kids|
    ensures Inserted(kids[|kids| - 1 := left], j, left)[|kids| := right] == Inserted(kids[|kids| - 1 := right], j, left)
  {
  }
}
