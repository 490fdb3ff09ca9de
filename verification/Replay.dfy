// Whole runs of operations on pages: every answer is the one a finite map would give, and the
// pages of the tree are accounted for throughout.
module Replay {
  import opened Bytes
  import opened Cells
  import opened Paging
  import opened OverflowChains
  import opened TreeModel
  import opened TreeInvariant
  import opened TreeInsertion
  import opened InsertTheorems
  import opened StoredTrees
  import opened LeafNodes
  import opened LeafInsertion
  import opened BTreeInsert
  import opened RootInsertion
  import opened BTreeRead
  import opened Runs
  import D = BTreeDelete

  // The tree kept its root; pages in use changed by exactly what the tree gave up and took, and
  // nothing else was touched.
  ghost predicate Keeps(pages: PageMap, used: set<PageId>, pages': PageMap, used': set<PageId>, s: Stored, s': Stored) {
    && s'.id == s.id
    && Owned(s') !! used - Owned(s)
    && used' == used - Owned(s) + Owned(s')
    && Agree(pages, pages', used - Owned(s))
  }

  lemma KeepsTransitive(pages: PageMap, used: set<PageId>, pages1: PageMap, used1: set<PageId>, pages2: PageMap,
                        used2: set<PageId>, s: Stored, s1: Stored, s2: Stored)
    requires Keeps(pages, used, pages1, used1, s, s1) && Keeps(pages1, used1, pages2, used2, s1, s2)
    requires Owned(s) <= used && used <= pages.Keys
    ensures Keeps(pages, used, pages2, used2, s, s2)
  {
    hide Owned;
    assert used1 - Owned(s1) == used - Owned(s);
  }

  lemma KeepsSelf(pages: PageMap, used: set<PageId>, s: Stored)
    requires Owned(s) <= used
    ensures Keeps(pages, used, pages, used, s, s)
  {
    hide Owned;
  }

  lemma InsertKeeps(pages: PageMap, used: set<PageId>, pages': PageMap, used': set<PageId>, s: Stored, r: Row,
                    s': Stored, h: nat, pageSize: nat)
    requires TreeReady(pages, used, s, h, pageSize) && pageSize >= MIN_PAGE && Shaped(Value(s))
    requires Inserts(pages, used, pages', used', s, r, s', pageSize) && Clean(Value(s), r, pageSize)
    ensures var h' := if InsertInto(Value(s), r, pageSize, AsCoded).Split? then h + 1 else h;
            TreeReady(pages', used', s', h', pageSize)
    ensures Keeps(pages, used, pages', used', s, s')
    ensures MapOf(Rows(Value(s'))) == MapOf(Rows(Value(s)))[r.key := r.value]
  {
    hide WellFormed, OnPages, Spilled, Separate, Owned, Value, Dangles, Takes, SplitsMiddle, InsertInto,
         TreeModel.Insert, MapOf, Rows, PutRow;
    TreeReadyFacts(pages, used, s, h, pageSize);
    CleanDoesNotDangle(Value(s), r, pageSize);
    InsertCorrect(Value(s), r, -1, LAST_KEY, h, pageSize, AsCoded);
  }

  lemma DeleteKeeps(pages: PageMap, used: set<PageId>, pages': PageMap, used': set<PageId>, s: Stored, s': Stored,
                    c: Chain, pageSize: nat)
    requires D.Deletes(pages, used, pages', used', s, s', c, pageSize) && Owned(s) <= used
    ensures Keeps(pages, used, pages', used', s, s')
  {
    hide OnPages, Spilled, Separate, Owned, Ids;
  }

  // From one tree to the next; where a row's overflow goes is left open.
  ghost predicate StepTo(t: Tree, op: Op, t': Tree, page: nat)
    requires Shaped(t) && page >= MIN_PAGE
  {
    match op
    case Put(key, value) => exists spill: Chain :: t' == TreeModel.Insert(t, Row(key, value, spill), page, AsCoded)
    case Remove(key) => t' == Delete(t, key)
    case Find(_) => t' == t
    case List => t' == t
  }

  lemma HarmlessStep(t: Tree, ops: seq<Op>, t': Tree, page: nat)
    requires Shaped(t) && page >= MIN_PAGE && ops != [] && HarmlessRun(t, ops, page) && StepTo(t, ops[0], t', page)
    ensures Shaped(t') && HarmlessRun(t', ops[1..], page)
    ensures CleanOp(t, ops[0], page)
  {
    hide Clean, TreeModel.Insert, Delete, Shaped;
    match ops[0]
    case Put(key, value) =>
      var spill: Chain :| t' == TreeModel.Insert(t, Row(key, value, spill), page, AsCoded);
      assert Clean(t, Row(key, value, spill), page);
      InsertShaped(t, Row(key, value, spill), page, AsCoded);
    case Remove(key) => DeleteShaped(t, key);
    case Find(_) =>
    case List =>
  }

  ghost predicate CleanOp(t: Tree, op: Op, page: nat)
    requires Shaped(t) && page >= MIN_PAGE
  {
    op.Put? ==> forall spill: Chain :: Clean(t, Row(op.key, op.value, spill), page)
  }

  lemma HarmlessNow(t: Tree, ops: seq<Op>, page: nat)
    requires Shaped(t) && page >= MIN_PAGE && ops != [] && HarmlessRun(t, ops, page)
    ensures CleanOp(t, ops[0], page)
  {
    hide Clean, TreeModel.Insert, Delete, Shaped;
  }

  // Pages an operation, or a run, may need.
  function PagesForOp(op: Op, h: nat, pageSize: nat): nat
    requires pageSize >= MIN_PAGE
  {
    if op.Put? then PagesToInsert(op.value, h, pageSize) else 0
  }

  function PagesForRun(ops: seq<Op>, h: nat, pageSize: nat): nat
    requires pageSize >= MIN_PAGE
  {
    if ops == [] then 0 else PagesForOp(ops[0], h, pageSize) + PagesForRun(ops[1..], h + 1, pageSize)
  }

  lemma {:induction false} LowerTreeNeedsLess(ops: seq<Op>, h: nat, h': nat, pageSize: nat)
    requires pageSize >= MIN_PAGE && h <= h'
    ensures PagesForRun(ops, h, pageSize) <= PagesForRun(ops, h', pageSize)
  {
    hide PagesFor;
    if ops != [] {
      LowerTreeNeedsLess(ops[1..], h + 1, h' + 1, pageSize);
    }
  }

  // A new table: an empty leaf on a fresh page.
  method CreateTree(pager: Pager) returns (rootPage: PageId, ghost s: Stored)
    requires pager.Valid() && pager.Room() > 0 && MIN_PAGE <= pager.pageSize
    modifies pager
    ensures pager.Valid() && pager.Room() == old(pager.Room()) - 1
    ensures s == StoredLeaf(rootPage, [], 0) && WellFormed(Value(s), -1, -1, 0, pager.pageSize)
    ensures TreeReady(pager.pages, pager.InUse(), s, 0, pager.pageSize)
    ensures rootPage !in old(pager.InUse()) && pager.InUse() == old(pager.InUse()) + {rootPage}
    ensures Agree(old(pager.pages), pager.pages, old(pager.InUse()))
  {
    hide Pager.Valid, Pager.InUse, Pager.Room, LeafImage;
    NothingFilledIn(pager.pageSize);
    assert CellsOf([]) == [];
    rootPage := AddLeafPage(pager, [], []);
    s := StoredLeaf(rootPage, [], 0);
    EmptyIsReady(pager.pages, pager.InUse(), s, pager.pageSize);
  }

  lemma EmptyIsReady(pages: PageMap, used: set<PageId>, s: Stored, pageSize: nat)
    requires s.StoredLeaf? && s.rows == [] && s.used == 0 && s.id in used && MIN_PAGE <= pageSize
    requires LeafAt(pages, s.id, Leaf([], 0), pageSize)
    ensures TreeReady(pages, used, s, 0, pageSize) && WellFormed(Value(s), -1, -1, 0, pageSize)
  {
    hide OnPages, LeafAt;
    LeafAtIsOnPages(pages, s, pageSize);
    NoCellBytes();
  }

  // One operation.
  method Apply(pager: Pager, rootPage: PageId, op: Op, ghost s: Stored, ghost h: nat)
    returns (answer: Answer, ghost s': Stored, ghost h': nat)
    requires pager.Valid() && s.id == rootPage && TreeReady(pager.pages, pager.InUse(), s, h, pager.pageSize)
    requires pager.pageSize >= MIN_PAGE && Shaped(Value(s)) && CleanOp(Value(s), op, pager.pageSize)
    requires pager.Room() >= PagesForOp(op, h, pager.pageSize)
    modifies pager
    ensures pager.Valid() && pager.Room() >= old(pager.Room()) - PagesForOp(op, h, pager.pageSize)
    ensures TreeReady(pager.pages, pager.InUse(), s', h', pager.pageSize) && h' <= h + 1
    ensures Keeps(old(pager.pages), old(pager.InUse()), pager.pages, pager.InUse(), s, s')
    ensures StepTo(Value(s), op, Value(s'), pager.pageSize)
    ensures Answers(MapOf(Rows(Value(s))), op, answer)
    ensures MapOf(Rows(Value(s'))) == Updated(MapOf(Rows(Value(s))), op)
  {
    hide Pager.Valid, Pager.InUse, Pager.Room, TreeReady, Keeps, Value, MapOf, Rows, Shaped, PagesToInsert, Clean,
         WellFormed, InsertInto, TreeModel.Insert, TreeModel.Delete, Lists, Items, Lookup, Searchable, OnPages,
         Spilled, Owned;
    ghost var pages, used, pageSize := pager.pages, pager.InUse(), pager.pageSize;
    TreeReadyFacts(pages, used, s, h, pageSize);
    WellFormedIsSearchable(Value(s), -1, LAST_KEY, h, pageSize);
    KeepsSelf(pages, used, s);
    s', h' := s, h;
    match op {
      case Put(key, value) =>
        ghost var r;
        r, s' := RootInsertion.Insert(pager, rootPage, key, value, s, h);
        assert Clean(Value(s), Row(key, value, r.spill), pageSize);
        h' := if InsertInto(Value(s), r, pageSize, AsCoded).Split? then h + 1 else h;
        InsertKeeps(pages, used, pager.pages, pager.InUse(), s, r, s', h, pageSize);
        answer := Done;
      case Remove(key) =>
        var found := D.Delete(pager, rootPage, key, s, h);
        s' := D.Deleted(s, key);
        D.DeletedValue(s, key);
        DeleteKeeps(pages, used, pager.pages, pager.InUse(), s, s', Gone(s, key), pageSize);
        answer := Removed(found);
      case Find(key) =>
        var found := Search(pager, rootPage, key, s);
        LookupFindsScan(Value(s), -1, LAST_KEY, h, pageSize, key);
        answer := Found(found.value);
      case List =>
        var items := Scan(pager, rootPage, s);
        RowsBetween(Value(s), -1, LAST_KEY, h, pageSize);
        RowsList(Rows(Value(s)), -1, LAST_KEY);
        answer := Listed(items);
    }
  }

  // A whole run: answered as by a map, the tree ready again at its old root, the pages accounted for.
  method Run(pager: Pager, rootPage: PageId, ops: seq<Op>, ghost s: Stored, ghost h: nat)
    returns (answers: seq<Answer>, ghost s': Stored, ghost h': nat)
    requires pager.Valid() && s.id == rootPage && TreeReady(pager.pages, pager.InUse(), s, h, pager.pageSize)
    requires pager.pageSize >= MIN_PAGE && Shaped(Value(s)) && HarmlessRun(Value(s), ops, pager.pageSize)
    requires pager.Room() >= PagesForRun(ops, h, pager.pageSize)
    modifies pager
    ensures pager.Valid() && TreeReady(pager.pages, pager.InUse(), s', h', pager.pageSize)
    ensures Keeps(old(pager.pages), old(pager.InUse()), pager.pages, pager.InUse(), s, s')
    ensures AnswersRun(MapOf(Rows(Value(s))), ops, answers, MapOf(Rows(Value(s'))))
    decreases |ops|
  {
    hide Pager.Valid, Pager.InUse, Pager.Room, TreeReady, Keeps, Value, MapOf, Rows, Shaped, PagesForOp, CleanOp,
         StepTo, HarmlessRun, Answers, Updated, Owned, WellFormed;
    ghost var pages, used, pageSize := pager.pages, pager.InUse(), pager.pageSize;
    TreeReadyFacts(pages, used, s, h, pageSize);
    pager.ValidFacts();
    if |ops| == 0 {
      KeepsSelf(pages, used, s);
      return [], s, h;
    }
    HarmlessNow(Value(s), ops, pageSize);
    var answer, more;
    ghost var s1, h1;
    answer, s1, h1 := Apply(pager, rootPage, ops[0], s, h);
    ghost var pages1, used1 := pager.pages, pager.InUse();
    HarmlessStep(Value(s), ops, Value(s1), pageSize);
    LowerTreeNeedsLess(ops[1..], h1, h + 1, pageSize);
    KeepsRoot(pages, used, pages1, used1, s, s1);
    more, s', h' := Run(pager, rootPage, ops[1..], s1, h1);
    KeepsTransitive(pages, used, pages1, used1, pager.pages, pager.InUse(), s, s1, s');
    answers := [answer] + more;
  }

  lemma KeepsRoot(pages: PageMap, used: set<PageId>, pages': PageMap, used': set<PageId>, s: Stored, s': Stored)
    requires Keeps(pages, used, pages', used', s, s')
    ensures s'.id == s.id
  {
    hide Owned;
  }

  // Runs of puts with ever-larger keys, interleaved with any deletions, searches and scans.
  method RunEverLarger(pager: Pager, rootPage: PageId, ops: seq<Op>, ghost s: Stored, ghost h: nat, ghost top: int)
    returns (answers: seq<Answer>, ghost s': Stored, ghost h': nat)
    requires pager.Valid() && s.id == rootPage && TreeReady(pager.pages, pager.InUse(), s, h, pager.pageSize)
    requires -1 <= top && WellFormed(Value(s), -1, top, h, pager.pageSize) && EverLarger(ops, top)
    requires pager.pageSize >= MIN_PAGE && pager.Room() >= PagesForRun(ops, h, pager.pageSize)
    modifies pager
    ensures pager.Valid() && TreeReady(pager.pages, pager.InUse(), s', h', pager.pageSize)
    ensures Keeps(old(pager.pages), old(pager.InUse()), pager.pages, pager.InUse(), s, s')
    ensures AnswersRun(MapOf(Rows(Value(s))), ops, answers, MapOf(Rows(Value(s'))))
  {
    hide Pager.Valid, Pager.InUse, Pager.Room, TreeReady, Keeps, Value, MapOf, Rows, PagesForRun, AnswersRun,
         HarmlessRun, WellFormed, EverLarger;
    WellFormedIsShaped(Value(s), -1, top, h, pager.pageSize);
    EverLargerIsHarmless(Value(s), ops, top, h, pager.pageSize);
    answers, s', h' := Run(pager, rootPage, ops, s, h);
  }

  // From nothing: a new pager, a new table, and a run of puts with ever-larger keys, interleaved
  // with any deletions, searches and scans, answered as by an empty map.
  method RunFromScratch(pageSize: nat, ops: seq<Op>) returns (answers: seq<Answer>, ghost m: map<u64, Payload>)
    requires MIN_PAGE <= pageSize < 0x1_0000 && EverLarger(ops, -1)
    requires PagesForRun(ops, 0, pageSize) + 2 <= LAST_PAGE
    ensures AnswersRun(map[], ops, answers, m)
  {
    hide Pager.Valid, PagesForRun, AnswersRun, EverLarger, TreeReady, Keeps;
    var pager := new Pager(pageSize);
    var rootPage;
    ghost var s, s', h';
    rootPage, s := CreateTree(pager);
    answers, s', h' := RunEverLarger(pager, rootPage, ops, s, 0, -1);
    m := MapOf(Rows(Value(s')));
  }
}
