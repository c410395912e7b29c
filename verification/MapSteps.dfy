/** The steps of `vm_map`: descending one level, adding an absent table, and filling the last entry. */
module MapSteps {
  import opened Words
  import opened PageTable
  import opened TableUpdates
  import opened Ledger
  import opened FreeList
  import opened Space

  /** No entry that the code reads on the way to `v` maps a huge page; the code does not check. */
  ghost predicate NoHuge(mem: Mem, tables: Tables, v: Page) {
    forall d :: 1 <= d <= 2 && PathTo(v, d) in tables && tables[PathTo(v, d)] < |mem| ==>
      !mem[tables[PathTo(v, d)]][Slot(v, 3 - d)].pageSize
  }

  /** Everything of a state that the allocator and the tables live in. */
  datatype Snapshot = Snapshot(mem: Mem, freeList: nat, books: Books)

  /** Between levels: the first d tables on the path to `v` are there, and nothing else has changed. */
  ghost predicate Climbed(s0: Snapshot, s: Snapshot, root: nat, v: Page, d: nat) {
    && d <= 3 && Missing(s0.books.tables, v, d) <= |s0.books.free|
    && s.books == Grown(s0.books, v, d)
    && PathTo(v, d) in s.books.tables
    && SameWalks(s0.mem, s.mem, root)
    && NoHuge(s.mem, s.books.tables, v)
    && (s.books == s0.books ==> s == s0)
  }

  /** The entry that `vm_map` reads at this level. */
  function EntryAt(s: Snapshot, v: Page, d: nat): Word
    requires d <= 3 && PathTo(v, d) in s.books.tables && s.books.tables[PathTo(v, d)] < |s.mem|
  {
    s.mem[s.books.tables[PathTo(v, d)]][Slot(v, 3 - d)]
  }

  lemma MissingMonotone(tables: Tables, v: Page)
    ensures Missing(tables, v, 0) == 0
    ensures Missing(tables, v, 0) <= Missing(tables, v, 1) <= Missing(tables, v, 2) <= Missing(tables, v, 3)
  {
  }

  /** A path is in the tree after growing to depth d exactly when it was before, if it is deeper. */
  lemma DeeperUnchanged(s0: Snapshot, s: Snapshot, root: nat, v: Page, d: nat)
    requires Climbed(s0, s, root, v, d) && d < 3
    ensures PathTo(v, d + 1) in s.books.tables <==> PathTo(v, d + 1) in s0.books.tables
    ensures Depth(PathTo(v, d + 1)) == d + 1
  {
  }

  /** A present entry refers to the next table. */
  lemma ClimbPresent(s0: Snapshot, s: Snapshot, root: nat, hhdm: nat, v: Page, d: nat)
    requires Climbed(s0, s, root, v, d) && d < 3 && Sound(s.mem, root, hhdm, s.freeList, s.books)
    requires s.books.tables[PathTo(v, d)] < |s.mem| && EntryAt(s, v, d).present
    ensures Climbed(s0, s, root, v, d + 1)
    ensures s.books.tables[PathTo(v, d + 1)] == EntryAt(s, v, d).address
  {
    hide SameWalks, Chain, Machine, Balanced, PagesMapped;
    assert Points(EntryAt(s, v, d), d);
    assert Closed(s.mem, s.books.tables);
    assert Linked(s.mem, s.books.tables, PathTo(v, d + 1));
    DeeperUnchanged(s0, s, root, v, d);
  }

  /** An absent entry means that the page is not mapped, and was not at the start. */
  lemma AbsentFault(s: Snapshot, root: nat, v: Page, d: nat)
    requires Tree(s.mem, root, s.books.tables) && d <= 3 && PathTo(v, d) in s.books.tables
    requires s.books.tables[PathTo(v, d)] < |s.mem| && !EntryAt(s, v, d).present
    ensures Walk(s.mem, root, v).Fault?
  {
    ReachTree(s.mem, root, s.books.tables, v, d);
    assert Reach(s.mem, root, v, d + 1).Fault?;
    FaultStays(s.mem, root, v, d + 1, 4);
  }

  /** A page that translates without huge pages has all its tables. */
  lemma MappedPath(mem: Mem, root: nat, tables: Tables, v: Page)
    requires Tree(mem, root, tables) && NoHuge(mem, tables, v) && !Walk(mem, root, v).Fault?
    ensures PathTo(v, 3) in tables
  {
    PathStep(mem, root, tables, v, 0);
    PathStep(mem, root, tables, v, 1);
    PathStep(mem, root, tables, v, 2);
  }

  lemma PathStep(mem: Mem, root: nat, tables: Tables, v: Page, d: nat)
    requires Tree(mem, root, tables) && NoHuge(mem, tables, v) && !Walk(mem, root, v).Fault?
    requires d < 3 && PathTo(v, d) in tables
    ensures PathTo(v, d + 1) in tables
  {
    ReachTree(mem, root, tables, v, d);
    if Reach(mem, root, v, d + 1).Fault? {
      FaultStays(mem, root, v, d + 1, 4);
    }
    assert Points(mem[tables[PathTo(v, d)]][Slot(v, 3 - d)], d);
  }

  lemma NothingMissing(mem: Mem, root: nat, b: Books, v: Page)
    requires Tree(mem, root, b.tables) && PathTo(v, 3) in b.tables
    ensures Missing(b.tables, v, 3) == 0 && Grown(b, v, 3) == b
  {
    PrefixIn(mem, root, b.tables, v, 2, 3);
    PrefixIn(mem, root, b.tables, v, 1, 3);
    assert Grown(b, v, 1) == b;
    assert Grown(b, v, 2) == b;
  }

  /** If the last entry is present, the page was mapped from the start and nothing has changed. */
  lemma ClimbMapped(s0: Snapshot, s: Snapshot, root: nat, v: Page)
    requires Climbed(s0, s, root, v, 3) && Tree(s0.mem, root, s0.books.tables) && NoHuge(s0.mem, s0.books.tables, v)
    requires Tree(s.mem, root, s.books.tables) && s.books.tables[PathTo(v, 3)] < |s.mem| && EntryAt(s, v, 3).present
    ensures s == s0 && !Walk(s0.mem, root, v).Fault?
  {
    ReachTree(s.mem, root, s.books.tables, v, 3);
    assert !Walk(s.mem, root, v).Fault?;
    MappedPath(s0.mem, root, s0.books.tables, v);
    NothingMissing(s0.mem, root, s0.books, v);
  }

  /** The state after taking a frame from the list and clearing it. */
  ghost predicate Took(s: Snapshot, s1: Snapshot) {
    && s.books.free != [] && s.books.free[0] < |s.mem|
    && s1.mem == s.mem[s.books.free[0] := ZeroTable()]
    && s1.books == s.books.(free := s.books.free[1..], owned := s.books.owned + {s.books.free[0]})
  }

  /** The frame just taken may be hung from the absent entry as a table. */
  lemma TookCanGrow(s: Snapshot, s1: Snapshot, root: nat, hhdm: nat, v: Page, d: nat, w: Word)
    requires Sound(s.mem, root, hhdm, s.freeList, s.books) && Sound(s1.mem, root, hhdm, s1.freeList, s1.books)
    requires Took(s, s1) && d < 3 && PathTo(v, d) in s.books.tables && s.books.tables[PathTo(v, d)] < |s.mem|
    requires NoHuge(s.mem, s.books.tables, v) && !EntryAt(s, v, d).present
    requires w.present && w.pageSize == EntryAt(s, v, d).pageSize && w.address == s.books.free[0]
    ensures CanGrow(s1.mem, root, s1.books.tables, PathTo(v, d), Slot(v, 3 - d), w)
    ensures w.address in s1.books.owned && s1.books.tables[PathTo(v, d)] < |s1.mem|
  {
    hide Chain, Machine, PagesMapped, AllLinked, Closed;
    TablesApart(s.books, PathTo(v, d));
    OwnedApart(s1.books, w.address);
    assert s.books.free[0] in s.books.free;
  }

  /** Hanging the frame just taken brings the descent one level further. */
  lemma ClimbHang(s0: Snapshot, s: Snapshot, s1: Snapshot, s2: Snapshot, root: nat, hhdm: nat, v: Page, d: nat, w: Word)
    requires Climbed(s0, s, root, v, d) && d < 3
    requires Sound(s.mem, root, hhdm, s.freeList, s.books) && Sound(s1.mem, root, hhdm, s1.freeList, s1.books)
    requires Took(s, s1) && SameWalks(s.mem, s1.mem, root) && s.books.tables[PathTo(v, d)] < |s.mem|
    requires !EntryAt(s, v, d).present
    requires w.present && w.pageSize == EntryAt(s, v, d).pageSize && w.address == s.books.free[0]
    requires s1.books.tables[PathTo(v, d)] < |s1.mem|
    requires s2 == Snapshot(SetEntry(s1.mem, s1.books.tables[PathTo(v, d)], Slot(v, 3 - d), w), s1.freeList,
        s1.books.(tables := s1.books.tables[PathTo(v, d + 1) := w.address], owned := s1.books.owned - {w.address}))
    ensures Sound(s2.mem, root, hhdm, s2.freeList, s2.books) && SameWalks(s1.mem, s2.mem, root)
    ensures PathTo(v, d + 1) !in s1.books.tables && Climbed(s0, s2, root, v, d + 1)
  {
    TookCanGrow(s, s1, root, hhdm, v, d, w);
    HangKeepsSound(s1.mem, root, hhdm, s1.freeList, s1.books, PathTo(v, d), Slot(v, 3 - d), w);
    DeeperUnchanged(s0, s, root, v, d);
    HangBooks(s0, s, s1, s2, root, v, d, w.address);
    HangNoHuge(s, s1, s2, root, hhdm, v, d, w);
    hide Sound, Tree, Chain, Walk, NoHuge, Balanced;
  }

  lemma HangBooks(s0: Snapshot, s: Snapshot, s1: Snapshot, s2: Snapshot, root: nat, v: Page, d: nat, f: nat)
    requires Climbed(s0, s, root, v, d) && d < 3 && Took(s, s1) && f == s.books.free[0] && Balanced(s.books)
    requires PathTo(v, d + 1) !in s.books.tables && PathTo(v, d + 1) !in s0.books.tables
    requires s2.books == s1.books.(tables := s1.books.tables[PathTo(v, d + 1) := f], owned := s1.books.owned - {f})
    ensures Missing(s0.books.tables, v, d + 1) <= |s0.books.free|
    ensures s2.books == Grown(s0.books, v, d + 1) && s2.books != s0.books
  {
    assert f in Members(s.books.free);
    assert f !in s.books.owned;
    assert s2.books.owned == s.books.owned;
    assert PathTo(v, d + 1) in s2.books.tables;
  }

  lemma HangNoHuge(s: Snapshot, s1: Snapshot, s2: Snapshot, root: nat, hhdm: nat, v: Page, d: nat, w: Word)
    requires Sound(s.mem, root, hhdm, s.freeList, s.books) && Took(s, s1) && d < 3
    requires NoHuge(s.mem, s.books.tables, v)
    requires PathTo(v, d) in s.books.tables && s.books.tables[PathTo(v, d)] < |s.mem|
    requires w.pageSize == EntryAt(s, v, d).pageSize && w.address == s.books.free[0]
    requires s2.mem == SetEntry(s1.mem, s1.books.tables[PathTo(v, d)], Slot(v, 3 - d), w)
    requires s2.books.tables == s1.books.tables[PathTo(v, d + 1) := w.address]
    ensures NoHuge(s2.mem, s2.books.tables, v)
  {
    hide Chain, Machine, PagesMapped, AllLinked, Closed;
    TablesApart(s.books, PathTo(v, d));
    forall k | 1 <= k <= 2 && PathTo(v, k) in s2.books.tables && s2.books.tables[PathTo(v, k)] < |s2.mem|
      ensures !s2.mem[s2.books.tables[PathTo(v, k)]][Slot(v, 3 - k)].pageSize
    {
      if k != d + 1 {
        assert PathTo(v, k) in s.books.tables;
        TablesApart(s.books, PathTo(v, k));
        assert s2.books.tables[PathTo(v, k)] == s.books.tables[PathTo(v, k)];
      }
    }
  }

  /** Filling the last entry with the frame just taken maps the page. */
  lemma ClimbMap(s0: Snapshot, s: Snapshot, s1: Snapshot, s2: Snapshot, root: nat, hhdm: nat, v: Page, w: Word)
    requires Climbed(s0, s, root, v, 3)
    requires Sound(s.mem, root, hhdm, s.freeList, s.books) && Sound(s1.mem, root, hhdm, s1.freeList, s1.books)
    requires Took(s, s1) && SameWalks(s.mem, s1.mem, root) && Walk(s.mem, root, v).Fault?
    requires w.present && w.address == s.books.free[0]
    requires s1.books.tables[PathTo(v, 3)] < |s1.mem|
    requires s2 == Snapshot(SetEntry(s1.mem, s1.books.tables[PathTo(v, 3)], Slot(v, 0), w), s1.freeList,
        s1.books.(pages := s1.books.pages[v := w.address], owned := s1.books.owned - {w.address}))
    ensures Sound(s2.mem, root, hhdm, s2.freeList, s2.books) && SameWalksBut(s1.mem, s2.mem, root, v)
    ensures Missing(s0.books.tables, v, 3) < |s0.books.free| && s2.books == MapBooks(s0.books, v)
    ensures s2.mem[w.address] == ZeroTable()
    ensures Reach(s2.mem, root, v, 3).At?
    ensures Walk(s2.mem, root, v) == Mapped(w.address, Meet(Reach(s2.mem, root, v, 3).perm, EntryPerm(w)))
  {
    var f := w.address;
    assert s.books.free[0] in s.books.free;
    TablesApart(s.books, PathTo(v, 3));
    assert v !in s.books.pages;
    PageBalanced(s1.books, v, f);
    MapBooksStep(s0, s, s1, s2, root, v, f);
    LeafKeepsSound(s1.mem, root, hhdm, s1.freeList, s1.books, v, w, s2.books);
    hide Sound, Tree, Chain, Walk, NoHuge, Balanced, Reach;
  }

  lemma MapBooksStep(s0: Snapshot, s: Snapshot, s1: Snapshot, s2: Snapshot, root: nat, v: Page, f: nat)
    requires Climbed(s0, s, root, v, 3) && Took(s, s1) && f == s.books.free[0] && Balanced(s.books)
    requires s2.books == s1.books.(pages := s1.books.pages[v := f], owned := s1.books.owned - {f})
    ensures Missing(s0.books.tables, v, 3) < |s0.books.free| && s2.books == MapBooks(s0.books, v)
  {
    assert f in Members(s.books.free);
    assert f !in s.books.owned;
    assert s2.books.owned == s.books.owned;
  }

  /** Frames that are neither tables nor taken from the free list keep their contents. */
  ghost predicate Untouched(s0: Snapshot, s: Snapshot) {
    |s.mem| == |s0.mem| &&
    forall f :: 0 <= f < |s.mem| && f !in s.books.tables.Values && f !in s0.books.free ==> s.mem[f] == s0.mem[f]
  }

  /** No other frames have been adopted, and frames that were never adopted keep their contents. */
  ghost predicate ForeignSame(s0: Snapshot, s: Snapshot) {
    && |s.mem| == |s0.mem| && Pool(s.books) == Pool(s0.books)
    && forall f :: 0 <= f < |s.mem| && f !in Pool(s0.books) ==> s.mem[f] == s0.mem[f]
  }

  lemma ForeignNone(s: Snapshot)
    ensures ForeignSame(s, s)
  {
  }

  lemma ForeignBoth(a: Snapshot, b: Snapshot, c: Snapshot)
    requires ForeignSame(a, b) && ForeignSame(b, c)
    ensures ForeignSame(a, c)
  {
    hide Pool;
  }

  lemma UntouchedStep(s0: Snapshot, s: Snapshot, s1: Snapshot, mem2: Mem, books2: Books, p: Path, i: nat, w: Word)
    requires Untouched(s0, s) && Took(s, s1) && s.books.free[0] in s0.books.free
    requires p in s.books.tables && s.books.tables[p] < |s.mem| && i < 512
    requires |s1.mem| == |s.mem| && mem2 == SetEntry(s1.mem, s.books.tables[p], i, w)
    requires s.books.tables.Values <= books2.tables.Values
    ensures Untouched(s0, Snapshot(mem2, s1.freeList, books2))
  {
    assert s.books.tables[p] in s.books.tables.Values;
  }

  lemma ClimbFree(s0: Snapshot, s: Snapshot, root: nat, v: Page, d: nat)
    requires Climbed(s0, s, root, v, d) && Missing(s0.books.tables, v, 3) < |s0.books.free|
    ensures s.books.free != [] && s.books.free[0] in s0.books.free
  {
    MissingMonotone(s0.books.tables, v);
  }

  lemma StartClimb(s: Snapshot, root: nat, v: Page)
    requires NoHuge(s.mem, s.books.tables, v) && Tree(s.mem, root, s.books.tables)
    ensures Climbed(s, s, root, v, 0) && s.books.tables[PathTo(v, 0)] == root
  {
  }
}
