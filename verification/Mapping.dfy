/** What `vm_map` has done after d levels, and when it is finished. */
module Mapping {
  import opened Words
  import opened PageTable
  import opened TableUpdates
  import opened Ledger
  import opened FreeList
  import opened Space
  import opened MapSteps
  import opened MapStores
  import opened UserHalf

  ghost predicate SoundAt(s: Snapshot, root: nat, hhdm: nat) {
    Sound(s.mem, root, hhdm, s.freeList, s.books)
  }

  /** The table at position p, or frame 0 if there is none in memory. */
  function TableOf(s: Snapshot, p: Path): (t: nat)
    ensures p in s.books.tables && s.books.tables[p] < |s.mem| ==> t == s.books.tables[p]
  {
    if p in s.books.tables && s.books.tables[p] < |s.mem| then s.books.tables[p] else 0
  }

  /** The first d tables on the way to `v` exist; so far no translation has changed. */
  ghost predicate Descended(s0: Snapshot, s: Snapshot, root: nat, v: Page, d: nat) {
    && Climbed(s0, s, root, v, d)
    && s.mem == MemAt(s0, v, d)
    && Untouched(s0, s)
    && (OpenHalf(s0.mem, s0.books.tables) ==> OpenHalf(s.mem, s.books.tables))
  }

  /** The page has been mapped with these permissions (and those of the levels above) to a zeroed
      frame from the free list, absent tables were added, and nothing else was changed. */
  ghost predicate IsMapped(s0: Snapshot, s: Snapshot, root: nat, v: Page, perm: Perm) {
    && Missing(s0.books.tables, v, 3) < |s0.books.free|
    && s.books == MapBooks(s0.books, v) && s.mem == MapMem(s0, v, perm)
    && s.books.pages[v] < |s.mem| && s.mem[s.books.pages[v]] == ZeroTable()
    && Reach(s.mem, root, v, 3).At?
    && Walk(s.mem, root, v) == Mapped(s.books.pages[v], Meet(Reach(s.mem, root, v, 3).perm, perm))
    && SameWalksBut(s0.mem, s.mem, root, v)
    && Untouched(s0, s)
    && (OpenHalf(s0.mem, s0.books.tables) ==> OpenHalf(s.mem, s.books.tables))
  }

  lemma MappedWalks(s0: Snapshot, s: Snapshot, root: nat, v: Page, perm: Perm)
    requires IsMapped(s0, s, root, v, perm)
    ensures SameWalksBut(s0.mem, s.mem, root, v)
  {
    hide Walk, SameWalksBut, MapBooks, MapMem, Missing;
  }

  lemma DescendClimbed(s0: Snapshot, s: Snapshot, root: nat, v: Page, d: nat)
    requires Descended(s0, s, root, v, d)
    ensures Climbed(s0, s, root, v, d)
  {
    hide Climbed, MemAt, Untouched, OpenHalf, Missing;
  }

  lemma MapForeign(s0: Snapshot, s: Snapshot, root: nat, v: Page, perm: Perm)
    requires Balanced(s0.books) && v !in s0.books.pages && IsMapped(s0, s, root, v, perm)
    ensures ForeignSame(s0, s)
  {
    hide Walk, Reach, Balanced, MapBooks, OpenHalf, SameWalksBut, Missing;
    MapKeeps(s0.books, v);
    assert forall f :: f in s0.books.free ==> f in Members(s0.books.free);
  }

  lemma Start(s: Snapshot, root: nat, hhdm: nat, v: Page)
    requires SoundAt(s, root, hhdm) && NoHuge(s.mem, s.books.tables, v)
    ensures Descended(s, s, root, v, 0) && TableOf(s, PathTo(v, 0)) == root
  {
    hide Chain, Walk, NoHuge, Balanced, AllLinked, Closed, OpenHalf;
    StartClimb(s, root, v);
  }

  /** The table that the loop stands at is in memory, and is where it should be. */
  lemma TableInMemory(s0: Snapshot, s: Snapshot, root: nat, hhdm: nat, v: Page, d: nat)
    requires SoundAt(s, root, hhdm) && Climbed(s0, s, root, v, d)
    ensures PathTo(v, d) in s.books.tables && s.books.tables[PathTo(v, d)] < |s.mem|
  {
    hide Chain, Walk, NoHuge, Balanced, AllLinked, Closed, OpenHalf;
  }

  lemma DescendedTable(s0: Snapshot, s: Snapshot, root: nat, hhdm: nat, v: Page, d: nat)
    requires SoundAt(s, root, hhdm) && Descended(s0, s, root, v, d)
    ensures PathTo(v, d) in s.books.tables && TableOf(s, PathTo(v, d)) == s.books.tables[PathTo(v, d)] < |s.mem|
  {
    hide Climbed, Untouched, OpenHalf;
    TableInMemory(s0, s, root, hhdm, v, d);
  }

  lemma DescendPresent(s0: Snapshot, s: Snapshot, root: nat, hhdm: nat, v: Page, d: nat)
    requires SoundAt(s, root, hhdm) && Descended(s0, s, root, v, d) && d < 3
    requires PathTo(v, d) in s.books.tables && s.books.tables[PathTo(v, d)] < |s.mem| && EntryAt(s, v, d).present
    ensures Descended(s0, s, root, v, d + 1) && TableOf(s, PathTo(v, d + 1)) == EntryAt(s, v, d).address
  {
    hide Climbed, Untouched, OpenHalf, MemAt, Sound;
    ClimbPresent(s0, s, root, hhdm, v, d);
    TableInMemory(s0, s, root, hhdm, v, d + 1);
    PresentMem(s0, s, root, v, d);
  }

  lemma PresentMem(s0: Snapshot, s: Snapshot, root: nat, v: Page, d: nat)
    requires d < 3 && Climbed(s0, s, root, v, d) && Climbed(s0, s, root, v, d + 1)
    ensures MemAt(s0, v, d + 1) == MemAt(s0, v, d)
  {
    hide NoHuge, SameWalks, Grown;
    DeeperUnchanged(s0, s, root, v, d);
  }

  /** Memory after the table has been hung, store by store. */
  lemma HungMem(s0: Snapshot, s: Snapshot, s1: Snapshot, s2: Snapshot, root: nat, hhdm: nat, v: Page, d: nat, w: Word)
    requires d < 3 && Climbed(s0, s, root, v, d) && s.mem == MemAt(s0, v, d) && SoundAt(s, root, hhdm) && Took(s, s1)
    requires PathTo(v, d) in s.books.tables && s.books.tables[PathTo(v, d)] < |s.mem|
    requires w == Open(EntryAt(s, v, d)).(address := w.address) && w.address == s.books.free[0]
    requires PathTo(v, d + 1) !in s0.books.tables && Missing(s0.books.tables, v, d + 1) <= |s0.books.free|
    requires s2.mem == SetEntry(s1.mem, s.books.tables[PathTo(v, d)], Slot(v, 3 - d), w)
    ensures s2.mem == MemAt(s0, v, d + 1)
  {
    hide NoHuge, SameWalks, Sound, MemAt, Grown, Open;
    SoundBalanced(s, root, hhdm);
    TablesApart(s.books, PathTo(v, d));
    assert s.books.free[0] in s.books.free;
    MemNext(s0, v, d);
  }

  lemma MemNext(s: Snapshot, v: Page, d: nat)
    requires d < 3 && PathTo(v, d + 1) !in s.books.tables && Missing(s.books.tables, v, d + 1) <= |s.books.free|
    ensures Missing(s.books.tables, v, d) < |s.books.free|
    ensures MemAt(s, v, d + 1) == Put(ZeroedAt(s, v, d), TableAt(s.books, v, d), Slot(v, 3 - d),
                                      Open(AbsentAt(s, v, d)).(address := FrameAt(s.books, v, d)))
  {
    hide Grown, Open, AbsentAt, ZeroedAt, TableAt, FrameAt;
  }

  lemma SoundBalanced(s: Snapshot, root: nat, hhdm: nat)
    requires SoundAt(s, root, hhdm)
    ensures Balanced(s.books)
  {
    hide Balanced;
  }

  lemma MappedMem(s0: Snapshot, s: Snapshot, s1: Snapshot, s2: Snapshot, root: nat, hhdm: nat, v: Page, w: Word)
    requires Climbed(s0, s, root, v, 3) && s.mem == MemAt(s0, v, 3) && SoundAt(s, root, hhdm) && Took(s, s1)
    requires PathTo(v, 3) in s.books.tables && s.books.tables[PathTo(v, 3)] < |s.mem|
    requires w == Leaf(EntryAt(s, v, 3), EntryPerm(w)).(address := w.address) && w.address == s.books.free[0]
    requires Missing(s0.books.tables, v, 3) < |s0.books.free|
    requires s2.mem == SetEntry(s1.mem, s.books.tables[PathTo(v, 3)], Slot(v, 0), w)
    ensures s2.mem == MapMem(s0, v, EntryPerm(w))
  {
    hide NoHuge, SameWalks, Sound, MemAt, Grown, Open, Leaf;
    SoundBalanced(s, root, hhdm);
    TablesApart(s.books, PathTo(v, 3));
    assert s.books.free[0] in s.books.free;
  }

  lemma DescendMapped(s0: Snapshot, s: Snapshot, root: nat, hhdm: nat, v: Page)
    requires SoundAt(s0, root, hhdm) && NoHuge(s0.mem, s0.books.tables, v)
    requires SoundAt(s, root, hhdm) && Descended(s0, s, root, v, 3)
    requires PathTo(v, 3) in s.books.tables && s.books.tables[PathTo(v, 3)] < |s.mem| && EntryAt(s, v, 3).present
    ensures s == s0 && !Walk(s0.mem, root, v).Fault?
  {
    hide Climbed, Untouched, OpenHalf, Chain, Balanced, PagesMapped;
    ClimbMapped(s0, s, root, v);
  }

  /** An absent entry on the way: the page was unmapped at the start, and there is a frame to take. */
  lemma DescendAbsent(s0: Snapshot, s: Snapshot, root: nat, hhdm: nat, v: Page, d: nat)
    requires SoundAt(s, root, hhdm) && Descended(s0, s, root, v, d)
    requires PathTo(v, d) in s.books.tables && s.books.tables[PathTo(v, d)] < |s.mem| && !EntryAt(s, v, d).present
    requires Walk(s0.mem, root, v).Fault? ==> Missing(s0.books.tables, v, 3) < |s0.books.free|
    ensures Walk(s0.mem, root, v).Fault? && Walk(s.mem, root, v).Fault?
    ensures s.books.free != [] && s.books.free[0] in s0.books.free
  {
    hide Untouched, OpenHalf, Chain, Balanced, PagesMapped, Walk;
    AbsentFault(s, root, v, d);
    ClimbFree(s0, s, root, v, d);
  }

  lemma DescendHang(s0: Snapshot, s: Snapshot, s1: Snapshot, s2: Snapshot, root: nat, hhdm: nat, v: Page, d: nat,
                    w: Word)
    requires Descended(s0, s, root, v, d) && d < 3 && SoundAt(s, root, hhdm) && SoundAt(s1, root, hhdm)
    requires Took(s, s1) && SameWalks(s.mem, s1.mem, root) && s.books.free[0] in s0.books.free
    requires PathTo(v, d) in s.books.tables && s.books.tables[PathTo(v, d)] < |s.mem| && !EntryAt(s, v, d).present
    requires w == Open(EntryAt(s, v, d)).(address := w.address)
    requires w.address == s.books.free[0]
    requires s2 == Snapshot(SetEntry(s1.mem, s1.books.tables[PathTo(v, d)], Slot(v, 3 - d), w), s1.freeList,
        s1.books.(tables := s1.books.tables[PathTo(v, d + 1) := w.address], owned := s1.books.owned - {w.address}))
    ensures SoundAt(s2, root, hhdm) && SameWalks(s1.mem, s2.mem, root)
    ensures Descended(s0, s2, root, v, d + 1) && TableOf(s2, PathTo(v, d + 1)) == w.address
  {
    hide Untouched, OpenHalf, Sound, SameWalks, Walk, NoHuge, Grown, MemAt;
    DeeperUnchanged(s0, s, root, v, d);
    ClimbHang(s0, s, s1, s2, root, hhdm, v, d, w);
    ClimbedMissing(s0, s2, root, v, d + 1);
    HungMem(s0, s, s1, s2, root, hhdm, v, d, w);
    ValuesGrow(s1.books.tables, PathTo(v, d + 1), w.address);
    UntouchedStep(s0, s, s1, s2.mem, s2.books, PathTo(v, d), Slot(v, 3 - d), w);
    if OpenHalf(s0.mem, s0.books.tables) {
      HangOpen(s, s1, s2, root, hhdm, v, d, w);
    }
    TableInMemory(s0, s2, root, hhdm, v, d + 1);
  }

  lemma ClimbedMissing(s0: Snapshot, s: Snapshot, root: nat, v: Page, d: nat)
    requires Climbed(s0, s, root, v, d)
    ensures d <= 3 && Missing(s0.books.tables, v, d) <= |s0.books.free| && s.books == Grown(s0.books, v, d)
  {
    hide NoHuge, SameWalks, Grown, Missing;
  }

  lemma ValuesGrow(tables: Tables, p: Path, f: nat)
    requires p !in tables || tables[p] == f
    ensures tables.Values <= tables[p := f].Values
  {
    forall y | y in tables.Values ensures y in tables[p := f].Values {
      var q :| q in tables && tables[q] == y;
      assert tables[p := f][q] == y;
    }
  }

  lemma HangOpen(s: Snapshot, s1: Snapshot, s2: Snapshot, root: nat, hhdm: nat, v: Page, d: nat, w: Word)
    requires SoundAt(s, root, hhdm) && SoundAt(s1, root, hhdm) && Took(s, s1) && d < 3
    requires OpenHalf(s.mem, s.books.tables) && NoHuge(s.mem, s.books.tables, v)
    requires PathTo(v, d) in s.books.tables && s.books.tables[PathTo(v, d)] < |s.mem| && !EntryAt(s, v, d).present
    requires w == EntryAt(s, v, d).(present := true, user := true, writable := true, address := w.address)
    requires w.address == s.books.free[0]
    requires s2.mem == SetEntry(s1.mem, s1.books.tables[PathTo(v, d)], Slot(v, 3 - d), w)
    requires s2.books.tables == s1.books.tables[PathTo(v, d + 1) := w.address]
    ensures OpenHalf(s2.mem, s2.books.tables)
  {
    TookCanGrow(s, s1, root, hhdm, v, d, w);
    hide CanGrow, OpenHalf, NoHuge;
    TookApart(s, s1, root, hhdm);
    OpenOutside(s.mem, s1.mem, s.books.tables);
    OpenHang(s1.mem, root, s1.books.tables, PathTo(v, d), Slot(v, 3 - d), w);
  }

  lemma TookApart(s: Snapshot, s1: Snapshot, root: nat, hhdm: nat)
    requires SoundAt(s, root, hhdm) && Took(s, s1)
    ensures forall p :: p in s.books.tables && s.books.tables[p] < |s.mem| ==>
      s1.mem[s.books.tables[p]] == s.mem[s.books.tables[p]]
  {
    hide Chain, Walk, Tree, Machine;
    assert s.books.free[0] in Members(s.books.free);
    assert forall p :: p in s.books.tables ==> s.books.tables[p] in s.books.tables.Values;
  }

  lemma DescendMap(s0: Snapshot, s: Snapshot, s1: Snapshot, s2: Snapshot, root: nat, hhdm: nat, v: Page, w: Word)
    requires Descended(s0, s, root, v, 3) && SoundAt(s, root, hhdm) && SoundAt(s1, root, hhdm)
    requires Took(s, s1) && SameWalks(s.mem, s1.mem, root) && s.books.free[0] in s0.books.free
    requires PathTo(v, 3) in s.books.tables && s.books.tables[PathTo(v, 3)] < |s.mem|
    requires Walk(s.mem, root, v).Fault?
    requires w == Leaf(EntryAt(s, v, 3), EntryPerm(w)).(address := w.address)
    requires w.address == s.books.free[0]
    requires s2 == Snapshot(SetEntry(s1.mem, s1.books.tables[PathTo(v, 3)], Slot(v, 0), w), s1.freeList,
        s1.books.(pages := s1.books.pages[v := w.address], owned := s1.books.owned - {w.address}))
    ensures SoundAt(s2, root, hhdm) && SameWalksBut(s1.mem, s2.mem, root, v)
    ensures IsMapped(s0, s2, root, v, EntryPerm(w))
  {
    hide Climbed, OpenHalf, Sound, SameWalks, Walk, MemAt, Grown, MapMem, Missing, MapBooks, SameWalksBut, Reach;
    ClimbMap(s0, s, s1, s2, root, hhdm, v, w);
    UntouchedStep(s0, s, s1, s2.mem, s2.books, PathTo(v, 3), Slot(v, 0), w);
    MapWalks(s0, s, s1, s2, root, v);
    MappedMem(s0, s, s1, s2, root, hhdm, v, w);
    hide Untouched;
    if OpenHalf(s0.mem, s0.books.tables) {
      TookApart(s, s1, root, hhdm);
      OpenOutside(s.mem, s1.mem, s.books.tables);
      SoundTree(s1, root, hhdm);
      OpenLeaf(s1.mem, root, s1.books.tables, v, w);
    }
  }

  lemma SoundTree(s: Snapshot, root: nat, hhdm: nat)
    requires SoundAt(s, root, hhdm)
    ensures Tree(s.mem, root, s.books.tables)
  {
    hide Tree;
  }

  lemma MapWalks(s0: Snapshot, s: Snapshot, s1: Snapshot, s2: Snapshot, root: nat, v: Page)
    requires Climbed(s0, s, root, v, 3) && SameWalks(s.mem, s1.mem, root) && SameWalksBut(s1.mem, s2.mem, root, v)
    ensures SameWalksBut(s0.mem, s2.mem, root, v)
  {
    hide Walk;
  }
}
