/** What `vm_protect` and `vm_unmap` do to the last-level entry of a page. */
module Leaves {
  import opened Words
  import opened PageTable
  import opened TableUpdates
  import opened Ledger
  import opened FreeList
  import opened Space
  import opened MapSteps
  import opened UserHalf
  import opened Mapping

  /** Only the table holding the last-level entry of `v`, and only the translation of `v`, may differ. */
  ghost predicate OnlyLeaf(s0: Snapshot, s: Snapshot, root: nat, v: Page) {
    && s.freeList == s0.freeList
    && SameWalksBut(s0.mem, s.mem, root, v)
    && PathTo(v, 3) in s0.books.tables
    && (forall f :: 0 <= f < |s.mem| && f != s0.books.tables[PathTo(v, 3)] ==> s.mem[f] == s0.mem[f])
    && (OpenHalf(s0.mem, s0.books.tables) ==> OpenHalf(s.mem, s.books.tables))
  }

  /** The page keeps its frame and now has these permissions, as far as the levels above allow. */
  ghost predicate IsProtected(s0: Snapshot, s: Snapshot, root: nat, v: Page, perm: Perm) {
    && OnlyLeaf(s0, s, root, v)
    && s.books == s0.books && s0.books.tables[PathTo(v, 3)] < |s0.mem|
    && s.mem == SetEntry(s0.mem, s0.books.tables[PathTo(v, 3)], Slot(v, 0), EntryAt(s0, v, 3).(
         writable := perm.writable, user := perm.user, noExecute := !perm.executable))
    && Walk(s0.mem, root, v).Mapped? && Reach(s.mem, root, v, 3).At?
    && Walk(s.mem, root, v) == Mapped(Walk(s0.mem, root, v).frame, Meet(Reach(s.mem, root, v, 3).perm, perm))
  }

  ghost predicate IsUnmapped(s0: Snapshot, s: Snapshot, root: nat, v: Page) {
    && OnlyLeaf(s0, s, root, v)
    && s.books == UnmapBooks(s0.books, v) && s0.books.tables[PathTo(v, 3)] < |s0.mem|
    && s.mem == SetEntry(s0.mem, s0.books.tables[PathTo(v, 3)], Slot(v, 0), EntryAt(s0, v, 3).(present := false))
    && Walk(s.mem, root, v).Fault?
  }

  ghost predicate LeafStored(s0: Snapshot, s: Snapshot, v: Page, w: Word) {
    && PathTo(v, 3) in s0.books.tables && s0.books.tables[PathTo(v, 3)] < |s0.mem|
    && s.mem == SetEntry(s0.mem, s0.books.tables[PathTo(v, 3)], Slot(v, 0), w)
    && s.freeList == s0.freeList
  }

  lemma LeafWalk(s: Snapshot, root: nat, hhdm: nat, v: Page)
    requires SoundAt(s, root, hhdm) && PathTo(v, 3) in s.books.tables && s.books.tables[PathTo(v, 3)] < |s.mem|
    ensures var e := EntryAt(s, v, 3);
      if e.present then Walk(s.mem, root, v).Mapped? && Walk(s.mem, root, v).frame == e.address
      else Walk(s.mem, root, v).Fault?
  {
    hide Chain, Balanced, Machine, PagesMapped;
    ReachTree(s.mem, root, s.books.tables, v, 3);
  }

  lemma StoreProtected(s0: Snapshot, s: Snapshot, root: nat, hhdm: nat, v: Page, w: Word)
    requires SoundAt(s0, root, hhdm) && LeafStored(s0, s, v, w) && s.books == s0.books
    requires EntryAt(s0, v, 3).present
    requires w == EntryAt(s0, v, 3).(writable := w.writable, user := w.user, noExecute := w.noExecute)
    ensures SoundAt(s, root, hhdm) && IsProtected(s0, s, root, v, EntryPerm(w))
  {
    hide Tree, Chain, Balanced, Machine, Walk, Reach, OpenHalf, Meet;
    LeafWalk(s0, root, hhdm, v);
    LeafKeepsSound(s0.mem, root, hhdm, s0.freeList, s0.books, v, w, s0.books);
    StoreOpen(s0, s, root, hhdm, v, w);
  }

  lemma StoreOpen(s0: Snapshot, s: Snapshot, root: nat, hhdm: nat, v: Page, w: Word)
    requires SoundAt(s0, root, hhdm) && LeafStored(s0, s, v, w) && s.books.tables == s0.books.tables
    ensures OpenHalf(s0.mem, s0.books.tables) ==> OpenHalf(s.mem, s.books.tables)
  {
    hide OpenHalf;
    SoundTree(s0, root, hhdm);
    if OpenHalf(s0.mem, s0.books.tables) {
      OpenLeaf(s0.mem, root, s0.books.tables, v, w);
    }
  }

  lemma StoreUnmapped(s0: Snapshot, s: Snapshot, root: nat, hhdm: nat, v: Page, w: Word)
    requires SoundAt(s0, root, hhdm) && LeafStored(s0, s, v, w) && s.books == UnmapBooks(s0.books, v)
    requires w == EntryAt(s0, v, 3).(present := false)
    ensures SoundAt(s, root, hhdm) && IsUnmapped(s0, s, root, v)
  {
    hide Tree, Chain, Balanced, Machine, Walk, Reach, OpenHalf, Meet;
    SoundBalanced(s0, root, hhdm);
    UnmapKeeps(s0.books, v);
    LeafKeepsSound(s0.mem, root, hhdm, s0.freeList, s0.books, v, w, s.books);
    StoreOpen(s0, s, root, hhdm, v, w);
  }

  /** If the tables on the path exist, the entry read at an upper level is present. */
  lemma UpperPresent(s: Snapshot, root: nat, hhdm: nat, v: Page, d: nat)
    requires SoundAt(s, root, hhdm) && PathTo(v, 3) in s.books.tables && d < 3
    ensures PathTo(v, d) in s.books.tables && s.books.tables[PathTo(v, d)] < |s.mem| && EntryAt(s, v, d).present
  {
    hide Chain, Balanced, Machine, PagesMapped, Closed;
    PrefixIn(s.mem, root, s.books.tables, v, d + 1, 3);
    assert Linked(s.mem, s.books.tables, PathTo(v, d + 1));
  }

  /** Three upper entries that refer to tables are never huge. */
  lemma UpperNoHuge(s: Snapshot, root: nat, hhdm: nat, v: Page)
    requires SoundAt(s, root, hhdm) && PathTo(v, 3) in s.books.tables
    ensures NoHuge(s.mem, s.books.tables, v)
  {
    hide Chain, Balanced, Machine, PagesMapped, Closed;
    forall d | 1 <= d <= 2 ensures PathTo(v, d) in s.books.tables && s.books.tables[PathTo(v, d)] < |s.mem| &&
      !s.mem[s.books.tables[PathTo(v, d)]][Slot(v, 3 - d)].pageSize
    {
      PrefixIn(s.mem, root, s.books.tables, v, d + 1, 3);
      assert Linked(s.mem, s.books.tables, PathTo(v, d + 1));
    }
  }

  lemma LeafSame(s0: Snapshot, s: Snapshot, root: nat, v: Page)
    requires IsUnmapped(s0, s, root, v)
    ensures SameWalksBut(s0.mem, s.mem, root, v)
  {
    hide SameWalksBut, Walk;
  }

  lemma ProtectSame(s0: Snapshot, s: Snapshot, root: nat, v: Page, perm: Perm)
    requires IsProtected(s0, s, root, v, perm)
    ensures SameWalksBut(s0.mem, s.mem, root, v)
  {
    hide SameWalksBut, Walk;
  }

  lemma ProtectForeign(s0: Snapshot, s: Snapshot, root: nat, v: Page, perm: Perm)
    requires IsProtected(s0, s, root, v, perm)
    ensures ForeignSame(s0, s)
  {
    hide Walk, Reach, OpenHalf;
    assert s0.books.tables[PathTo(v, 3)] in s0.books.tables.Values;
  }
}
