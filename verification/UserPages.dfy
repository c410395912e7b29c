/** What the page operations mean for user programs, once the kernel owns the lower half. */
module UserPages {
  import opened PageTable
  import opened Ledger
  import opened FreeList
  import opened Space
  import opened MapSteps
  import opened UserHalf
  import opened Mapping
  import opened Leaves

  ghost predicate KeptAt(s: Snapshot, root: nat) {
    Kept(s.mem, root, s.books)
  }

  /** A page mapped in the lower half has exactly the permissions asked for. */
  lemma MapUser(s0: Snapshot, s: Snapshot, root: nat, hhdm: nat, v: Page, perm: Perm)
    requires SoundAt(s, root, hhdm) && KeptAt(s0, root) && IsMapped(s0, s, root, v, perm)
    ensures KeptAt(s, root)
    ensures Lower(v) ==> Walk(s.mem, root, v) == Mapped(s.books.pages[v], perm)
  {
    hide Walk, Reach, Chain, Balanced, Machine, OpenHalf, Untouched, Lower, PagesMapped, AllLinked, Closed, Slot;
    if Lower(v) {
      SoundTree(s, root, hhdm);
      ReachTree(s.mem, root, s.books.tables, v, 3);
      OpenWalk(s.mem, root, s.books.tables, v);
    }
  }

  lemma ProtectUser(s0: Snapshot, s: Snapshot, root: nat, hhdm: nat, v: Page, perm: Perm)
    requires SoundAt(s, root, hhdm) && KeptAt(s0, root) && IsProtected(s0, s, root, v, perm)
    ensures KeptAt(s, root)
    ensures Lower(v) ==> Walk(s.mem, root, v) == Mapped(Walk(s0.mem, root, v).frame, perm)
  {
    hide Walk, Reach, Chain, Balanced, Machine, OpenHalf, Lower, PagesMapped, AllLinked, Closed, Slot;
    if Lower(v) {
      SoundTree(s, root, hhdm);
      OpenWalk(s.mem, root, s.books.tables, v);
    }
  }

  lemma UnmapUser(s0: Snapshot, s: Snapshot, root: nat, v: Page)
    requires KeptAt(s0, root) && IsUnmapped(s0, s, root, v)
    ensures KeptAt(s, root)
  {
    hide Walk, OpenHalf, Lower, Slot;
  }

  /** Isolation: whatever a program can reach through the lower half is a data frame of its own, never a
      page table, a free frame, or the frame of another page. */
  lemma Isolation(s: Snapshot, root: nat, hhdm: nat, u: Page, v: Page)
    requires SoundAt(s, root, hhdm) && KeptAt(s, root) && Lower(u) && Lower(v)
    requires Walk(s.mem, root, u).Mapped? && Walk(s.mem, root, v).Mapped?
    ensures var f := Walk(s.mem, root, u).frame;
      && f < |s.mem| && f !in s.books.tables.Values && f !in s.books.free && f !in s.books.owned
      && (Walk(s.mem, root, v).frame == f ==> u == v)
  {
    hide Walk, OpenHalf, Lower, Chain, Machine, AllLinked, Closed, Slot;
    PageApart(s.books, u);
    assert u in s.books.pages && v in s.books.pages;
  }

  lemma PageApart(b: Books, v: Page)
    requires Balanced(b) && v in b.pages
    ensures b.pages[v] !in b.tables.Values && b.pages[v] !in b.free && b.pages[v] !in b.owned
  {
    assert b.pages[v] in b.pages.Values;
    assert forall f :: f in b.free ==> f in Members(b.free);
  }
}
