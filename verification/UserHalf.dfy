/** The lower half of the address space once the kernel owns it: no huge pages, no upper-level
    entry that restricts access, and no page but those that `vm_map` has mapped. */
module UserHalf {
  import opened Words
  import opened PageTable
  import opened TableUpdates
  import opened Ledger
  import opened MapSteps

  /** An upper-level entry that leaves the decision to the last level. */
  predicate OpenEntry(e: Word, depth: nat) {
    !e.noExecute && (depth > 0 ==> !e.pageSize) && (e.present ==> e.user && e.writable)
  }

  ghost predicate OpenHalf(mem: Mem, tables: Tables) {
    forall p, i :: p in tables && tables[p] < |mem| && 0 <= i < 512 && Depth(p) < 3 && First(Down(p, i)) < 256 ==>
      OpenEntry(mem[tables[p]][i], Depth(p))
  }

  ghost predicate Kept(mem: Mem, root: nat, b: Books) {
    && OpenHalf(mem, b.tables)
    && forall v: Page :: Lower(v) && !Walk(mem, root, v).Fault? ==> v in b.pages
  }

  lemma {:induction false} OpenReach(mem: Mem, root: nat, tables: Tables, v: Page, d: nat)
    requires Tree(mem, root, tables) && OpenHalf(mem, tables) && Lower(v) && d <= 3
    requires Reach(mem, root, v, d).At?
    ensures Reach(mem, root, v, d).perm == FULL
  {
    if d > 0 {
      OpenReach(mem, root, tables, v, d - 1);
      ReachTree(mem, root, tables, v, d - 1);
      assert First(PathTo(v, d)) < 256;
      assert OpenEntry(mem[tables[PathTo(v, d - 1)]][Slot(v, 4 - d)], d - 1);
    }
  }

  /** The permissions of a mapped lower-half page are those of its last-level entry. */
  lemma OpenWalk(mem: Mem, root: nat, tables: Tables, v: Page)
    requires Tree(mem, root, tables) && OpenHalf(mem, tables) && Lower(v) && PathTo(v, 3) in tables
    ensures Reach(mem, root, v, 3).At? && Reach(mem, root, v, 3).perm == FULL
  {
    ReachTree(mem, root, tables, v, 3);
    OpenReach(mem, root, tables, v, 3);
  }

  lemma OpenNoHuge(mem: Mem, tables: Tables, v: Page)
    requires OpenHalf(mem, tables) && Lower(v)
    ensures NoHuge(mem, tables, v)
  {
    forall d | 1 <= d <= 2 && PathTo(v, d) in tables && tables[PathTo(v, d)] < |mem|
      ensures !mem[tables[PathTo(v, d)]][Slot(v, 3 - d)].pageSize
    {
      assert First(PathTo(v, d + 1)) < 256;
      assert OpenEntry(mem[tables[PathTo(v, d)]][Slot(v, 3 - d)], d);
    }
  }

  lemma OpenOutside(mem: Mem, mem': Mem, tables: Tables)
    requires OpenHalf(mem, tables) && |mem'| == |mem|
    requires forall p :: p in tables && tables[p] < |mem| ==> mem'[tables[p]] == mem[tables[p]]
    ensures OpenHalf(mem', tables)
  {
    hide First, OpenEntry;
  }

  lemma OpenHang(mem: Mem, root: nat, tables: Tables, p: Path, i: nat, w: Word)
    requires p in tables && tables[p] < |mem| && i < 512 && CanGrow(mem, root, tables, p, i, w)
    requires OpenHalf(mem, tables)
    requires w.user && w.writable
    requires w.noExecute == mem[tables[p]][i].noExecute && w.pageSize == mem[tables[p]][i].pageSize
    ensures OpenHalf(SetEntry(mem, tables[p], i, w), tables[Down(p, i) := w.address])
  {
    var mem' := SetEntry(mem, tables[p], i, w);
    var tables' := tables[Down(p, i) := w.address];
    forall q, j | q in tables' && tables'[q] < |mem'| && 0 <= j < 512 && Depth(q) < 3 && First(Down(q, j)) < 256
      ensures OpenEntry(mem'[tables'[q]][j], Depth(q))
    {
      if q != Down(p, i) {
        assert tables[q] in tables.Values;
        assert OpenEntry(mem[tables[q]][j], Depth(q));
      }
    }
  }

  lemma OpenLeaf(mem: Mem, root: nat, tables: Tables, v: Page, w: Word)
    requires Tree(mem, root, tables) && OpenHalf(mem, tables) && PathTo(v, 3) in tables
    ensures OpenHalf(SetEntry(mem, tables[PathTo(v, 3)], Slot(v, 0), w), tables)
  {
    var mem' := SetEntry(mem, tables[PathTo(v, 3)], Slot(v, 0), w);
    forall q, j | q in tables && tables[q] < |mem'| && 0 <= j < 512 && Depth(q) < 3 && First(Down(q, j)) < 256
      ensures OpenEntry(mem'[tables[q]][j], Depth(q))
    {
      assert q != PathTo(v, 3);
      assert mem'[tables[q]] == mem[tables[q]];
      assert OpenEntry(mem[tables[q]][j], Depth(q));
    }
  }
}
