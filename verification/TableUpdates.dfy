/** What a store to physical memory does to the translation of every page. */
module TableUpdates {
  import opened Words
  import opened PageTable

  function SetEntry(mem: Mem, t: nat, i: nat, w: Word): Mem
    requires t < |mem| && i < 512
  {
    mem[t := mem[t][i := w]]
  }

  /** The entry that the walk for `v` reads at this depth is the same in both memories. */
  ghost predicate SameEntry(mem: Mem, mem': Mem, root: nat, v: Page, depth: nat)
    requires depth < 4
  {
    var c := Reach(mem, root, v, depth);
    c.At? && c.table < |mem| ==>
      c.table < |mem'| && mem'[c.table][Slot(v, 3 - depth)] == mem[c.table][Slot(v, 3 - depth)]
  }

  lemma {:induction false} ReachSame(mem: Mem, mem': Mem, root: nat, v: Page, depth: nat)
    requires depth <= 4 && |mem| == |mem'|
    requires forall k :: 0 <= k < depth ==> SameEntry(mem, mem', root, v, k)
    ensures Reach(mem', root, v, depth) == Reach(mem, root, v, depth)
  {
    if depth > 0 {
      ReachSame(mem, mem', root, v, depth - 1);
      assert SameEntry(mem, mem', root, v, depth - 1);
    }
  }

  /** Stores outside the tables change no translation. */
  lemma OutsideTables(mem: Mem, mem': Mem, root: nat, tables: Tables)
    requires Tree(mem, root, tables) && |mem| == |mem'|
    requires forall p :: p in tables ==> mem'[tables[p]] == mem[tables[p]]
    ensures Tree(mem', root, tables)
    ensures forall v: Page, k :: 0 <= k <= 4 ==> Reach(mem', root, v, k) == Reach(mem, root, v, k)
    ensures forall v: Page :: Walk(mem', root, v) == Walk(mem, root, v)
  {
    forall v: Page, k | 0 <= k <= 4 ensures Reach(mem', root, v, k) == Reach(mem, root, v, k) {
      forall j | 0 <= j < k ensures SameEntry(mem, mem', root, v, j) {
        ReachTree(mem, root, tables, v, j);
      }
      ReachSame(mem, mem', root, v, k);
    }
    forall p | p in tables && p.Down? ensures Linked(mem', tables, p) {
      assert Linked(mem, tables, p);
    }
  }

  /** A store to one entry changes only walks that read that entry. */
  lemma EntryFrame(mem: Mem, root: nat, tables: Tables, p: Path, i: nat, w: Word, v: Page, depth: nat)
    requires Tree(mem, root, tables) && p in tables && i < 512 && depth <= 4
    requires depth <= Depth(p) || PathTo(v, Depth(p)) != p || Slot(v, 3 - Depth(p)) != i
    ensures Reach(SetEntry(mem, tables[p], i, w), root, v, depth) == Reach(mem, root, v, depth)
  {
    var mem' := SetEntry(mem, tables[p], i, w);
    forall k | 0 <= k < depth ensures SameEntry(mem, mem', root, v, k) {
      ReachTree(mem, root, tables, v, k);
      var c := Reach(mem, root, v, k);
      if c.At? && c.table == tables[p] {
        assert PathTo(v, k) == p;
      }
    }
    ReachSame(mem, mem', root, v, depth);
  }

  /** Hanging an empty table from a vacant entry keeps the tree and changes no translation. */
  lemma Grow(mem: Mem, root: nat, tables: Tables, p: Path, i: nat, w: Word)
    requires CanGrow(mem, root, tables, p, i, w)
    ensures var mem' := SetEntry(mem, tables[p], i, w); var tables' := tables[Down(p, i) := w.address];
      && Down(p, i) !in tables
      && Tree(mem', root, tables')
      && (forall v: Page :: Walk(mem', root, v) == Walk(mem, root, v))
  {
    var mem' := SetEntry(mem, tables[p], i, w);
    var q := Down(p, i);
    if q in tables {
      assert false;
    }
    GrowTree(mem, root, tables, p, i, w);
    forall v: Page ensures Walk(mem', root, v) == Walk(mem, root, v) {
      var d := Depth(p);
      if PathTo(v, d) == p && Slot(v, 3 - d) == i {
        EntryFrame(mem, root, tables, p, i, w, v, d);
        ReachTree(mem, root, tables, v, d);
        FaultStays(mem, root, v, d + 1, 4);
        FaultBelow(mem', root, v, d, w);
      } else {
        EntryFrame(mem, root, tables, p, i, w, v, 4);
      }
    }
  }

  /** Nothing translates through an empty table. */
  lemma FaultBelow(mem: Mem, root: nat, v: Page, d: nat, w: Word)
    requires d < 3 && Reach(mem, root, v, d).At?
    requires var t := Reach(mem, root, v, d).table; t < |mem| && mem[t][Slot(v, 3 - d)] == w
    requires Points(w, d) && w.address < |mem| && mem[w.address] == ZeroTable()
    ensures Walk(mem, root, v).Fault?
  {
    assert Reach(mem, root, v, d + 1).At?;
    assert Reach(mem, root, v, d + 2).Fault?;
    FaultStays(mem, root, v, d + 2, 4);
  }

  lemma {:induction false} FaultStays(mem: Mem, root: nat, v: Page, depth: nat, later: nat)
    requires depth <= later <= 4 && Reach(mem, root, v, depth).Fault?
    ensures Reach(mem, root, v, later).Fault?
  {
    if depth < later {
      FaultStays(mem, root, v, depth, later - 1);
    }
  }

  ghost predicate CanGrow(mem: Mem, root: nat, tables: Tables, p: Path, i: nat, w: Word) {
    && Tree(mem, root, tables) && p in tables && Depth(p) < 3 && i < 512
    && !mem[tables[p]][i].present
    && Points(w, Depth(p)) && w.address < |mem| && w.address !in tables.Values
    && mem[w.address] == ZeroTable()
  }

  lemma GrowTree(mem: Mem, root: nat, tables: Tables, p: Path, i: nat, w: Word)
    requires CanGrow(mem, root, tables, p, i, w) && Down(p, i) !in tables
    ensures Tree(SetEntry(mem, tables[p], i, w), root, tables[Down(p, i) := w.address])
  {
    assert forall r :: r in tables ==> tables[r] in tables.Values;
    GrowLinks(mem, root, tables, p, i, w);
    GrowClosed(mem, root, tables, p, i, w);
  }

  lemma GrowLinks(mem: Mem, root: nat, tables: Tables, p: Path, i: nat, w: Word)
    requires CanGrow(mem, root, tables, p, i, w) && Down(p, i) !in tables
    ensures AllLinked(SetEntry(mem, tables[p], i, w), tables[Down(p, i) := w.address])
  {
    hide Points, Closed;
    var mem' := SetEntry(mem, tables[p], i, w);
    var q := Down(p, i);
    var tables' := tables[q := w.address];
    forall r | r in tables' && r.Down? ensures Linked(mem', tables', r) {
      if r != q {
        assert Linked(mem, tables, r);
        assert r.up in tables;
      }
    }
  }

  lemma GrowClosed(mem: Mem, root: nat, tables: Tables, p: Path, i: nat, w: Word)
    requires CanGrow(mem, root, tables, p, i, w) && Down(p, i) !in tables
    ensures Closed(SetEntry(mem, tables[p], i, w), tables[Down(p, i) := w.address])
  {
    hide AllLinked;
    var mem' := SetEntry(mem, tables[p], i, w);
    var tables' := tables[Down(p, i) := w.address];
    forall r, j | r in tables' && 0 <= j < 512 && Points(mem'[tables'[r]][j], Depth(r)) ensures Down(r, j) in tables' {
      if r in tables && !(r == p && j == i) {
        assert tables[r] in tables.Values;
        assert mem'[tables[r]][j] == mem[tables[r]][j];
      }
    }
  }

  /** A store to the last-level entry of `v` decides the translation of `v` and of no other page. */
  lemma SetLeaf(mem: Mem, root: nat, tables: Tables, v: Page, w: Word)
    requires Tree(mem, root, tables) && PathTo(v, 3) in tables
    ensures var mem' := SetEntry(mem, tables[PathTo(v, 3)], Slot(v, 0), w);
      && Tree(mem', root, tables)
      && Reach(mem, root, v, 3).At?
      && (Walk(mem', root, v) ==
          if w.present then Mapped(w.address, Meet(Reach(mem, root, v, 3).perm, EntryPerm(w))) else Fault)
      && (forall u: Page :: u != v ==> Walk(mem', root, u) == Walk(mem, root, u))
      && (forall u: Page :: Reach(mem', root, u, 3) == Reach(mem, root, u, 3))
  {
    var p := PathTo(v, 3);
    var mem' := SetEntry(mem, tables[p], Slot(v, 0), w);
    ReachTree(mem, root, tables, v, 3);
    forall u: Page ensures Reach(mem', root, u, 3) == Reach(mem, root, u, 3) {
      EntryFrame(mem, root, tables, p, Slot(v, 0), w, u, 3);
    }
    forall u: Page | u != v ensures Walk(mem', root, u) == Walk(mem, root, u) {
      if PathTo(u, 3) == p && Slot(u, 0) == Slot(v, 0) {
        PathSlots(u, v);
        assert false;
      }
      EntryFrame(mem, root, tables, p, Slot(v, 0), w, u, 4);
    }
    forall r | r in tables && r.Down? ensures Linked(mem', tables, r) {
      assert Linked(mem, tables, r);
      assert r.up != p;
    }
    forall r, j | r in tables && 0 <= j < 512 && Points(mem'[tables[r]][j], Depth(r)) ensures Down(r, j) in tables {
      assert r != p;
      assert mem'[tables[r]] == mem[tables[r]];
    }
  }

  /** Equal positions at the last level and equal last slots are the same page. */
  lemma PathSlots(u: Page, v: Page)
    requires PathTo(u, 3) == PathTo(v, 3) && Slot(u, 0) == Slot(v, 0)
    ensures u == v
  {
    assert PathTo(u, 3).slot == Slot(u, 1) && PathTo(v, 3).slot == Slot(v, 1);
    assert PathTo(u, 2).slot == Slot(u, 2) && PathTo(v, 2).slot == Slot(v, 2);
    assert PathTo(u, 1).slot == Slot(u, 3) && PathTo(v, 1).slot == Slot(v, 3);
    SlotsDetermine(u, v);
  }
}
