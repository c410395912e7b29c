/** What the teardown of the lower half leaves behind absent root entries, for `vm_map` to uncover. */
module StaleWalks {
  import opened Digits
  import opened Words
  import opened PageTable
  import opened Ledger
  import opened FreeList
  import opened Space
  import opened MapSteps
  import opened MapStores
  import opened Mapping
  import opened Torn
  import opened HalfWritten

  // ---- links are absent entries ----

  lemma FirstBit(w: Word)
    ensures Encode(w) % 2 == Bit(w.present)
  {
    var bits := Slice(w, 0, 64);
    assert bits[0] == BitAt(w, 0) == Bit(w.present);
    LowDigit(bits);
  }

  lemma LowDigit(bits: seq<nat>)
    requires bits != [] && AreDigits(bits, 2)
    ensures Field(bits) % 2 == bits[0]
  {
    DivideOut(bits[0], 2, Value(bits[1..], 2));
  }

  /** The link in a free frame, read as an entry, is not present: addresses of frames are even. */
  lemma LinkAbsent(s: Snapshot, root: nat, hhdm: nat, f: nat)
    requires SoundAt(s, root, hhdm) && f in s.books.free
    ensures f < |s.mem| && !s.mem[f][0].present
  {
    hide Walk, Tree, Balanced, PagesMapped, Encode, Power;
    var k :| 0 <= k < |s.books.free| && s.books.free[k] == f;
    EvenHead(hhdm, s.books.free[k + 1..]);
    FirstBit(s.mem[f][0]);
  }

  lemma Even(n: nat)
    ensures 2 * n % 2 == 0
  {
  }

  lemma EvenHead(hhdm: nat, fs: seq<nat>)
    requires hhdm % 4096 == 0
    ensures Head(hhdm, fs) % 2 == 0
  {
    if fs != [] {
      var q := hhdm / 4096;
      assert hhdm == 4096 * q;
      Even(2048 * q + 2048 * fs[0]);
    }
  }

  // ---- walking down a mapped page ----

  /** The page is mapped by an entry of a last-level table. */
  ghost predicate InTables(s: Snapshot, root: nat, u: Page) {
    PathTo(u, 3) in s.books.tables && Walk(s.mem, root, u).Mapped?
  }

  /** The entry at depth d on the way to `u` refers to the next table, the last one to the frame. */
  lemma OnTheWay(s: Snapshot, root: nat, hhdm: nat, u: Page, d: nat)
    requires SoundAt(s, root, hhdm) && InTables(s, root, u) && d <= 3
    ensures PathTo(u, d) in s.books.tables && s.books.tables[PathTo(u, d)] < |s.mem|
    ensures var e := EntryAt(s, u, d);
      if d < 3 then Points(e, d) && PathTo(u, d + 1) in s.books.tables && e.address == s.books.tables[PathTo(u, d + 1)]
      else e.present && e.address == Walk(s.mem, root, u).frame
  {
    hide Chain, Balanced, Machine, PagesMapped, Closed;
    PrefixIn(s.mem, root, s.books.tables, u, d, 3);
    if d < 3 {
      PrefixIn(s.mem, root, s.books.tables, u, d + 1, 3);
      assert Linked(s.mem, s.books.tables, PathTo(u, d + 1));
    } else {
      ReachTree(s.mem, root, s.books.tables, u, 3);
    }
  }

  // ---- after the teardown ----

  /** s is the state after the lower half of s0 has been torn down. */
  ghost predicate After(s0: Snapshot, s: Snapshot, root: nat, hhdm: nat) {
    && SoundAt(s0, root, hhdm) && SoundAt(s, root, hhdm)
    && Next(s0.books, Op.Teardown, s.books) && IsTorn(s0, s, root)
  }

  /** Some root entry of the lower half above that of `u` has a table, so that the frame freed last is
      none of the tables on the way to `u`. */
  ghost predicate TableAbove(s0: Snapshot, u: Page, b: nat) {
    Slot(u, 3) < b < 256 && Down(Top, b) in s0.books.tables
  }

  lemma {:induction false} HighestAbove(tables: Tables, b: nat, n: nat) returns (h: nat)
    requires b < n && Down(Top, b) in tables
    ensures Highest(tables, h, n) && h >= b
    decreases n
  {
    if Down(Top, n - 1) in tables {
      h := n - 1;
    } else {
      h := HighestAbove(tables, b, n - 1);
    }
  }

  /** The tables on the way to `u` are free now, but none of them is the next to be taken. */
  lemma FreedTables(s0: Snapshot, s: Snapshot, root: nat, hhdm: nat, u: Page, b: nat, d: nat)
    requires After(s0, s, root, hhdm) && InTables(s0, root, u) && TableAbove(s0, u, b) && 1 <= d <= 3
    ensures PathTo(u, d) in s0.books.tables && s.books.free != []
    ensures var t := s0.books.tables[PathTo(u, d)];
      t != root && t in s.books.free && t != s.books.free[0] && t < |s.mem|
    ensures s.books.free[0] != root
  {
    hide Walk, Chain, Machine, PagesMapped, Balanced, AllLinked, Closed, Slot, First;
    OnTheWay(s0, root, hhdm, u, d);
    var h := HighestAbove(s0.books.tables, b, 256);
    FirstTop(h);
    var p := PathTo(u, d);
    assert p != Down(Top, h) && p != Top;
    var freed: seq<nat> :| NoDuplicates(freed) && Members(freed) == LowerTables(s0.books)
      && s.books == TornBooks(s0.books, freed);
    assert LowerPath(p);
    assert s0.books.tables[p] in LowerTables(s0.books);
    assert s0.books.tables[p] in freed;
  }

  lemma FirstTop(h: nat)
    ensures First(Down(Top, h)) == h && Down(Top, h) != Top
  {
  }

  /** The root entry of `u`, absent now, still has the address of the table below, and it is the entry
      that mapping `v` marks present. */
  lemma OldAddress(s0: Snapshot, s: Snapshot, root: nat, hhdm: nat, u: Page, v: Page)
    requires After(s0, s, root, hhdm) && InTables(s0, root, u) && Slot(u, 3) == Slot(v, 3) < 256
    requires Missing(s.books.tables, v, 3) < |s.books.free|
    ensures Fills(s, v, 0) && SharesEntry(u, v, 0)
    ensures PathTo(u, 1) in s0.books.tables && AbsentAt(s, v, 0).address == s0.books.tables[PathTo(u, 1)]
    ensures TableAt(s.books, v, 0) == root < |s.mem|
  {
    hide Walk, Chain, Machine, PagesMapped, Balanced, AllLinked, Closed, Slot, LastFreed;
    OnTheWay(s0, root, hhdm, u, 0);
    var freed: seq<nat> :| NoDuplicates(freed) && Members(freed) == LowerTables(s0.books)
      && s.books == TornBooks(s0.books, freed);
    assert LowerPath(PathTo(v, 1));
  }

  /** Below the root entry, the half-written memory has the entries of the old tables, but for their first. */
  lemma HalfEntry(s0: Snapshot, s: Snapshot, root: nat, hhdm: nat, u: Page, v: Page, b: nat, d: nat)
    requires After(s0, s, root, hhdm) && InTables(s0, root, u) && TableAbove(s0, u, b) && 1 <= d <= 3
    requires Slot(u, 3) == Slot(v, 3) && Missing(s.books.tables, v, 3) < |s.books.free|
    ensures PathTo(u, d) in s0.books.tables && s0.books.tables[PathTo(u, d)] < |HalfAt(s, v, 0)| == |s0.mem|
    ensures var e := HalfAt(s, v, 0)[s0.books.tables[PathTo(u, d)]][Slot(u, 3 - d)];
      if Slot(u, 3 - d) > 0 then e == EntryAt(s0, u, d) else !e.present
  {
    hide Walk, Sound, Slot, LastFreed, Next, HalfAt, AbsentAt, Fills, SharesEntry, TableAt;
    OnTheWay(s0, root, hhdm, u, d);
    OldAddress(s0, s, root, hhdm, u, v);
    FreedTables(s0, s, root, hhdm, u, b, d);
    var t := s0.books.tables[PathTo(u, d)];
    LinkAbsent(s, root, hhdm, t);
    TakenSound(s, root, hhdm);
    HalfSame(s, v, t);
  }

  /** Frames that are neither the table nor the frame taken are as they were. */
  lemma HalfSame(s: Snapshot, v: Page, t: nat)
    requires Missing(s.books.tables, v, 3) < |s.books.free| && s.books.free[0] < 0x8_0000_0000_0000
    requires t < |s.mem| && t != s.books.free[0] && t != TableAt(s.books, v, 0)
    ensures |HalfAt(s, v, 0)| == |s.mem| && HalfAt(s, v, 0)[t] == s.mem[t]
  {
    hide AbsentAt, Marked, TableAt;
    assert FrameAt(s.books, v, 0) == s.books.free[0];
    assert MemAt(s, v, 0) == s.mem;
  }

  /** Mapping any other page below the same root entry makes `u` translate to its old frame for a moment,
      exactly if no link has been stored over an entry on the way. */
  lemma StaleExactly(s0: Snapshot, s: Snapshot, root: nat, hhdm: nat, u: Page, v: Page, b: nat)
    requires After(s0, s, root, hhdm) && InTables(s0, root, u) && TableAbove(s0, u, b)
    requires Slot(u, 3) == Slot(v, 3) && u != v && Missing(s.books.tables, v, 3) < |s.books.free|
    ensures Stale(s, v, 0, u) <==> Slot(u, 2) > 0 && Slot(u, 1) > 0 && Slot(u, 0) > 0
    ensures Stale(s, v, 0, u) ==>
      Behind(HalfAt(s, v, 0), AbsentAt(s, v, 0).address, u, 1) == Some(Walk(s0.mem, root, u).frame)
  {
    hide Walk, SoundAt, Slot, IsTorn, HalfAt, AbsentAt, Fills, SharesEntry, TableAt, Next;
    OldAddress(s0, s, root, hhdm, u, v);
    HalfEntry(s0, s, root, hhdm, u, v, b, 1);
    HalfEntry(s0, s, root, hhdm, u, v, b, 2);
    HalfEntry(s0, s, root, hhdm, u, v, b, 3);
    OnTheWay(s0, root, hhdm, u, 1);
    OnTheWay(s0, root, hhdm, u, 2);
    OnTheWay(s0, root, hhdm, u, 3);
    hide Behind;
    OneLevel(HalfAt(s, v, 0), u, s0.books.tables[PathTo(u, 1)], 1);
    OneLevel(HalfAt(s, v, 0), u, s0.books.tables[PathTo(u, 2)], 2);
    OneLevel(HalfAt(s, v, 0), u, s0.books.tables[PathTo(u, 3)], 3);
  }

  /** One step of a walk. */
  lemma OneLevel(mem: Mem, u: Page, t: nat, d: nat)
    requires 1 <= d <= 3 && t < |mem|
    ensures var e := mem[t][Slot(u, 3 - d)];
      Behind(mem, t, u, d) ==
      if !e.present then None
      else if d == 3 then Some(e.address)
      else if Points(e, d) then Behind(mem, e.address, u, d + 1)
      else Some(HugeFrame(e.address, u, d))
  {
  }
}
