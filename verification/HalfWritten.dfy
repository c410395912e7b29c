/** Walks that fall between the stores of `vm_map`: an entry is marked present before its address is
    stored, and until then it refers to whatever frame its old address names. */
module HalfWritten {
  import opened Words
  import opened PageTable
  import opened TableUpdates
  import opened Ledger
  import opened FreeList
  import opened Space
  import opened MapSteps
  import opened MapStores
  import opened UserHalf
  import opened Mapping
  import opened Caches

  // ---- walks, without their permissions ----

  /** The frame of page `u`, if a walk that stands at table t translates it. */
  function Behind(mem: Mem, t: nat, u: Page, depth: nat): Option<nat>
    requires depth < 4
    decreases 4 - depth
  {
    if t >= |mem| then None
    else
      var e := mem[t][Slot(u, 3 - depth)];
      if !e.present then None
      else if depth == 3 then Some(e.address)
      else if Points(e, depth) then Behind(mem, e.address, u, depth + 1)
      else Some(HugeFrame(e.address, u, depth))
  }

  lemma {:induction false} MappedStays(mem: Mem, root: nat, v: Page, depth: nat, later: nat)
    requires depth <= later <= 4 && Reach(mem, root, v, depth).Mapped?
    ensures Reach(mem, root, v, later) == Reach(mem, root, v, depth)
  {
    if depth < later {
      MappedStays(mem, root, v, depth, later - 1);
    }
  }

  lemma {:induction false} WalkBehind(mem: Mem, root: nat, u: Page, depth: nat)
    requires depth < 4 && Reach(mem, root, u, depth).At?
    ensures var found := Behind(mem, Reach(mem, root, u, depth).table, u, depth);
      && Walk(mem, root, u).Mapped? == found.Some?
      && (found.Some? ==> Walk(mem, root, u).frame == found.value)
    decreases 4 - depth
  {
    var c := Reach(mem, root, u, depth + 1);
    if c.At? && depth < 3 {
      WalkBehind(mem, root, u, depth + 1);
    } else if c.Fault? {
      FaultStays(mem, root, u, depth + 1, 4);
    } else {
      MappedStays(mem, root, u, depth + 1, 4);
    }
  }

  /** The same, but for permissions. */
  predicate Alike(e: Word, e': Word) {
    e.present == e'.present && e.pageSize == e'.pageSize && e.address == e'.address
  }

  lemma {:induction false} BehindAlike(mem: Mem, mem': Mem, t: nat, u: Page, depth: nat)
    requires depth < 4 && |mem| == |mem'|
    requires forall f, j :: 0 <= f < |mem| && 0 <= j < 512 ==> Alike(mem[f][j], mem'[f][j])
    ensures Behind(mem, t, u, depth) == Behind(mem', t, u, depth)
    decreases 4 - depth
  {
    if t < |mem| {
      var j := Slot(u, 3 - depth);
      assert Alike(mem[t][j], mem'[t][j]);
      if depth < 3 {
        BehindAlike(mem, mem', mem[t][j].address, u, depth + 1);
      }
    }
  }

  // ---- one entry, half written ----

  /** The walk for `u` reads the entry that the walk for `v` reads at depth d. */
  predicate SharesEntry(u: Page, v: Page, d: nat)
    requires d <= 3
  {
    PathTo(u, d) == PathTo(v, d) && Slot(u, 3 - d) == Slot(v, 3 - d)
  }

  /** An absent entry of a tree, on the path to `v`. */
  ghost predicate Gap(mem: Mem, root: nat, tables: Tables, v: Page, d: nat) {
    && d <= 3 && Tree(mem, root, tables) && PathTo(v, d) in tables
    && !mem[tables[PathTo(v, d)]][Slot(v, 3 - d)].present
    && (0 < d < 3 ==> !mem[tables[PathTo(v, d)]][Slot(v, 3 - d)].pageSize)
  }

  /** Walks that do not read the entry do not notice. */
  lemma Beside(mem: Mem, root: nat, tables: Tables, v: Page, d: nat, w: Word, u: Page)
    requires Gap(mem, root, tables, v, d) && !SharesEntry(u, v, d)
    ensures Walk(SetEntry(mem, tables[PathTo(v, d)], Slot(v, 3 - d), w), root, u) == Walk(mem, root, u)
  {
    EntryFrame(mem, root, tables, PathTo(v, d), Slot(v, 3 - d), w, u, 4);
  }

  /** Walks that do read it failed before. */
  lemma FaultBefore(mem: Mem, root: nat, tables: Tables, v: Page, d: nat, u: Page)
    requires Gap(mem, root, tables, v, d) && SharesEntry(u, v, d)
    ensures Walk(mem, root, u).Fault?
  {
    ReachTree(mem, root, tables, u, d);
    assert Reach(mem, root, u, d + 1).Fault?;
    FaultStays(mem, root, u, d + 1, 4);
  }

  /** They go on at the frame that the entry's address names. */
  lemma GoesBehind(mem: Mem, root: nat, tables: Tables, v: Page, d: nat, w: Word, u: Page)
    requires Gap(mem, root, tables, v, d) && d < 3 && SharesEntry(u, v, d) && Points(w, d)
    ensures var mem' := SetEntry(mem, tables[PathTo(v, d)], Slot(v, 3 - d), w);
      var found := Behind(mem', w.address, u, d + 1);
      && Walk(mem', root, u).Mapped? == found.Some?
      && (found.Some? ==> Walk(mem', root, u).frame == found.value)
  {
    var mem' := SetEntry(mem, tables[PathTo(v, d)], Slot(v, 3 - d), w);
    ReachTree(mem, root, tables, u, d);
    EntryFrame(mem, root, tables, PathTo(v, d), Slot(v, 3 - d), w, u, d);
    assert Reach(mem', root, u, d + 1).At?;
    WalkBehind(mem', root, u, d + 1);
  }

  /** Which permissions have been stored makes no difference to what translates. */
  lemma StagesAlike(mem: Mem, t: nat, i: nat, e: Word, k: nat, a: nat, u: Page, depth: nat)
    requires t < |mem| && i < 512 && 1 <= k <= 3 && depth < 4
    ensures Behind(SetEntry(mem, t, i, Stage(e, k)), a, u, depth) ==
            Behind(SetEntry(mem, t, i, Stage(e, 1)), a, u, depth)
  {
    BehindAlike(SetEntry(mem, t, i, Stage(e, k)), SetEntry(mem, t, i, Stage(e, 1)), a, u, depth);
  }

  // ---- the levels of one call ----

  /** The page can be mapped. */
  ghost predicate Mappable(s: Snapshot, root: nat, hhdm: nat, v: Page) {
    && SoundAt(s, root, hhdm) && NoHuge(s.mem, s.books.tables, v)
    && Walk(s.mem, root, v).Fault? && Missing(s.books.tables, v, 3) < |s.books.free|
  }

  /** The state after a frame has been taken and cleared. */
  function Taken(s: Snapshot): Snapshot
    requires s.books.free != [] && s.books.free[0] < |s.mem|
  {
    var f := s.books.free[0];
    Snapshot(s.mem[f := ZeroTable()], Encode(s.mem[f][0]),
             s.books.(free := s.books.free[1..], owned := s.books.owned + {f}))
  }

  lemma TakenSound(s: Snapshot, root: nat, hhdm: nat)
    requires SoundAt(s, root, hhdm) && s.books.free != []
    ensures s.books.free[0] < |s.mem| && s.books.free[0] < 0x8_0000_0000_0000
    ensures SoundAt(Taken(s), root, hhdm) && Took(s, Taken(s)) && SameWalks(s.mem, Taken(s).mem, root)
  {
    hide Sound, SameWalks, Encode;
    var f := s.books.free[0];
    AllocKeepsSound(s.mem, root, hhdm, s.freeList, s.books);
    FrameFits(s.mem, root, hhdm, s.freeList, s.books, f);
    OwnedOverwrite(s.mem, root, hhdm, Encode(s.mem[f][0]),
                   s.books.(free := s.books.free[1..], owned := s.books.owned + {f}), f, ZeroTable());
  }

  /** The state when the first d tables on the path to `v` are there. */
  lemma {:induction false} Reached(s: Snapshot, root: nat, hhdm: nat, v: Page, d: nat) returns (m: Snapshot)
    requires Mappable(s, root, hhdm, v) && d <= 3
    ensures SoundAt(m, root, hhdm) && Descended(s, m, root, v, d)
  {
    hide Sound, Walk, NoHuge, Descended, Grown, Missing;
    if d == 0 {
      Start(s, root, hhdm, v);
      m := s;
    } else {
      m := Reached(s, root, hhdm, v, d - 1);
      if PathTo(v, d) in s.books.tables {
        TablePresent(s, m, root, hhdm, v, d - 1);
      } else {
        m := TableHung(s, m, root, hhdm, v, d - 1);
      }
    }
  }

  /** A table that is there already. */
  lemma TablePresent(s: Snapshot, m: Snapshot, root: nat, hhdm: nat, v: Page, d: nat)
    requires Mappable(s, root, hhdm, v) && d < 3 && PathTo(v, d + 1) in s.books.tables
    requires SoundAt(m, root, hhdm) && Descended(s, m, root, v, d)
    ensures Descended(s, m, root, v, d + 1)
  {
    hide Sound, Walk, NoHuge, Descended, MemAt;
    DescendedTable(s, m, root, hhdm, v, d);
    DescendedFacts(s, m, root, v, d);
    EntryThere(m, root, hhdm, v, d);
    DescendPresent(s, m, root, hhdm, v, d);
  }

  /** The entry at depth d is present exactly if the tree has the table below it. */
  lemma EntryThere(s: Snapshot, root: nat, hhdm: nat, v: Page, d: nat)
    requires SoundAt(s, root, hhdm) && d < 3 && PathTo(v, d) in s.books.tables
    requires s.books.tables[PathTo(v, d)] < |s.mem|
    ensures PathTo(v, d + 1) in s.books.tables ==> EntryAt(s, v, d).present
    ensures NoHuge(s.mem, s.books.tables, v) && EntryAt(s, v, d).present ==> PathTo(v, d + 1) in s.books.tables
    ensures NoHuge(s.mem, s.books.tables, v) && d > 0 ==> !EntryAt(s, v, d).pageSize
  {
    hide Chain, Machine, Balanced, PagesMapped;
    if PathTo(v, d + 1) in s.books.tables {
      assert Linked(s.mem, s.books.tables, PathTo(v, d + 1));
    }
    if NoHuge(s.mem, s.books.tables, v) && EntryAt(s, v, d).present {
      assert Points(EntryAt(s, v, d), d);
    }
  }

  lemma DescendedFacts(s0: Snapshot, s: Snapshot, root: nat, v: Page, d: nat)
    requires Descended(s0, s, root, v, d) && Missing(s0.books.tables, v, 3) < |s0.books.free|
    ensures Climbed(s0, s, root, v, d) && SameWalks(s0.mem, s.mem, root) && NoHuge(s.mem, s.books.tables, v)
    ensures s.mem == MemAt(s0, v, d) && s.books == Grown(s0.books, v, d)
    ensures s.books.free != [] && s.books.free[0] in s0.books.free
  {
    hide NoHuge, SameWalks, Grown, MemAt, Untouched, OpenHalf;
    ClimbFree(s0, s, root, v, d);
  }

  /** One more table. */
  lemma TableHung(s: Snapshot, m: Snapshot, root: nat, hhdm: nat, v: Page, d: nat) returns (m2: Snapshot)
    requires Mappable(s, root, hhdm, v) && d < 3 && PathTo(v, d + 1) !in s.books.tables
    requires SoundAt(m, root, hhdm) && Descended(s, m, root, v, d)
    ensures SoundAt(m2, root, hhdm) && Descended(s, m2, root, v, d + 1)
  {
    hide Sound, Walk, NoHuge, Descended, MemAt, Grown, Missing, SameWalks, Climbed, Open;
    DescendedTable(s, m, root, hhdm, v, d);
    DescendedFacts(s, m, root, v, d);
    EntryThere(m, root, hhdm, v, d);
    DeeperUnchanged(s, m, root, v, d);
    TakenSound(m, root, hhdm);
    var s1 := Taken(m);
    var w := Open(EntryAt(m, v, d)).(address := m.books.free[0]);
    m2 := Snapshot(SetEntry(s1.mem, s1.books.tables[PathTo(v, d)], Slot(v, 3 - d), w), s1.freeList,
        s1.books.(tables := s1.books.tables[PathTo(v, d + 1) := w.address], owned := s1.books.owned - {w.address}));
    DescendHang(s, m, s1, m2, root, hhdm, v, d, w);
  }

  // ---- what a walk finds between the stores ----

  /** Is there an absent entry at this depth, for `vm_map` to fill? */
  predicate Fills(s: Snapshot, v: Page, d: nat) {
    d == 3 || (d < 3 && PathTo(v, d + 1) !in s.books.tables)
  }

  /** Memory when the entry at depth d has been marked present. */
  function HalfAt(s: Snapshot, v: Page, d: nat): Mem
    requires d <= 3 && Missing(s.books.tables, v, 3) < |s.books.free|
  {
    MissingMonotone(s.books.tables, v);
    Put(ZeroedAt(s, v, d), TableAt(s.books, v, d), Slot(v, 3 - d), Stage(AbsentAt(s, v, d), 1))
  }

  /** Mapping `v` makes page `u` translate for a moment: the old address of the absent entry at depth d
      names a frame behind which a walk for `u` succeeds. */
  predicate Stale(s: Snapshot, v: Page, d: nat, u: Page)
    requires Missing(s.books.tables, v, 3) < |s.books.free|
  {
    MissingMonotone(s.books.tables, v);
    d < 3 && Fills(s, v, d) && u != v && SharesEntry(u, v, d) &&
    Behind(HalfAt(s, v, d), AbsentAt(s, v, d).address, u, d + 1).Some?
  }

  lemma LevelGap(s: Snapshot, root: nat, hhdm: nat, v: Page, d: nat)
    requires Mappable(s, root, hhdm, v) && d <= 3 && Fills(s, v, d)
    ensures Missing(s.books.tables, v, d) < |s.books.free|
    ensures var tables := Grown(s.books, v, d).tables;
      && Gap(ZeroedAt(s, v, d), root, tables, v, d) && SameWalks(s.mem, ZeroedAt(s, v, d), root)
      && TableAt(s.books, v, d) == tables[PathTo(v, d)]
      && AbsentAt(s, v, d) == ZeroedAt(s, v, d)[tables[PathTo(v, d)]][Slot(v, 3 - d)]
      && FrameAt(s.books, v, d) < |s.mem| && FrameAt(s.books, v, d) !in tables.Values
      && ZeroedAt(s, v, d)[FrameAt(s.books, v, d)] == ZeroTable()
  {
    hide Sound, Walk, NoHuge, Descended, MemAt, Grown, Missing, SameWalks, Climbed, Gap, ZeroTable;
    MissingMonotone(s.books.tables, v);
    var m := Reached(s, root, hhdm, v, d);
    DescendedTable(s, m, root, hhdm, v, d);
    DescendedFacts(s, m, root, v, d);
    TakenSound(m, root, hhdm);
    AbsentThere(s, m, root, hhdm, v, d);
    TakenGap(m, root, hhdm, v, d);
    SameBoth(s.mem, m.mem, Taken(m).mem, root);
    ZeroedTaken(s, m, v, d);
  }

  lemma TakenGap(s: Snapshot, root: nat, hhdm: nat, v: Page, d: nat)
    requires SoundAt(s, root, hhdm) && d <= 3 && s.books.free != [] && s.books.free[0] < |s.mem|
    requires SoundAt(Taken(s), root, hhdm)
    requires PathTo(v, d) in s.books.tables && s.books.tables[PathTo(v, d)] < |s.mem|
    requires !EntryAt(s, v, d).present && (0 < d < 3 ==> !EntryAt(s, v, d).pageSize)
    ensures Gap(Taken(s).mem, root, s.books.tables, v, d) && s.books.free[0] !in s.books.tables.Values
    ensures Taken(s).mem[s.books.tables[PathTo(v, d)]] == s.mem[s.books.tables[PathTo(v, d)]]
    ensures Taken(s).mem[s.books.free[0]] == ZeroTable()
  {
    hide Sound, Walk, Tree, ZeroTable;
    SoundTree(Taken(s), root, hhdm);
    SoundBalanced(s, root, hhdm);
    TablesApart(s.books, PathTo(v, d));
    FreeApart(s.books);
  }

  lemma ZeroedTaken(s: Snapshot, m: Snapshot, v: Page, d: nat)
    requires d <= 3 && Missing(s.books.tables, v, d) < |s.books.free|
    requires m.mem == MemAt(s, v, d) && m.books == Grown(s.books, v, d)
    requires m.books.free != [] && m.books.free[0] < |m.mem| && m.books.free[0] < 0x8_0000_0000_0000
    requires PathTo(v, d) in m.books.tables && m.books.tables[PathTo(v, d)] < |m.mem|
    ensures ZeroedAt(s, v, d) == Taken(m).mem && FrameAt(s.books, v, d) == m.books.free[0]
    ensures TableAt(s.books, v, d) == m.books.tables[PathTo(v, d)] && AbsentAt(s, v, d) == EntryAt(m, v, d)
  {
    hide MemAt, Grown, Missing, ZeroTable, Encode;
  }

  lemma FreeApart(b: Books)
    requires Balanced(b) && b.free != []
    ensures b.free[0] !in b.tables.Values && b.free[0] in b.free
  {
    assert b.free[0] in Members(b.free);
  }

  lemma AbsentThere(s0: Snapshot, s: Snapshot, root: nat, hhdm: nat, v: Page, d: nat)
    requires Mappable(s0, root, hhdm, v) && d <= 3 && Fills(s0, v, d)
    requires SoundAt(s, root, hhdm) && Descended(s0, s, root, v, d)
    requires PathTo(v, d) in s.books.tables && s.books.tables[PathTo(v, d)] < |s.mem|
    ensures !EntryAt(s, v, d).present && (0 < d < 3 ==> !EntryAt(s, v, d).pageSize)
  {
    hide Sound, Walk, NoHuge, Descended, MemAt, Grown, Missing, Climbed;
    DescendedFacts(s0, s, root, v, d);
    if d < 3 {
      EntryThere(s, root, hhdm, v, d);
      DeeperUnchanged(s0, s, root, v, d);
    } else {
      SoundTree(s, root, hhdm);
      LeafPresent(s, root, v);
    }
  }

  lemma LeafPresent(s: Snapshot, root: nat, v: Page)
    requires Tree(s.mem, root, s.books.tables) && PathTo(v, 3) in s.books.tables
    ensures EntryAt(s, v, 3).present ==> Walk(s.mem, root, v).Mapped?
  {
    ReachTree(s.mem, root, s.books.tables, v, 3);
  }

  /** The word that store number k at depth d leaves in the entry. */
  function StoreOf(e: Word, d: nat, k: nat, f: Bits51, perm: Perm): Word {
    if k < 3 then Stage(e, k + 1)
    else if d < 3 then Open(e).(address := f)
    else if k == 3 then LeafWritable(e, perm)
    else if k == 4 then LeafUser(e, perm)
    else if k == 5 then Leaf(e, perm)
    else Leaf(e, perm).(address := f)
  }

  lemma StoredWord(s: Snapshot, root: nat, hhdm: nat, v: Page, d: nat, perm: Perm, k: nat)
    requires Mappable(s, root, hhdm, v) && d <= 3 && k < |LevelStores(s, v, d, perm)|
    ensures Missing(s.books.tables, v, d) < |s.books.free|
    ensures Fills(s, v, d) && k < (if d == 3 then 7 else 4)
    ensures LevelStores(s, v, d, perm)[k] == Put(ZeroedAt(s, v, d), TableAt(s.books, v, d), Slot(v, 3 - d),
      StoreOf(AbsentAt(s, v, d), d, k, FrameAt(s.books, v, d), perm))
  {
    hide Walk, MemAt, Grown, Missing, SoundAt, NoHuge, Put, AbsentAt, TableAt, FrameAt, ZeroedAt, Marked, Opened,
         Open, LeafWritable, LeafUser, Leaf;
    MissingMonotone(s.books.tables, v);
  }

  lemma GapIn(mem: Mem, root: nat, tables: Tables, v: Page, d: nat)
    requires Gap(mem, root, tables, v, d)
    ensures d <= 3 && PathTo(v, d) in tables && tables[PathTo(v, d)] < |mem|
  {
  }

  lemma StagePoints(e: Word, d: nat, k: nat, f: Bits51)
    requires d < 3 && (d > 0 ==> !e.pageSize)
    ensures 1 <= k <= 3 ==> Points(Stage(e, k), d) && Stage(e, k).address == e.address
    ensures Points(Open(e).(address := f), d)
  {
    hide Marked, Opened, Open;
  }

  /** A walk through the entry finds nothing, or what is behind its old address until the new one is stored. */
  lemma SharedStore(z: Mem, root: nat, tables: Tables, v: Page, d: nat, perm: Perm, k: nat, f: Bits51, u: Page)
    requires Gap(z, root, tables, v, d) && d < 3 && k < 4 && SharesEntry(u, v, d)
    requires f < |z| && f !in tables.Values && z[f] == ZeroTable()
    ensures tables[PathTo(v, d)] < |z|
    ensures var t, i := tables[PathTo(v, d)], Slot(v, 3 - d); var e := z[t][i];
      Walk(SetEntry(z, t, i, StoreOf(e, d, k, f, perm)), root, u).Mapped? <==>
      k < 3 && Behind(SetEntry(z, t, i, Stage(e, 1)), e.address, u, d + 1).Some?
  {
    GapIn(z, root, tables, v, d);
    StagePoints(z[tables[PathTo(v, d)]][Slot(v, 3 - d)], d, k + 1, f);
    hide Walk, Behind, Tree, SetEntry, Stage, Open, Points;
    var t, i := tables[PathTo(v, d)], Slot(v, 3 - d);
    var e := z[t][i];
    if k < 3 {
      GoesBehind(z, root, tables, v, d, Stage(e, k + 1), u);
      StagesAlike(z, t, i, e, k + 1, e.address, u, d + 1);
    } else {
      assert t in tables.Values;
      WalksIntoZero(z, root, tables, v, d, Open(e).(address := f), u);
    }
  }

  lemma WalksIntoZero(z: Mem, root: nat, tables: Tables, v: Page, d: nat, w: Word, u: Page)
    requires Gap(z, root, tables, v, d) && d < 3 && SharesEntry(u, v, d) && Points(w, d)
    requires w.address < |z| && w.address != tables[PathTo(v, d)] && z[w.address] == ZeroTable()
    ensures Walk(SetEntry(z, tables[PathTo(v, d)], Slot(v, 3 - d), w), root, u).Fault?
  {
    var mem' := SetEntry(z, tables[PathTo(v, d)], Slot(v, 3 - d), w);
    ReachTree(z, root, tables, u, d);
    EntryFrame(z, root, tables, PathTo(v, d), Slot(v, 3 - d), w, u, d);
    FaultBelow(mem', root, u, d, w);
  }

  /** What page `u` translates to after store number k at depth d. */
  lemma StoreWalk(s: Snapshot, root: nat, hhdm: nat, v: Page, d: nat, perm: Perm, k: nat, u: Page)
    requires Mappable(s, root, hhdm, v) && d <= 3 && k < |LevelStores(s, v, d, perm)| && u != v
    ensures !Stale(s, v, d, u) ==> Walk(LevelStores(s, v, d, perm)[k], root, u) == Walk(s.mem, root, u)
    ensures Stale(s, v, d, u) ==> Walk(s.mem, root, u).Fault?
    ensures Stale(s, v, d, u) && k == 0 ==> Walk(LevelStores(s, v, d, perm)[k], root, u).Mapped?
  {
    hide Walk, MemAt, Grown, Missing, SameWalks, Behind, Gap, LevelStores, ZeroedAt, TableAt, AbsentAt, FrameAt,
         StoreOf, Stage, NoHuge, SoundAt;
    StoredWord(s, root, hhdm, v, d, perm, k);
    LevelGap(s, root, hhdm, v, d);
    var z, tables := ZeroedAt(s, v, d), Grown(s.books, v, d).tables;
    GapIn(z, root, tables, v, d);
    var e, f := AbsentAt(s, v, d), FrameAt(s.books, v, d);
    SameOne(s.mem, z, root, u);
    if !SharesEntry(u, v, d) {
      Beside(z, root, tables, v, d, StoreOf(e, d, k, f, perm), u);
    } else {
      FaultBefore(z, root, tables, v, d, u);
      if d == 3 {
        PathSlots(u, v);
      } else {
        SharedStore(z, root, tables, v, d, perm, k, f, u);
      }
    }
  }

  lemma SameOne(mem: Mem, mem': Mem, root: nat, u: Page)
    requires SameWalks(mem, mem', root)
    ensures Walk(mem', root, u) == Walk(mem, root, u)
  {
    hide Walk;
  }

  // ---- what a call may leave in the cache ----

  lemma {:induction false} WhichStore(s: Snapshot, v: Page, n: nat, perm: Perm, k: nat) returns (d: nat, j: nat)
    requires n <= 4 && Missing(s.books.tables, v, 3) < |s.books.free| && k < |StoresTo(s, v, n, perm)|
    ensures d < n && j < |LevelStores(s, v, d, perm)| && StoresTo(s, v, n, perm)[k] == LevelStores(s, v, d, perm)[j]
  {
    hide LevelStores;
    if k < |StoresTo(s, v, n - 1, perm)| {
      d, j := WhichStore(s, v, n - 1, perm, k);
    } else {
      d, j := n - 1, k - |StoresTo(s, v, n - 1, perm)|;
    }
  }

  lemma {:induction false} AmongStores(s: Snapshot, v: Page, n: nat, perm: Perm, d: nat, j: nat) returns (k: nat)
    requires d < n <= 4 && Missing(s.books.tables, v, 3) < |s.books.free| && j < |LevelStores(s, v, d, perm)|
    ensures k < |StoresTo(s, v, n, perm)| && StoresTo(s, v, n, perm)[k] == LevelStores(s, v, d, perm)[j]
  {
    hide LevelStores;
    if d == n - 1 {
      k := |StoresTo(s, v, n - 1, perm)| + j;
    } else {
      k := AmongStores(s, v, n - 1, perm, d, j);
    }
  }

  /** Nothing but `v` translates behind the entries to be filled while they are half written. */
  ghost predicate NothingBehind(s: Snapshot, v: Page)
    requires Missing(s.books.tables, v, 3) < |s.books.free|
  {
    forall d, u :: 0 <= d < 3 ==> !Stale(s, v, d, u)
  }

  /** A cached translation of another page is an old one, or one of a half-written entry. */
  lemma CachedHow(s: Snapshot, root: nat, hhdm: nat, v: Page, perm: Perm, tlb: Tlb, tlb': Tlb, u: Page)
    requires Mappable(s, root, hhdm, v) && CanHold(StoresTo(s, v, 4, perm), root, tlb, tlb') && u in tlb' && u != v
    ensures || (u in tlb && tlb'[u] == tlb[u]) || FromWalk(s.mem, root, u, tlb'[u])
            || (Walk(s.mem, root, u).Fault? && exists d :: 0 <= d < 3 && Stale(s, v, d, u))
  {
    hide Walk, StoresTo, SoundAt, NoHuge, Stale, Missing, LevelStores;
    assert Before(StoresTo(s, v, 4, perm), root, tlb, u, tlb'[u]);
    if !(u in tlb && tlb'[u] == tlb[u]) {
      var k :| 0 <= k < |StoresTo(s, v, 4, perm)| && FromWalk(StoresTo(s, v, 4, perm)[k], root, u, tlb'[u]);
      var d, j := WhichStore(s, v, 4, perm, k);
      StoreWalk(s, root, hhdm, v, d, perm, j, u);
      StaleUpper(s, v, d, u);
    }
  }

  lemma StaleUpper(s: Snapshot, v: Page, d: nat, u: Page)
    requires Missing(s.books.tables, v, 3) < |s.books.free|
    ensures Stale(s, v, d, u) ==> d < 3
  {
    hide Behind, HalfAt, AbsentAt, Missing;
  }

  /** Whatever the processor caches on the way, mapped pages go on being translated correctly. */
  lemma MapCurrent(s: Snapshot, mem: Mem, root: nat, hhdm: nat, v: Page, perm: Perm, tlb: Tlb, tlb': Tlb)
    requires Mappable(s, root, hhdm, v) && Current(s.mem, root, tlb) && SameWalksBut(s.mem, mem, root, v)
    requires CanHold(StoresTo(s, v, 4, perm), root, tlb, tlb') && v !in tlb'
    ensures Current(mem, root, tlb')
  {
    hide Walk, StoresTo, SoundAt, NoHuge, Stale, Missing, CanHold;
    forall u | u in tlb' && Walk(mem, root, u).Mapped? ensures tlb'[u] == Walk(mem, root, u) {
      CachedHow(s, root, hhdm, v, perm, tlb, tlb', u);
    }
  }

  lemma MapCoherent(s: Snapshot, mem: Mem, root: nat, hhdm: nat, v: Page, perm: Perm, tlb: Tlb, tlb': Tlb)
    requires Mappable(s, root, hhdm, v) && Coherent(s.mem, root, tlb) && SameWalksBut(s.mem, mem, root, v)
    requires CanHold(StoresTo(s, v, 4, perm), root, tlb, tlb') && v !in tlb' && NothingBehind(s, v)
    ensures Coherent(mem, root, tlb')
  {
    hide Walk, StoresTo, SoundAt, NoHuge, Stale, Missing, CanHold;
    forall u | u in tlb' ensures tlb'[u].Mapped? && tlb'[u] == Walk(mem, root, u) {
      CachedHow(s, root, hhdm, v, perm, tlb, tlb', u);
    }
  }

  /** The walk of the half-written entry may stay in the cache. */
  lemma StaleStays(s: Snapshot, mem: Mem, root: nat, hhdm: nat, v: Page, perm: Perm, tlb: Tlb, d: nat, u: Page)
    returns (tlb': Tlb)
    requires Mappable(s, root, hhdm, v) && SameWalksBut(s.mem, mem, root, v) && d < 3 && Stale(s, v, d, u)
    ensures CanHold(StoresTo(s, v, 4, perm), root, tlb, tlb') && v !in tlb' && u in tlb'
    ensures Walk(mem, root, u).Fault? && !Coherent(mem, root, tlb')
  {
    hide Walk, StoresTo, SoundAt, NoHuge, Missing, LevelStores, Stale;
    StaleFills(s, v, d, perm, u);
    var first := LevelStores(s, v, d, perm)[0];
    StoreWalk(s, root, hhdm, v, d, perm, 0, u);
    tlb' := map[u := Walk(first, root, u)];
    var k := AmongStores(s, v, 4, perm, d, 0);
    assert FromWalk(StoresTo(s, v, 4, perm)[k], root, u, tlb'[u]);
    assert Before(StoresTo(s, v, 4, perm), root, tlb, u, tlb'[u]);
  }

  lemma StaleFills(s: Snapshot, v: Page, d: nat, perm: Perm, u: Page)
    requires d < 3 && Missing(s.books.tables, v, 3) < |s.books.free| && Stale(s, v, d, u)
    ensures |LevelStores(s, v, d, perm)| > 0 && u != v
  {
    hide Behind, HalfAt, AbsentAt, ZeroedAt, TableAt, FrameAt, Missing;
  }

  /** Only the page that is mapped changes its translation. */
  lemma MapMemWalks(s: Snapshot, root: nat, hhdm: nat, v: Page, perm: Perm)
    requires Mappable(s, root, hhdm, v)
    ensures SameWalksBut(s.mem, MapMem(s, v, perm), root, v)
  {
    hide Walk, MemAt, Grown, Missing, SoundAt, NoHuge, Put, AbsentAt, TableAt, FrameAt, ZeroedAt, Stage, Stale;
    forall u: Page | u != v ensures Walk(MapMem(s, v, perm), root, u) == Walk(s.mem, root, u) {
      StoreWalk(s, root, hhdm, v, 3, perm, 6, u);
      StaleUpper(s, v, 3, u);
    }
    MapMemSize(s, v, perm);
  }

  lemma MapMemSize(s: Snapshot, v: Page, perm: Perm)
    requires Missing(s.books.tables, v, 3) < |s.books.free|
    ensures |MapMem(s, v, perm)| == |s.mem|
  {
    hide MemAt, Grown, Missing, AbsentAt, TableAt, FrameAt;
  }

  /** After `vm_map` every possible cache agrees with the tables if and only if nothing translates behind
      an entry that it has to fill. */
  lemma MapCoherentExactly(s: Snapshot, root: nat, hhdm: nat, v: Page, perm: Perm, tlb: Tlb)
    requires Mappable(s, root, hhdm, v) && Coherent(s.mem, root, tlb)
    ensures NothingBehind(s, v) <==>
      forall tlb': Tlb :: CanHold(StoresTo(s, v, 4, perm), root, tlb, tlb') && v !in tlb' ==>
        Coherent(MapMem(s, v, perm), root, tlb')
  {
    hide Walk, StoresTo, SoundAt, NoHuge, Stale, Missing, CanHold, MapMem, Coherent;
    var mem := MapMem(s, v, perm);
    MapMemWalks(s, root, hhdm, v, perm);
    if NothingBehind(s, v) {
      forall tlb': Tlb | CanHold(StoresTo(s, v, 4, perm), root, tlb, tlb') && v !in tlb'
        ensures Coherent(mem, root, tlb')
      {
        MapCoherent(s, mem, root, hhdm, v, perm, tlb, tlb');
      }
    } else {
      var d, u :| 0 <= d < 3 && Stale(s, v, d, u);
      var tlb' := StaleStays(s, mem, root, hhdm, v, perm, tlb, d, u);
    }
  }

  /** Below a table that the call itself has added, the old address is 0: it is frame 0 that counts. */
  lemma FreshAddress(s: Snapshot, root: nat, hhdm: nat, v: Page, d: nat)
    requires Mappable(s, root, hhdm, v) && d < 2 && Fills(s, v, d) && Fills(s, v, d + 1)
    requires Missing(s.books.tables, v, d + 1) <= |s.books.free|
    ensures AbsentAt(s, v, d + 1).address == 0
  {
    hide Walk, Grown, Missing, SoundAt, NoHuge, Stage, ZeroedAt, FrameAt, TableAt, Tree, SameWalks, MemAt;
    LevelGap(s, root, hhdm, v, d);
    GapIn(ZeroedAt(s, v, d), root, Grown(s.books, v, d).tables, v, d);
    assert TableAt(s.books, v, d) in Grown(s.books, v, d).tables.Values;
    FrameExact(s, root, hhdm, v, d);
    NextTable(s.books, v, d);
    MemNext(s, v, d);
  }

  lemma FrameExact(s: Snapshot, root: nat, hhdm: nat, v: Page, d: nat)
    requires Mappable(s, root, hhdm, v) && d <= 3 && Missing(s.books.tables, v, d) < |s.books.free|
    ensures FrameAt(s.books, v, d) == Grown(s.books, v, d).free[0]
  {
    hide SoundAt, NoHuge, Walk, Descended, MemAt, Missing, Taken, Took, SameWalks, Grown, Climbed;
    var m := Reached(s, root, hhdm, v, d);
    DescendedFacts(s, m, root, v, d);
    TakenSound(m, root, hhdm);
  }

  lemma NextTable(b: Books, v: Page, d: nat)
    requires d < 3 && PathTo(v, d + 1) !in b.tables && Missing(b.tables, v, d + 1) <= |b.free|
    ensures Missing(b.tables, v, d) < |b.free| && TableAt(b, v, d + 1) == Grown(b, v, d).free[0]
  {
    var g := Grown(b, v, d);
    assert g.free == b.free[Missing(b.tables, v, d)..];
    assert Grown(b, v, d + 1) == g.(tables := g.tables[PathTo(v, d + 1) := g.free[0]], free := g.free[1..]);
  }

  // ---- the stores of the code, in order ----

  /** The cache is one that the stores above depth d allow. */
  ghost predicate Recorded(s: Snapshot, v: Page, d: nat, perm: Perm, root: nat, tlb: Tlb, tlb': Tlb) {
    d <= 4 && Missing(s.books.tables, v, 3) < |s.books.free| && CanHold(StoresTo(s, v, d, perm), root, tlb, tlb')
  }

  /** The stores that the code makes for an absent table are those of this level. */
  lemma TableLevel(s0: Snapshot, s: Snapshot, root: nat, hhdm: nat, v: Page, d: nat, perm: Perm)
    requires SoundAt(s, root, hhdm) && d < 3 && Descended(s0, s, root, v, d)
    requires PathTo(v, d) in s.books.tables && s.books.tables[PathTo(v, d)] < |s.mem| && !EntryAt(s, v, d).present
    requires Missing(s0.books.tables, v, 3) < |s0.books.free|
    ensures s.books.free != [] && s.books.free[0] < |s.mem| && s.books.free[0] < 0x8_0000_0000_0000
    ensures PathTo(v, d + 1) !in s0.books.tables
    ensures LevelStores(s0, v, d, perm) ==
      TableStores(s.mem[s.books.free[0] := ZeroTable()], s.books.tables[PathTo(v, d)], Slot(v, 3 - d),
                  EntryAt(s, v, d), s.books.free[0])
  {
    hide Sound, Walk, NoHuge, Descended, MemAt, Grown, Missing, Climbed, TableStores, ZeroTable, Took, SameWalks;
    MissingMonotone(s0.books.tables, v);
    DescendedFacts(s0, s, root, v, d);
    EntryThere(s, root, hhdm, v, d);
    DeeperUnchanged(s0, s, root, v, d);
    TakenSound(s, root, hhdm);
    ZeroedTaken(s0, s, v, d);
  }

  lemma PageLevel(s0: Snapshot, s: Snapshot, root: nat, hhdm: nat, v: Page, perm: Perm)
    requires SoundAt(s, root, hhdm) && Descended(s0, s, root, v, 3)
    requires PathTo(v, 3) in s.books.tables && s.books.tables[PathTo(v, 3)] < |s.mem|
    requires Missing(s0.books.tables, v, 3) < |s0.books.free|
    ensures s.books.free != [] && s.books.free[0] < |s.mem| && s.books.free[0] < 0x8_0000_0000_0000
    ensures LevelStores(s0, v, 3, perm) ==
      PageStores(s.mem[s.books.free[0] := ZeroTable()], s.books.tables[PathTo(v, 3)], Slot(v, 0),
                 EntryAt(s, v, 3), s.books.free[0], perm)
  {
    hide Sound, Walk, NoHuge, Descended, MemAt, Grown, Missing, Climbed, PageStores, ZeroTable, Took, SameWalks;
    DescendedFacts(s0, s, root, v, 3);
    TakenSound(s, root, hhdm);
    ZeroedTaken(s0, s, v, 3);
  }

  lemma HoldStart(s: Snapshot, v: Page, perm: Perm, root: nat, tlb: Tlb)
    ensures Missing(s.books.tables, v, 3) < |s.books.free| ==> CanHold(StoresTo(s, v, 0, perm), root, tlb, tlb)
  {
    hide Missing;
    HoldNothing(root, tlb);
  }

  /** A present entry is not stored to. */
  lemma StoresSame(s0: Snapshot, s: Snapshot, root: nat, v: Page, d: nat, perm: Perm)
    requires d < 3 && Climbed(s0, s, root, v, d) && Climbed(s0, s, root, v, d + 1)
    requires Missing(s0.books.tables, v, 3) < |s0.books.free|
    ensures StoresTo(s0, v, d + 1, perm) == StoresTo(s0, v, d, perm)
  {
    hide Walk, NoHuge, MemAt, SameWalks, Missing, Grown, TableStores;
    DeeperUnchanged(s0, s, root, v, d);
  }

  /** Taking a frame from the list leaves the tables alone. */
  lemma TableKept(s: Snapshot, v: Page, d: nat, root: nat, hhdm: nat)
    requires SoundAt(s, root, hhdm) && d <= 3 && PathTo(v, d) in s.books.tables
    requires s.books.free != []
    ensures s.books.free[0] != s.books.tables[PathTo(v, d)]
  {
    hide Sound;
    SoundBalanced(s, root, hhdm);
    TablesApart(s.books, PathTo(v, d));
  }

  // ---- what mapping keeps of an entry ----

  /** All fields but present, user, writable, noExecute and address are the same. */
  predicate OtherFieldsSame(e: Word, w: Word) {
    && w.writeThrough == e.writeThrough && w.cacheDisable == e.cacheDisable && w.accessed == e.accessed
    && w.dirty == e.dirty && w.pageSize == e.pageSize && w.unused == e.unused
  }

  lemma OpenKeeps(e: Word, perm: Perm, f: Bits51)
    ensures OtherFieldsSame(e, Open(e).(address := f)) && OtherFieldsSame(e, Leaf(e, perm).(address := f))
  {
  }

  /** One store to an entry, and one frame cleared. */
  lemma {:induction false} PutKeeps(mem: Mem, f: nat, t: nat, i: nat, w: Word, g: nat, j: nat)
    requires g < |mem| && g != f && j < 512 && i < 512 && OtherFieldsSame(EntryIn(mem, t, i), w)
    ensures OtherFieldsSame(mem[g][j], Put(Cleared(mem, f), t, i, w)[g][j])
  {
  }

  lemma {:induction false} MemKeeps(s: Snapshot, root: nat, hhdm: nat, v: Page, d: nat, g: nat, j: nat)
    requires Mappable(s, root, hhdm, v) && d <= 3 && Missing(s.books.tables, v, d) <= |s.books.free|
    requires g < |s.mem| && g !in s.books.free && j < 512
    ensures OtherFieldsSame(s.mem[g][j], MemAt(s, v, d)[g][j])
  {
    hide Mappable, Grown, Missing, Put, Cleared, EntryIn, Open, OtherFieldsSame;
    if d == 0 {
      SameFields(s.mem[g][j]);
    } else if PathTo(v, d) in s.books.tables {
      MissingStep(s.books.tables, v, d);
      MemKeeps(s, root, hhdm, v, d - 1, g, j);
    } else {
      MissingStep(s.books.tables, v, d);
      MemKeeps(s, root, hhdm, v, d - 1, g, j);
      MemNext(s, v, d - 1);
      TakenFrame(s, root, hhdm, v, d - 1);
      OpenKeeps(AbsentAt(s, v, d - 1), FULL, FrameAt(s.books, v, d - 1));
      PutKeeps(MemAt(s, v, d - 1), FrameAt(s.books, v, d - 1), TableAt(s.books, v, d - 1), Slot(v, 4 - d),
               Open(AbsentAt(s, v, d - 1)).(address := FrameAt(s.books, v, d - 1)), g, j);
      FieldsBoth(s.mem[g][j], MemAt(s, v, d - 1)[g][j], MemAt(s, v, d)[g][j]);
    }
  }

  lemma SameFields(e: Word)
    ensures OtherFieldsSame(e, e)
  {
  }

  lemma FieldsBoth(a: Word, b: Word, c: Word)
    requires OtherFieldsSame(a, b) && OtherFieldsSame(b, c)
    ensures OtherFieldsSame(a, c)
  {
  }

  lemma MissingStep(tables: Tables, v: Page, d: nat)
    requires 0 < d <= 3
    ensures Missing(tables, v, d) == Missing(tables, v, d - 1) + (if PathTo(v, d) in tables then 0 else 1)
  {
  }

  /** The frame taken was free at the start. */
  lemma TakenFrame(s: Snapshot, root: nat, hhdm: nat, v: Page, d: nat)
    requires Mappable(s, root, hhdm, v) && d <= 3 && Missing(s.books.tables, v, d) < |s.books.free|
    ensures FrameAt(s.books, v, d) in s.books.free
  {
    hide Mappable, Missing, FrameAt;
    FrameExact(s, root, hhdm, v, d);
    var n := Missing(s.books.tables, v, d);
    assert Grown(s.books, v, d).free == s.books.free[n..];
    assert s.books.free[n] == Grown(s.books, v, d).free[0];
  }

  /** In frames that were not free, every entry keeps all its fields but those that `vm_map` stores. */
  lemma MapKeepsFields(s: Snapshot, root: nat, hhdm: nat, v: Page, perm: Perm, g: nat, j: nat)
    requires Mappable(s, root, hhdm, v) && g < |s.mem| && g !in s.books.free && j < 512
    ensures |MapMem(s, v, perm)| == |s.mem| && OtherFieldsSame(s.mem[g][j], MapMem(s, v, perm)[g][j])
  {
    hide MemAt, Grown, Missing, Put, Cleared, EntryIn, Open, Leaf, OtherFieldsSame, SoundAt, NoHuge, Walk;
    MapMemSize(s, v, perm);
    MemKeeps(s, root, hhdm, v, 3, g, j);
    TakenFrame(s, root, hhdm, v, 3);
    OpenKeeps(AbsentAt(s, v, 3), perm, FrameAt(s.books, v, 3));
    PutKeeps(MemAt(s, v, 3), FrameAt(s.books, v, 3), TableAt(s.books, v, 3), Slot(v, 0),
             Leaf(AbsentAt(s, v, 3), perm).(address := FrameAt(s.books, v, 3)), g, j);
    FieldsBoth(s.mem[g][j], MemAt(s, v, 3)[g][j], MapMem(s, v, perm)[g][j]);
  }
}
