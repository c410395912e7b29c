/** kernel/boot.c: from the bootloader's machine to the first program. */
module System {
  import opened Words
  import opened PageTable
  import opened Ledger
  import opened FreeList
  import opened Space
  import opened MapSteps
  import opened UserHalf
  import opened Mapping
  import opened UserPages
  import opened Regions
  import opened Torn
  import opened Caches
  import opened MapStores
  import opened HalfWritten
  import opened StaleWalks
  import opened Kernel
  import opened UserMemory
  import opened Loader
  import opened Image
  import opened Programs

  // ---- boot ----

  const DEMO := 0x5_0104_0200

  /** The number 123 that boot stores to its demonstration page, as an `int`. */
  const NUMBER: seq<Byte> := [123, 0, 0, 0]

  function BootPages(segments: seq<Segment>): set<Page> { {PageOf(DEMO)} + ProgramPages(segments) }

  /** The books before any frame has been adopted. */
  function FirstBooks(tables: Tables): Books { Books([], tables, map[], {}, {}) }

  /** A machine as the bootloader leaves it, and a first program, with enough usable memory for it. */
  ghost predicate Bootable(mem: Mem, hhdm: nat, root: nat, tables: Tables, regions: seq<Region>, ehdr: nat,
                           file: seq<Byte>, segments: seq<Segment>)
  {
    && Machine(mem, hhdm) && Tree(mem, root, tables) && RootExecutable(mem, root)
    && Adoptable(Snapshot(mem, 0, FirstBooks(tables)), regions)
    && PageDisjoint(segments) && AllFit(segments, |file|)
    && ImagePages(AllChunks(segments)) !! ExtraPages() && PageOf(DEMO) !in ImagePages(AllChunks(segments))
    && EnoughAfterTeardown(FirstBooks(tables).(free := AllFrames(regions)), BootPages(segments))
    && SourceAt(Snapshot(mem, 0, FirstBooks(tables).(free := AllFrames(regions))), root, ehdr, file)
  }

  /** What boot has made of the machine: the lower half has these pages and no others, the upper half
      translates as the bootloader left it, and memory outside the usable regions and the tables is the same. */
  ghost predicate Booted(mem: Mem, tables: Tables, regions: seq<Region>, s: Snapshot, root: nat, area: set<Page>) {
    && |s.mem| == |mem| && Pool(s.books) == Members(AllFrames(regions)) + tables.Values
    && (forall f :: 0 <= f < |mem| && f !in Pool(s.books) ==> s.mem[f] == mem[f])
    && (forall v: Page :: Lower(v) && v !in area ==> Walk(s.mem, root, v).Fault?)
    && (forall v: Page :: !Lower(v) ==> Walk(s.mem, root, v) == Walk(mem, root, v))
  }

  /** The state after `init_list`. */
  ghost predicate Listed(mem: Mem, tables: Tables, regions: seq<Region>, s: Snapshot, root: nat) {
    && s.books == FirstBooks(tables).(free := Reverse(AllFrames(regions)) + [])
    && SameWalks(mem, s.mem, root) && SameBut(mem, s.mem, Members(AllFrames(regions)))
  }

  lemma ListedBooks(mem: Mem, tables: Tables, regions: seq<Region>, s: Snapshot, root: nat, pages: set<Page>)
    requires Listed(mem, tables, regions, s, root)
    ensures Pool(s.books) == Members(AllFrames(regions)) + tables.Values
    ensures EnoughAfterTeardown(FirstBooks(tables).(free := AllFrames(regions)), pages) ==>
      EnoughAfterTeardown(s.books, pages)
  {
    hide Reverse, AllFrames, SameWalks, SameBut, NeededTables, LowerPath;
    ReverseMembers(AllFrames(regions));
    assert Reverse(AllFrames(regions)) + [] == Reverse(AllFrames(regions));
  }

  /** The bootloader's root is no usable frame, so that its entries are as before. */
  lemma ListedRoot(mem: Mem, tables: Tables, regions: seq<Region>, s: Snapshot, root: nat)
    requires Tree(mem, root, tables) && RootExecutable(mem, root) && Listed(mem, tables, regions, s, root)
    requires Adoptable(Snapshot(mem, 0, FirstBooks(tables)), regions)
    ensures RootExecutable(s.mem, root)
  {
    hide AllFrames, SameWalks, Reverse, AllLinked, Closed;
    assert root in tables.Values by { assert tables[Top] == root; }
  }

  lemma DemoApart()
    ensures Lower(PageOf(DEMO)) && PageOf(DEMO) !in ExtraPages() && DEMO % 4096 + 4 <= 4096
  {
    forall i | 0 <= i < 4 ensures StackPage(i) == 0x7000_0000 + i {
      assert (USER_STACK + 0x1000 * i) / 0x1000 == 0x7000_0000 + i;
    }
  }

  /** There is a demonstration page, open to everybody, and 123 can be read at 0x501040200. */
  ghost predicate DemoStored(s: Snapshot, root: nat) {
    0x50_1040 in s.books.pages && Grants(Walk(s.mem, root, 0x50_1040), 1, 1, 1) &&
    forall a: Address :: 0x5_0104_0200 <= a < 0x5_0104_0204 ==>
      ReadVirtual(s.mem, root, a) == Some(if a == 0x5_0104_0200 then 123 else 0)
  }

  lemma DemoPage()
    ensures PageOf(DEMO) == 0x50_1040
  {
  }

  /** Maps the demonstration page and stores the number there. */
  method MapDemo(k: AddressSpace, ghost pages: set<Page>)
    requires k.Valid() && KeptAt(k.Snap(), k.root) && Walk(k.mem, k.root, PageOf(DEMO)).Fault?
    requires PageOf(DEMO) in pages && Need(k.books, pages) <= |k.books.free|
    modifies k
    ensures k.Valid() && KeptAt(k.Snap(), k.root) && k.vHeap == old(k.vHeap) && DemoStored(k.Snap(), k.root)
    ensures Need(k.books, pages) <= |k.books.free|
    ensures OutsideSame(old(k.Snap()), k.Snap(), k.root, {PageOf(DEMO)})
  {
    hide Sound, Current, Walk, PageOf, KeptAt, Need, Lower, ReadVirtual, HasPerm, OthersSame, OutsideSame, SameWalks,
         IsStored, SameExcept, Reads, DemoStored;
    ghost var s0, u := k.Snap(), PageOf(DEMO);
    DemoApart();
    MapExtra(k, DEMO, FULL, [], [], pages);
    ghost var s1 := k.Snap();
    DemoBooks(s0, s1, k.root, k.hhdm);
    StoreVirtual(k, DEMO, NUMBER);
    ghost var s2 := k.Snap();
    DemoCopied(s1, s2, k.root);
    DemoOnly(s0, s1, s2, k.root);
  }

  lemma DemoOnly(s0: Snapshot, s1: Snapshot, s2: Snapshot, root: nat)
    requires OthersSame(s0, s1, root, PageOf(DEMO), 0, 0) && SameExcept(s1, s2, root, {}, Span(DEMO, 4))
    ensures OutsideSame(s0, s2, root, {PageOf(DEMO)})
  {
    hide Walk, PageOf, ReadVirtual, ForeignSame, SameExcept;
    var u := PageOf(DEMO);
    var none := iset a: nat | PageOf(a) == u && 0 <= a < 0;
    ExceptBoth(s0, s1, s2, root, {u}, none, {}, Span(DEMO, 4));
    forall a | a in none + Span(DEMO, 4) ensures PageOf(a) == u {
      DemoApart();
      SamePage(DEMO, a - DEMO);
    }
    var image := {u};
    ExceptMore(s0, s2, root, image + {}, image, none + Span(DEMO, 4), iset a: nat | PageOf(a) in image);
    assert OutsideSame(s0, s2, root, image);
  }

  lemma DemoCopied(s0: Snapshot, s: Snapshot, root: nat)
    requires HasPerm(Walk(s0.mem, root, PageOf(DEMO)), FULL) && SameWalks(s0.mem, s.mem, root)
    requires PageOf(DEMO) in s.books.pages && Reads(s, root, DEMO, NUMBER)
    ensures DemoStored(s, root)
  {
    hide ReadVirtual, PageOf, Walk;
    DemoPage();
    forall a: Address | 0x5_0104_0200 <= a < 0x5_0104_0204
      ensures ReadVirtual(s.mem, root, a) == Some(if a == 0x5_0104_0200 then 123 else 0)
    {
      var i := a - DEMO;
      assert ReadVirtual(s.mem, root, DEMO + i) == Some(NUMBER[i]);
    }
  }

  lemma DemoBooks(s0: Snapshot, s: Snapshot, root: nat, hhdm: nat)
    requires SoundAt(s, root, hhdm) && KeptAt(s, root) && HasPerm(Walk(s.mem, root, PageOf(DEMO)), FULL)
    ensures PageOf(DEMO) in s.books.pages
  {
    hide Walk, Sound, PageOf;
    DemoApart();
  }

  lemma DemoKept(s: Snapshot, s': Snapshot, root: nat, area: set<Page>)
    requires DemoStored(s, root) && OutsideSame(s, s', root, area) && PageOf(DEMO) !in area
    ensures DemoStored(s', root)
  {
    hide Walk, ReadVirtual, ForeignSame, PageOf;
    DemoPage();
    forall a: Address | 0x5_0104_0200 <= a < 0x5_0104_0204
      ensures ReadVirtual(s'.mem, root, a) == ReadVirtual(s.mem, root, a)
    {
      DemoApart();
      SamePage(DEMO, a - DEMO);
    }
  }

  lemma TornAway(s0: Snapshot, s: Snapshot, root: nat)
    requires OnlyArea(s0, s, root, {})
    ensures Vacant(s, root, ExtraPages()) && Walk(s.mem, root, PageOf(DEMO)).Fault?
  {
    hide Walk, PageOf, Lower, ExtraPages, ForeignSame;
    DemoApart();
    TornVacant(s, root);
  }

  lemma StillVacant(s: Snapshot, s': Snapshot, root: nat, area: set<Page>, pages: set<Page>)
    requires Vacant(s, root, pages) && OutsideSame(s, s', root, area) && area !! pages
    ensures Vacant(s', root, pages)
  {
    hide Walk, ReadVirtual, ForeignSame, PageOf;
  }

  /** Adopts the usable memory, drops the bootloader's lower half, stores the demonstration number, and
      starts the first program. */
  method Boot(mem: Mem, hhdm: nat, root: nat, ghost tables: Tables, ghost cached: Tlb, regions: seq<Region>,
              ehdr: nat, ghost file: seq<Byte>, segments: seq<Segment>) returns (k: AddressSpace)
    requires Bootable(mem, hhdm, root, tables, regions, ehdr, file, segments) && Current(mem, root, cached)
    ensures fresh(k) && k.Valid() && k.root == root && KeptAt(k.Snap(), root) && k.vHeap == 0x1_0000
    ensures LoadedBut(k.Snap(), root, file, segments, iset{}) && DemoStored(k.Snap(), root)
    ensures Booted(mem, tables, regions, k.Snap(), root, BootPages(segments))
  {
    hide Sound, Current, Walk, PageOf, Need, Lower, AllChunks, ImagePages, ExtraPages, ProgramPages, Vacant,
         PageDisjoint, AllFit, ByteLoaded, StackMapped, HasPerm, OutsideSame, OnlyArea, EnoughAfterTeardown, Machine,
         Tree, RootExecutable, Adoptable, AllFrames, Reverse, SameWalks, SameBut, LowerTables, Next, Kept,
         ForeignSame, DemoStored, SourceAt, IsTorn, LoadedBut;
    ghost var pages := BootPages(segments);
    k := new AddressSpace(hhdm, root, mem, tables, cached);
    k.InitList(regions);
    ghost var s1 := k.Snap();
    ListedRoot(mem, tables, regions, s1, root);
    ListedBooks(mem, tables, regions, s1, root, pages);
    ListedSource(mem, tables, regions, s1, root, ehdr, file);
    k.UnmapLowerHalf();
    ghost var s2 := k.Snap();
    TornForeign(s1, s2, root, hhdm);
    TornOnly(s1, s2, root);
    TornNeed(s1.books, s2.books, pages);
    TornAway(s1, s2, root);
    SourceStays(s1, s2, root, ehdr, file);
    MapDemo(k, pages);
    ghost var s3 := k.Snap();
    DemoApart();
    SourceOutside(s2, s3, root, ehdr, file, {PageOf(DEMO)});
    StillVacant(s2, s3, root, {PageOf(DEMO)}, ExtraPages());
    ExecuteMod(k, ehdr, file, segments, pages);
    DemoOutside(segments);
    DemoKept(s3, k.Snap(), root, ProgramPages(segments));
    OutsideBoth(s2, s3, k.Snap(), root, {PageOf(DEMO)}, ProgramPages(segments));
    ProgramLower(segments, |file|);
    TornThenLoaded(s1, s2, k.Snap(), root, pages);
    BootedNow(mem, tables, regions, s1, k.Snap(), root, pages);
  }

  /** The file is in none of the frames that have been adopted. */
  lemma ListedSource(mem: Mem, tables: Tables, regions: seq<Region>, s: Snapshot, root: nat, ehdr: nat, file: seq<Byte>)
    requires Listed(mem, tables, regions, s, root)
    requires SourceAt(Snapshot(mem, 0, FirstBooks(tables).(free := AllFrames(regions))), root, ehdr, file)
    ensures SourceAt(s, root, ehdr, file)
  {
    hide Walk, AllFrames, Reverse, SourceAt, EnoughAfterTeardown;
    var s0 := Snapshot(mem, 0, FirstBooks(tables).(free := AllFrames(regions)));
    ListedBooks(mem, tables, regions, s, root, {});
    SourceStays(s0, s, root, ehdr, file);
  }

  lemma SourceOutside(s0: Snapshot, s: Snapshot, root: nat, ehdr: nat, file: seq<Byte>, area: set<Page>)
    requires SourceAt(s0, root, ehdr, file) && OutsideSame(s0, s, root, area) && forall v :: v in area ==> Lower(v)
    ensures SourceAt(s, root, ehdr, file)
  {
    hide SourceAt, SameExcept, Lower;
    SourceExcept(s0, s, root, ehdr, file, area, iset a: nat | PageOf(a) in area);
  }

  lemma TornOnly(s0: Snapshot, s: Snapshot, root: nat)
    requires ForeignSame(s0, s) && forall v: Page :: Lower(v) ==> Walk(s.mem, root, v).Fault?
    requires forall v: Page :: !Lower(v) ==> Walk(s.mem, root, v) == Walk(s0.mem, root, v)
    ensures OnlyArea(s0, s, root, {})
  {
    hide Walk, Lower, ForeignSame;
  }

  lemma DemoOutside(segments: seq<Segment>)
    requires PageOf(DEMO) !in ImagePages(AllChunks(segments))
    ensures PageOf(DEMO) !in ProgramPages(segments)
  {
    hide PageOf, ImagePages, AllChunks;
    DemoApart();
  }

  lemma BootedNow(mem: Mem, tables: Tables, regions: seq<Region>, s1: Snapshot, s: Snapshot, root: nat, area: set<Page>)
    requires Listed(mem, tables, regions, s1, root) && OnlyArea(s1, s, root, area)
    ensures Booted(mem, tables, regions, s, root, area)
  {
    hide Walk, Lower, AllFrames, Reverse, EnoughAfterTeardown, Pool;
    ListedBooks(mem, tables, regions, s1, root, {});
  }

  // ---- the first exec after boot ----

  /** Where every user program starts, by the linker script. */
  const PROGRAM_START := 0x5_0000_0000

  lemma DemoSlots()
    ensures var u := PageOf(DEMO); Slot(u, 3) == 0 && Slot(u, 2) == 20 && Slot(u, 1) == 8 && Slot(u, 0) == 64
    ensures Slot(PageOf(PROGRAM_START), 3) == 0 && PageOf(PROGRAM_START) != PageOf(DEMO)
    ensures Slot(StackPage(0), 3) == 14
  {
    assert PageOf(DEMO) == 0x50_1040 && PageOf(PROGRAM_START) == 0x50_0000 && StackPage(0) == 0x7000_0000;
  }

  /** A lower-half page of the kernel's own is mapped by tables. */
  lemma MappedInTables(s: Snapshot, root: nat, hhdm: nat, v: Page)
    requires SoundAt(s, root, hhdm) && KeptAt(s, root) && Lower(v) && Walk(s.mem, root, v).Mapped?
    ensures InTables(s, root, v) && PathTo(v, 1) in s.books.tables
  {
    hide Walk, Reach, Sound, Tree, OpenHalf, NoHuge;
    SoundTree(s, root, hhdm);
    OpenNoHuge(s.mem, s.books.tables, v);
    MappedPath(s.mem, root, s.books.tables, v);
    PrefixIn(s.mem, root, s.books.tables, v, 1, 3);
  }

  /** When the first program is mapped after the teardown of what boot left, the demonstration page
      translates to its old frame for a moment, though it is not mapped. */
  lemma DemoUncovered(s0: Snapshot, s: Snapshot, root: nat, hhdm: nat)
    requires After(s0, s, root, hhdm) && KeptAt(s0, root) && DemoStored(s0, root) && StackThere(s0, root)
    requires Missing(s.books.tables, PageOf(PROGRAM_START), 3) < |s.books.free|
    ensures Stale(s, PageOf(PROGRAM_START), 0, PageOf(DEMO)) && !NothingBehind(s, PageOf(PROGRAM_START))
  {
    hide Walk, Slot, PageOf, StackPage, SoundAt, IsTorn, Stale, Missing, ReadVirtual, Kept, Lower;
    DemoSlots();
    DemoApart();
    LowerStack();
    ExtraNumbers();
    DemoPage();
    MappedInTables(s0, root, hhdm, PageOf(DEMO));
    MappedInTables(s0, root, hhdm, StackPage(0));
    StackPath();
    StaleExactly(s0, s, root, hhdm, PageOf(DEMO), PageOf(PROGRAM_START), 14);
  }

  lemma LowerStack()
    ensures Lower(StackPage(0))
  {
    DemoSlots();
  }

  lemma StackPath()
    ensures PathTo(StackPage(0), 1) == Down(Top, 14)
  {
    hide StackPage;
    DemoSlots();
    assert PathTo(StackPage(0), 0) == Top;
  }

  /** The first exec after boot: once its first page has been mapped, a translation of the demonstration page,
      which is not mapped any more, may be left in the cache. */
  method FirstExec(k: AddressSpace)
    requires k.Valid() && KeptAt(k.Snap(), k.root) && DemoStored(k.Snap(), k.root) && StackThere(k.Snap(), k.root)
    modifies k
    ensures k.Valid() && Walk(k.mem, k.root, PageOf(DEMO)).Fault? && Coherent(k.mem, k.root, k.tlb)
    ensures Missing(k.books.tables, PageOf(PROGRAM_START), 3) < |k.books.free| ==>
      LeavesStale(k.Snap(), k.root, PageOf(PROGRAM_START), k.tlb, PageOf(DEMO))
  {
    hide Sound, Walk, PageOf, StackPage, IsTorn, Stale, Missing, ReadVirtual, Kept, Lower, DemoStored, StackThere,
         Next, Current, Coherent, RootExecutable, NoHuge;
    ghost var s0 := k.Snap();
    DemoApart();
    KeptExecutable(s0, k.root, k.hhdm);
    k.UnmapLowerHalf();
    ghost var s, v := k.Snap(), PageOf(PROGRAM_START);
    if Missing(k.books.tables, v, 3) < |k.books.free| {
      DemoUncovered(s0, s, k.root, k.hhdm);
      DemoSlots();
      LowerStart();
      KeptNoHuge(s, k.root, v);
      MapMemWalks(s, k.root, k.hhdm, v, FULL);
      ghost var cache := StaleStays(s, MapMem(s, v, FULL), k.root, k.hhdm, v, FULL, k.tlb, 0, PageOf(DEMO));
    }
  }

  lemma LowerStart()
    ensures Lower(PageOf(PROGRAM_START))
  {
    DemoSlots();
  }

  /** Mapping `v` may leave a translation of page `u` in the cache, though `u` is not mapped. */
  ghost predicate LeavesStale(s: Snapshot, root: nat, v: Page, tlb: Tlb, u: Page)
    requires Missing(s.books.tables, v, 3) < |s.books.free|
  {
    exists tlb': Tlb :: CanHold(StoresTo(s, v, 4, FULL), root, tlb, tlb') && v !in tlb' && u in tlb' &&
      Walk(MapMem(s, v, FULL), root, u).Fault? && !Coherent(MapMem(s, v, FULL), root, tlb')
  }

  // ---- how much memory is enough ----

  /** The positions at depth d on the way to these pages. */
  function PathsTo(pages: set<Page>, d: nat): set<Path>
    requires d <= 3
  {
    set v | v in pages :: PathTo(v, d)
  }

  lemma {:induction false} FewPaths(pages: set<Page>, d: nat)
    requires d <= 3
    ensures |PathsTo(pages, d)| <= |pages|
  {
    hide PathTo;
    if pages != {} {
      var u :| u in pages;
      FewPaths(pages - {u}, d);
      assert PathsTo(pages, d) == PathsTo(pages - {u}, d) + {PathTo(u, d)};
    } else {
      assert PathsTo(pages, d) == {};
    }
  }

  /** No set of pages needs more than three tables for each. */
  lemma ThreeEach(tables: Tables, pages: set<Page>)
    ensures |NeededTables(tables, pages)| <= 3 * |pages|
  {
    FewPaths(pages, 1);
    FewPaths(pages, 2);
    FewPaths(pages, 3);
    NeededPaths(tables, pages);
    hide NeededTables, PathsTo;
    SmallerSet(NeededTables(tables, pages), PathsTo(pages, 1) + PathsTo(pages, 2) + PathsTo(pages, 3));
    SumOfSets(PathsTo(pages, 1), PathsTo(pages, 2), PathsTo(pages, 3));
  }

  lemma NeededPaths(tables: Tables, pages: set<Page>)
    ensures NeededTables(tables, pages) <= PathsTo(pages, 1) + PathsTo(pages, 2) + PathsTo(pages, 3)
  {
    hide PathTo;
    forall p | p in NeededTables(tables, pages)
      ensures p in PathsTo(pages, 1) || p in PathsTo(pages, 2) || p in PathsTo(pages, 3)
    {
      var v, d :| v in pages && 1 <= d <= 3 && PathTo(v, d) !in tables && p == PathTo(v, d);
      assert d == 1 || d == 2 || d == 3;
    }
  }

  lemma SmallerSet<T>(a: set<T>, b: set<T>)
    requires a <= b
    ensures |a| <= |b|
  {
    assert b == a + (b - a);
  }

  lemma SumOfSets<T>(a: set<T>, b: set<T>, c: set<T>)
    ensures |a + b + c| <= |a| + |b| + |c|
  {
  }

  /** Whatever the bootloader's tables, four usable frames for each page will do. */
  lemma FourEach(tables: Tables, regions: seq<Region>, pages: set<Page>)
    requires 4 * |pages| <= |AllFrames(regions)|
    ensures EnoughAfterTeardown(FirstBooks(tables).(free := AllFrames(regions)), pages)
  {
    hide NeededTables, AllFrames, LowerPath;
    ThreeEach(UpperTables(tables), pages);
  }

  /** An empty address space, with 28 usable frames, boots a program without bytes. */
  lemma BareMachine(mem: Mem, hhdm: nat, root: nat, regions: seq<Region>)
    requires Machine(mem, hhdm) && root < |mem| && mem[root] == ZeroTable()
    requires Adoptable(Snapshot(mem, 0, FirstBooks(map[Top := root])), regions) && |AllFrames(regions)| >= 28
    ensures Bootable(mem, hhdm, root, map[Top := root], regions, 0, [], [])
  {
    hide Machine, Adoptable, ExtraPages, AllFrames, NeededTables, Tree, LowerPath, EnoughAfterTeardown, PageOf;
    EmptyTree(mem, root);
    FewPages();
    FourEach(map[Top := root], regions, BootPages([]));
  }

  lemma FewPages()
    ensures ImagePages(AllChunks([])) == {} && |BootPages([])| <= 7
  {
    hide StackPage, PageOf;
    assert ImagePages(AllChunks([])) == {};
    var s := ExtraPages();
    var all := [StackPage(0), StackPage(1), StackPage(2), StackPage(3),
                PageOf(TEST_PAGE), PageOf(TEST_PAGE_2), PageOf(DEMO)];
    assert BootPages([]) == set v | v in all;
    SeqSet(all);
  }

  lemma {:induction false} SeqSet<T>(s: seq<T>)
    ensures |set x | x in s| <= |s|
  {
    if s != [] {
      SeqSet(s[1..]);
      assert (set x | x in s) == {s[0]} + (set x | x in s[1..]);
    }
  }
}
