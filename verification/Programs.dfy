/** A program and its heap together. */
module Programs {
  import opened Digits
  import opened Words
  import opened PageTable
  import opened Ledger
  import opened Space
  import opened MapSteps
  import opened Mapping
  import opened UserPages
  import opened Torn
  import opened Caches
  import opened Kernel
  import opened UserMemory
  import opened Loader
  import opened Image
  import opened UserHeap

  // ---- a program and its heap ----

  /** Where the heap ends after all requests. */
  function HeapEnd(requests: seq<nat>): nat { After(requests, |requests|).granted }

  /** The pages that the heap will reach, from this address on, are still to be mapped. */
  ghost predicate HeapAhead(s: Snapshot, root: nat, from: nat, end: nat) {
    forall v :: v in HeapPages(end) && from <= 4096 * v ==> Walk(s.mem, root, v).Fault?
  }

  /** The page at this address is the heap's, absent, and there are frames for it. */
  ghost predicate RoomFor(s: Snapshot, root: nat, from: nat, end: nat) {
    var v := PageOf(from);
    && v in HeapPages(end) && 4096 * v == from && v !in s.books.pages
    && Walk(s.mem, root, v).Fault? && Missing(s.books.tables, v, 3) < |s.books.free|
  }

  lemma NextRoom(s: Snapshot, root: nat, hhdm: nat, requests: seq<nat>, i: nat, pages: set<Page>)
    requires SoundAt(s, root, hhdm) && KeptAt(s, root) && i < |requests|
    requires var from, end := After(requests, i).granted, HeapEnd(requests);
      && HEAP_START <= from && from % MMAP_SIZE == 0 && end <= LOWER_END
      && HeapAhead(s, root, from, end) && HeapPages(end) <= pages
    requires Need(s.books, pages) <= |s.books.free|
    ensures NeedsMore(After(requests, i), requests[i]) ==> After(requests, i).granted + MMAP_SIZE <= HeapEnd(requests)
    ensures NeedsMore(After(requests, i), requests[i]) && After(requests, i).granted % 4096 == 0 ==>
      RoomFor(s, root, After(requests, i).granted, HeapEnd(requests))
  {
    hide Walk, Missing, Need, Sound, KeptAt, NeedsMore, PageOf, Lower, After, HeapPages;
    var from := After(requests, i).granted;
    GrantGrows(requests, i + 1, |requests|);
    GrantStep(requests, i);
    if NeedsMore(After(requests, i), requests[i]) && from % 4096 == 0 {
      NextHeapPage(from, HeapEnd(requests));
      BeforeChunk(s, root, hhdm, PageOf(from), pages);
    }
  }

  lemma GrantStep(requests: seq<nat>, i: nat)
    requires i < |requests|
    ensures After(requests, i + 1).granted ==
      After(requests, i).granted + (if NeedsMore(After(requests, i), requests[i]) then MMAP_SIZE else 0)
  {
    hide NeedsMore, RoundUp;
  }

  lemma NextHeapPage(from: nat, end: nat)
    requires HEAP_START <= from && from % 4096 == 0 && from % MMAP_SIZE == 0 && from + MMAP_SIZE <= end <= LOWER_END
    ensures PageOf(from) in HeapPages(end) && 4096 * PageOf(from) == from && Lower(PageOf(from))
  {
    hide Lower, PageOf;
    HeapPage(from);
    HalfPage(from);
  }

  /** What one more request leaves. */
  lemma NextRequest(s0: Snapshot, s: Snapshot, s': Snapshot, root: nat, g: Globals, requests: seq<nat>,
                    slots: seq<Address>, i: nat, pages: set<Page>)
    requires i < |requests| == |slots| && Need(s.books, pages) <= |s.books.free|
    requires HeapAhead(s, root, After(requests, i).granted, HeapEnd(requests)) && HeapPages(HeapEnd(requests)) <= pages
    requires SameExcept(s0, s, root, HeapPages(HeapEnd(requests)), Used(g, slots, i))
    requires NeedsMore(After(requests, i), requests[i]) && After(requests, i).granted % 4096 == 0 ==>
      RoomFor(s, root, After(requests, i).granted, HeapEnd(requests))
    requires var h := After(requests, i);
      && s'.books == BooksAfter(s.books, h, requests[i])
      && SameExcept(s, s', root, PageAdded(h, requests[i]), Touched(h, g, requests[i], slots[i]))
    ensures Need(s'.books, pages) <= |s'.books.free|
    ensures SameExcept(s0, s', root, HeapPages(HeapEnd(requests)), Used(g, slots, i + 1))
    ensures HeapAhead(s', root, After(requests, i + 1).granted, HeapEnd(requests))
  {
    hide Walk, Missing, Need, PageOf, HeapPages, SameExcept, MapBooks, After, NeedsMore, Used, Touched;
    var h, end := After(requests, i), HeapEnd(requests);
    GrantStep(requests, i);
    if PageAdded(h, requests[i]) != {} {
      MapNeed(s.books, PageOf(h.granted), pages);
    }
    UsedNext(h, g, requests[i], slots, i);
    ExceptBoth(s0, s, s', root, HeapPages(end), Used(g, slots, i), PageAdded(h, requests[i]),
               Touched(h, g, requests[i], slots[i]));
    ExceptMore(s0, s', root, HeapPages(end) + PageAdded(h, requests[i]), HeapPages(end),
               Used(g, slots, i) + Touched(h, g, requests[i], slots[i]), Used(g, slots, i + 1));
    StillAhead(s, s', root, h, requests[i], end, g, slots[i]);
  }

  /** The bytes that the first n requests may have stored to. */
  ghost function Used(g: Globals, slots: seq<Address>, n: nat): iset<nat>
    requires n <= |slots|
  {
    GlobalBytes(g) + SlotBytes(slots, n)
  }

  ghost function SlotBytes(slots: seq<Address>, n: nat): iset<nat>
    requires n <= |slots|
  {
    if n == 0 then iset{} else SlotBytes(slots, n - 1) + Span(slots[n - 1], 8)
  }

  lemma UsedNext(h: Heap, g: Globals, size: nat, slots: seq<Address>, i: nat)
    requires i < |slots|
    ensures Used(g, slots, i) + Touched(h, g, size, slots[i]) <= Used(g, slots, i + 1)
  {
    hide Span, NeedsMore;
  }

  lemma StillAhead(s: Snapshot, s': Snapshot, root: nat, h: Heap, size: nat, end: nat, g: Globals, slot: Address)
    requires HeapAhead(s, root, h.granted, end)
    requires SameExcept(s, s', root, PageAdded(h, size), Touched(h, g, size, slot))
    requires NeedsMore(h, size) && h.granted % 4096 == 0 ==> RoomFor(s, root, h.granted, end)
    ensures HeapAhead(s', root, h.granted + (if NeedsMore(h, size) then MMAP_SIZE else 0), end)
  {
    hide Walk, Missing, PageOf, HeapPages, ForeignSame, ReadVirtual, NeedsMore, Touched;
  }

  /** What the program brings: its allocator's variables, and a stack variable for each request. */
  ghost predicate Ready(s: Snapshot, root: nat, g: Globals, slots: seq<Address>) {
    GlobalsOk(s, root, g) && forall i :: 0 <= i < |slots| ==> SlotOk(s, root, g, slots[i])
  }

  lemma StillReady(s: Snapshot, s': Snapshot, root: nat, g: Globals, slots: seq<Address>, area: set<Page>,
                   touched: iset<nat>)
    requires Ready(s, root, g, slots) && SameExcept(s, s', root, area, touched)
    requires forall v :: v in area ==> v !in s.books.pages
    ensures Ready(s', root, g, slots)
  {
    hide Walk, SameExcept, CanWrite, Span;
    GlobalsStay(s, s', root, g, area, touched);
    forall i | 0 <= i < |slots| ensures SlotOk(s', root, g, slots[i]) {
      WritesPage(s, root, slots[i]);
      WriteStays(s, s', root, slots[i], area, touched);
    }
  }

  /** A program's requests, from a fresh heap: its variables are zero. `slots` is where it has the mmap call
      put its answers. */
  method Mallocs(k: AddressSpace, g: Globals, requests: seq<nat>, slots: seq<Address>, ghost pages: set<Page>)
    returns (blocks: seq<nat>)
    requires k.Valid() && KeptAt(k.Snap(), k.root)
    requires |slots| == |requests| && Ready(k.Snap(), k.root, g, slots) && HeapIs(k.Snap(), k.root, g, k.vHeap, FRESH)
    requires HeapEnd(requests) <= LOWER_END && forall i :: 0 <= i < |requests| ==> requests[i] <= MAX_REQUEST
    requires Vacant(k.Snap(), k.root, HeapPages(HeapEnd(requests))) && HeapPages(HeapEnd(requests)) <= pages
    requires Need(k.books, pages) <= |k.books.free|
    modifies k
    ensures k.Valid() && KeptAt(k.Snap(), k.root)
    ensures HeapIs(k.Snap(), k.root, g, k.vHeap, After(requests, |requests|))
    ensures |blocks| == |requests| && forall i :: 0 <= i < |blocks| ==> blocks[i] == Block(requests, i)
    ensures HeapMapped(k.Snap(), k.root, HeapEnd(requests))
    ensures SameExcept(old(k.Snap()), k.Snap(), k.root, HeapPages(HeapEnd(requests)), Used(g, slots, |requests|))
  {
    hide Sound, Current, Walk, PageOf, KeptAt, Need, HeapMapped, HeapPages, Vacant, SameExcept, IsMapped, NeedsMore,
         Missing, HeapAhead, RoundUp, Ready, HeapIs, GlobalsOk, SlotOk, Used, Touched, BooksAfter, PageAdded, Bounded;
    ghost var s0, end := k.Snap(), HeapEnd(requests);
    blocks := [];
    HeapStart(s0, k.root, g, k.vHeap, end);
    ExceptNothing(s0, k.root, HeapPages(end), Used(g, slots, 0));
    GrantGrows(requests, 0, |requests|);
    for i := 0 to |requests|
      invariant k.Valid() && HeapReady(k.Snap(), k.root, k.vHeap) && k.vHeap <= end
      invariant HeapIs(k.Snap(), k.root, g, k.vHeap, After(requests, i)) && Ready(k.Snap(), k.root, g, slots)
      invariant Bounded(After(requests, i)) && k.vHeap == After(requests, i).granted
      invariant HeapAhead(k.Snap(), k.root, k.vHeap, end)
      invariant SameExcept(s0, k.Snap(), k.root, HeapPages(end), Used(g, slots, i))
      invariant Need(k.books, pages) <= |k.books.free|
      invariant |blocks| == i && forall j :: 0 <= j < i ==> blocks[j] == Block(requests, j)
    {
      ghost var s, h := k.Snap(), After(requests, i);
      NextRoom(s, k.root, k.hhdm, requests, i, pages);
      ReadySlot(s, k.root, g, slots, i);
      BoundedStep(h, requests[i]);
      var block := Malloc(k, g, requests[i], slots[i], h);
      blocks := blocks + [block];
      StillReady(s, k.Snap(), k.root, g, slots, PageAdded(h, requests[i]), Touched(h, g, requests[i], slots[i]));
      NextRequest(s0, s, k.Snap(), k.root, g, requests, slots, i, pages);
      GrantGrows(requests, i, i + 1);
      GrantGrows(requests, i + 1, |requests|);
      HeapEndIs(k.Snap(), k.root, g, k.vHeap, Allocate(h, requests[i]).0);
    }
  }

  lemma ReadySlot(s: Snapshot, root: nat, g: Globals, slots: seq<Address>, i: nat)
    requires Ready(s, root, g, slots) && i < |slots|
    ensures GlobalsOk(s, root, g) && SlotOk(s, root, g, slots[i])
  {
    hide SlotOk, GlobalsOk;
  }

  lemma HeapEndIs(s: Snapshot, root: nat, g: Globals, vHeap: nat, h: Heap)
    requires HeapIs(s, root, g, vHeap, h)
    ensures vHeap == h.granted
  {
    hide WordAt;
  }

  lemma HeapStart(s: Snapshot, root: nat, g: Globals, vHeap: nat, end: nat)
    requires Vacant(s, root, HeapPages(end)) && HeapIs(s, root, g, vHeap, FRESH)
    ensures vHeap == HEAP_START && HeapMapped(s, root, HEAP_START) && HeapAhead(s, root, HEAP_START, end)
    ensures Bounded(FRESH)
  {
    hide Walk, HeapPages, WordAt;
  }

  // ---- a whole program ----

  /** Every byte of every block is in a page that is mapped and open to the program. */
  ghost predicate BlocksOpen(s: Snapshot, root: nat, requests: seq<nat>) {
    forall i, x: nat :: 0 <= i < |requests| && InBlock(requests, i, x) ==>
      Walk(s.mem, root, PageOf(x)).Mapped? && Walk(s.mem, root, PageOf(x)).perm == FULL
  }

  lemma AllBlocksOpen(s: Snapshot, root: nat, requests: seq<nat>)
    requires forall i :: 0 <= i < |requests| ==> requests[i] <= PAGE_SIZE
    requires HeapEnd(requests) <= LOWER_END && HeapMapped(s, root, HeapEnd(requests))
    ensures BlocksOpen(s, root, requests)
  {
    hide Walk, InBlock, PageOf, HeapMapped, After;
    forall i, x: nat | 0 <= i < |requests| && InBlock(requests, i, x)
      ensures Walk(s.mem, root, PageOf(x)).Mapped? && Walk(s.mem, root, PageOf(x)).perm == FULL
    {
      BlocksMapped(s, root, requests, |requests|, i, x);
    }
  }

  lemma HeapLower(end: nat)
    requires end <= LOWER_END
    ensures forall v :: v in HeapPages(end) ==> Lower(v)
  {
  }

  /** Pages outside the area that are not mapped yet are for the heap to take. */
  lemma HeapVacant(s0: Snapshot, s: Snapshot, root: nat, area: set<Page>, end: nat)
    requires OnlyArea(s0, s, root, area) && area !! HeapPages(end) && end <= LOWER_END
    ensures Vacant(s, root, HeapPages(end))
  {
    hide Walk, HeapPages, Lower, ForeignSame;
    HeapLower(end);
  }

  /** What happens to other bytes does not disturb a loaded program. */
  lemma StillLoaded(s: Snapshot, s': Snapshot, root: nat, file: seq<Byte>, segments: seq<Segment>, area: set<Page>,
                    touched: iset<nat>)
    requires LoadedBut(s, root, file, segments, iset{}) && KeptAt(s, root) && AllFit(segments, |file|)
    requires SameExcept(s, s', root, area, touched) && Vacant(s, root, area)
    ensures LoadedBut(s', root, file, segments, touched)
  {
    hide Walk, PageOf, ReadVirtual, ForeignSame, SegmentPerm, Lower, AllFit, Protected, StackThere;
    forall i: nat, j: nat | IsByte(segments, i, j) && segments[i].vaddr + j !in touched
      ensures ByteLoaded(s', root, file, segments[i], j)
    {
      assert ByteLoaded(s, root, file, segments[i], j);
      SegmentLower(segments, |file|, i, j);
    }
    SamePermissions(s, s', root, segments, area);
  }

  lemma SamePermissions(s: Snapshot, s': Snapshot, root: nat, segments: seq<Segment>, area: set<Page>)
    requires Protected(s, root, segments) && StackThere(s, root) && Vacant(s, root, area)
    requires forall v: Page :: v !in area ==> Walk(s'.mem, root, v) == Walk(s.mem, root, v)
    requires forall i: nat, j: nat :: IsByte(segments, i, j) ==>
      Walk(s.mem, root, PageOf(segments[i].vaddr + j)).Mapped?
    ensures Protected(s', root, segments) && StackThere(s', root)
  {
    hide Walk, PageOf;
  }

  /** The chunk that a byte is in. */
  lemma ByteChunk(segments: seq<Segment>, fileSize: nat, i: nat, j: nat) returns (c: Chunk)
    requires AllFit(segments, fileSize) && IsByte(segments, i, j)
    ensures c in AllChunks(segments) && Fits(c, fileSize) && PageOf(segments[i].vaddr + j) == PageOf(c.vaddr)
  {
    hide PageOf, Lower, ChunksFrom, SegmentPerm, AllChunks;
    var t := segments[i];
    var n := ChunkOf(t.vaddr, t.offset, t.memsz, SegmentPerm(t.flags), j);
    c := SegmentChunks(t)[n];
    assert c in SegmentChunks(t) && Fits(c, fileSize);
    ChunkIn(segments, i, c);
    SamePage(c.vaddr, t.vaddr + j - c.vaddr);
  }

  lemma SegmentLower(segments: seq<Segment>, fileSize: nat, i: nat, j: nat)
    requires AllFit(segments, fileSize) && IsByte(segments, i, j)
    ensures Lower(PageOf(segments[i].vaddr + j))
  {
    hide PageOf, Lower, AllChunks;
    var c := ByteChunk(segments, fileSize, i, j);
  }

  lemma OnlyThenMore(s0: Snapshot, s1: Snapshot, s: Snapshot, root: nat, area: set<Page>, more: set<Page>,
                     touched: iset<nat>)
    requires OnlyArea(s0, s1, root, area) && SameExcept(s1, s, root, more, touched)
    requires forall v :: v in more ==> Lower(v)
    ensures OnlyArea(s0, s, root, area + more)
  {
    hide Walk, PageOf, ReadVirtual, ForeignSame, Lower;
    ForeignBoth(s0, s1, s);
  }

  /** A variable of a writable segment, whose bytes are zero in the file. */
  ghost predicate ZeroWord(file: seq<Byte>, segments: seq<Segment>, a: Address, n: nat) {
    && a % 8 == 0 && n < |segments| && segments[n].kind == 1 && segments[n].flags / 2 % 2 == 1
    && segments[n].vaddr <= a && a + 8 <= segments[n].vaddr + segments[n].memsz
    && forall x: nat :: 0 <= x - segments[n].offset - (a - segments[n].vaddr) < 8 ==> x < |file| && file[x] == 0
  }

  lemma ZeroBytes64()
    ensures forall i :: 0 <= i < 8 ==> Bytes64(0)[i] == 0
  {
    ZeroDigits(8);
  }

  lemma {:induction false} ZeroDigits(n: nat)
    ensures forall i :: 0 <= i < n ==> Expand(0, 256, n)[i] == 0
  {
    if n > 0 {
      ZeroDigits(n - 1);
    }
  }

  /** Once the program is loaded the variable is zero, and the program can write it. */
  lemma LoadedWord(s: Snapshot, root: nat, file: seq<Byte>, segments: seq<Segment>, a: Address, n: nat)
    requires LoadedBut(s, root, file, segments, iset{}) && KeptAt(s, root) && AllFit(segments, |file|)
    requires ZeroWord(file, segments, a, n)
    ensures WordAt(s, root, a, 0) && CanWrite(s, root, a)
  {
    hide Walk, PageOf, ReadVirtual, Lower, AllFit, Bytes64, Protected, StackThere;
    ZeroBytes64();
    var t := segments[n];
    forall i | 0 <= i < 8 ensures a + i < 0x1_0000_0000_0000 && ReadVirtual(s.mem, root, a + i) == Some(Bytes64(0)[i]) {
      assert IsByte(segments, n, a - t.vaddr + i) && ByteLoaded(s, root, file, t, a - t.vaddr + i);
    }
    assert IsByte(segments, n, a - t.vaddr) && ByteLoaded(s, root, file, t, a - t.vaddr);
    SegmentLower(segments, |file|, n, a - t.vaddr);
    assert a + 7 < 0x1_0000_0000_0000;
  }

  /** A stack variable. */
  predicate OnStack(a: Address) { a % 8 == 0 && exists i :: 0 <= i < 4 && PageOf(a) == StackPage(i) }

  lemma StackWord(s: Snapshot, root: nat, a: Address)
    requires StackThere(s, root) && KeptAt(s, root) && OnStack(a)
    ensures CanWrite(s, root, a)
  {
    hide Walk, PageOf, Lower, StackPage;
    ExtraDistinct();
    ExtraNumbers();
  }

  /** The program's variables: two zero words of its image, and for each request one on the stack. */
  ghost predicate Variables(file: seq<Byte>, segments: seq<Segment>, g: Globals, slots: seq<Address>) {
    && (exists n :: ZeroWord(file, segments, g.bump, n)) && (exists n :: ZeroWord(file, segments, g.space, n))
    && Span(g.bump, 8) !! Span(g.space, 8)
    && forall i :: 0 <= i < |slots| ==>
         OnStack(slots[i]) && Span(slots[i], 8) !! Span(g.bump, 8) && Span(slots[i], 8) !! Span(g.space, 8)
  }

  lemma VariablesReady(s: Snapshot, root: nat, vHeap: nat, file: seq<Byte>, segments: seq<Segment>, g: Globals,
                       slots: seq<Address>)
    requires LoadedBut(s, root, file, segments, iset{}) && KeptAt(s, root) && AllFit(segments, |file|)
    requires Variables(file, segments, g, slots) && vHeap == HEAP_START
    ensures Ready(s, root, g, slots) && HeapIs(s, root, g, vHeap, FRESH)
  {
    hide Walk, KeptAt, AllFit, ZeroWord, CanWrite, WordAt, Span, OnStack, ByteLoaded;
    var n :| ZeroWord(file, segments, g.bump, n);
    LoadedWord(s, root, file, segments, g.bump, n);
    var m :| ZeroWord(file, segments, g.space, m);
    LoadedWord(s, root, file, segments, g.space, m);
    forall i | 0 <= i < |slots| ensures SlotOk(s, root, g, slots[i]) {
      StackWord(s, root, slots[i]);
    }
  }

  /** Replaces whatever runs by a new program, which then makes its requests for memory. The stack, the blocks and
      the image are all in place together, but for the allocator's own two variables in the image; nothing else
      is left in the lower half, and the upper half is as before. */
  method RunProgram(k: AddressSpace, ehdr: nat, ghost file: seq<Byte>, segments: seq<Segment>, g: Globals,
                    requests: seq<nat>, slots: seq<Address>) returns (blocks: seq<nat>)
    requires k.Valid() && RootExecutable(k.mem, k.root) && SourceAt(k.Snap(), k.root, ehdr, file)
    requires PageDisjoint(segments) && AllFit(segments, |file|) && ImagePages(AllChunks(segments)) !! ExtraPages()
    requires HeapEnd(requests) <= LOWER_END && ProgramPages(segments) !! HeapPages(HeapEnd(requests))
    requires EnoughAfterTeardown(k.books, ProgramPages(segments) + HeapPages(HeapEnd(requests)))
    requires Variables(file, segments, g, slots) && |slots| == |requests|
    requires forall i :: 0 <= i < |requests| ==> requests[i] <= MAX_REQUEST
    modifies k
    ensures k.Valid() && KeptAt(k.Snap(), k.root)
    ensures HeapIs(k.Snap(), k.root, g, k.vHeap, After(requests, |requests|))
    ensures LoadedBut(k.Snap(), k.root, file, segments, GlobalBytes(g))
    ensures |blocks| == |requests| && forall i :: 0 <= i < |blocks| ==> blocks[i] == Block(requests, i)
    ensures HeapMapped(k.Snap(), k.root, HeapEnd(requests))
    ensures (forall i :: 0 <= i < |requests| ==> requests[i] <= PAGE_SIZE) ==> BlocksOpen(k.Snap(), k.root, requests)
    ensures OnlyArea(old(k.Snap()), k.Snap(), k.root, ProgramPages(segments) + HeapPages(HeapEnd(requests)))
  {
    hide Sound, Current, Walk, PageOf, KeptAt, Need, HeapMapped, HeapPages, Vacant, SameExcept, OnlyArea, ByteLoaded,
         ProgramPages, PageDisjoint, AllFit, ExtraPages, ImagePages, AllChunks, EnoughAfterTeardown, RootExecutable,
         HasPerm, HeapEnd, BlocksOpen, Lower, Variables, Ready, HeapIs, Used, SourceAt, LoadedBut;
    ghost var s0, end := k.Snap(), HeapEnd(requests);
    Exec(k, ehdr, file, segments, ProgramPages(segments) + HeapPages(end));
    ghost var s1 := k.Snap();
    VariablesReady(s1, k.root, k.vHeap, file, segments, g, slots);
    HeapVacant(s0, s1, k.root, ProgramPages(segments), end);
    blocks := Mallocs(k, g, requests, slots, ProgramPages(segments) + HeapPages(end));
    HeapLower(end);
    StillLoaded(s1, k.Snap(), k.root, file, segments, HeapPages(end), Used(g, slots, |requests|));
    SlotsElsewhere(k.Snap(), k.root, file, segments, g, slots);
    OnlyThenMore(s0, s1, k.Snap(), k.root, ProgramPages(segments), HeapPages(end), Used(g, slots, |requests|));
    if forall i :: 0 <= i < |requests| ==> requests[i] <= PAGE_SIZE {
      AllBlocksOpen(k.Snap(), k.root, requests);
    }
  }

  /** Stack variables are no bytes of the image. */
  lemma SlotsElsewhere(s: Snapshot, root: nat, file: seq<Byte>, segments: seq<Segment>, g: Globals, slots: seq<Address>)
    requires LoadedBut(s, root, file, segments, Used(g, slots, |slots|)) && AllFit(segments, |file|)
    requires ImagePages(AllChunks(segments)) !! ExtraPages() && Variables(file, segments, g, slots)
    ensures LoadedBut(s, root, file, segments, GlobalBytes(g))
  {
    hide Walk, ByteLoaded, Protected, StackThere, AllFit, ImagePages, ExtraPages, SlotBytes, GlobalBytes, ZeroWord;
    forall i: nat, j: nat | IsByte(segments, i, j) && segments[i].vaddr + j !in GlobalBytes(g)
      ensures ByteLoaded(s, root, file, segments[i], j)
    {
      ImagePage(segments, |file|, i, j);
      NotInSlots(slots, |slots|, segments[i].vaddr + j);
    }
  }

  lemma ImagePage(segments: seq<Segment>, fileSize: nat, i: nat, j: nat)
    requires AllFit(segments, fileSize) && IsByte(segments, i, j)
    ensures PageOf(segments[i].vaddr + j) in ImagePages(AllChunks(segments))
  {
    hide PageOf, Fits, AllChunks;
    var c := ByteChunk(segments, fileSize, i, j);
    var m :| 0 <= m < |AllChunks(segments)| && AllChunks(segments)[m] == c;
    InImage(AllChunks(segments), m);
  }

  lemma {:induction false} NotInSlots(slots: seq<Address>, n: nat, a: nat)
    requires n <= |slots| && (forall i :: 0 <= i < n ==> OnStack(slots[i])) && PageOf(a) !in ExtraPages()
    ensures a !in SlotBytes(slots, n)
  {
    hide PageOf, ExtraPages, StackPage;
    if n > 0 {
      NotInSlots(slots, n - 1, a);
      ExtraDistinct();
      if a in Span(slots[n - 1], 8) {
        WordInPage(slots[n - 1]);
        SamePage(slots[n - 1], a - slots[n - 1]);
      }
    }
  }
}
