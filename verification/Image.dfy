/** The loaded program image, seen segment by segment; and the rest of `execute_mod`. */
module Image {
  import opened Words
  import opened PageTable
  import opened Ledger
  import opened FreeList
  import opened Space
  import opened MapSteps
  import opened UserHalf
  import opened Mapping
  import opened UserPages
  import opened Torn
  import opened Caches
  import opened MapStores
  import opened HalfWritten
  import opened Kernel
  import opened UserMemory
  import opened Loader

  /** Address a belongs to the memory of segment s. */
  predicate InSegment(s: Segment, a: nat) {
    s.kind == LOAD && s.vaddr <= a < s.vaddr + s.memsz
  }

  /** The chunk is part of the given stretch of memory and file. */
  predicate Within(c: Chunk, vaddr: nat, offset: nat, size: nat, perm: Perm) {
    && c.perm == perm && 0 < c.size
    && vaddr <= c.vaddr && c.vaddr + c.size <= vaddr + size && c.offset - offset == c.vaddr - vaddr
  }

  ghost predicate Ordered(cs: seq<Chunk>) {
    forall i, j :: 0 <= i < j < |cs| ==> cs[i].vaddr + cs[i].size <= cs[j].vaddr
  }

  /** The chunks of a segment follow each other and stay inside it. */
  lemma {:induction false} ChunksOrdered(vaddr: nat, offset: nat, size: nat, perm: Perm)
    ensures forall c :: c in ChunksFrom(vaddr, offset, size, perm) ==> Within(c, vaddr, offset, size, perm)
    ensures Ordered(ChunksFrom(vaddr, offset, size, perm))
    decreases size
  {
    if size >= CHUNK {
      ChunksOrdered(vaddr + CHUNK, offset + CHUNK, size - CHUNK, perm);
      var cs := ChunksFrom(vaddr, offset, size, perm);
      var rest := ChunksFrom(vaddr + CHUNK, offset + CHUNK, size - CHUNK, perm);
      assert cs == [Chunk(vaddr, offset, CHUNK, perm)] + rest;
      forall i, j | 0 <= i < j < |cs| ensures cs[i].vaddr + cs[i].size <= cs[j].vaddr {
        assert cs[j] == rest[j - 1] && rest[j - 1] in rest;
        assert i > 0 ==> cs[i] == rest[i - 1];
      }
    }
  }

  lemma SegmentOrdered(s: Segment)
    ensures forall c :: c in SegmentChunks(s) ==>
      s.kind == LOAD && Within(c, s.vaddr, s.offset, s.memsz, SegmentPerm(s.flags)) && InSegment(s, c.vaddr)
    ensures Ordered(SegmentChunks(s))
  {
    hide ChunksFrom, SegmentPerm;
    ChunksOrdered(s.vaddr, s.offset, s.memsz, SegmentPerm(s.flags));
  }

  /** Every byte of a segment is in one of its chunks. */
  lemma {:induction false} ChunkOf(vaddr: nat, offset: nat, size: nat, perm: Perm, k: nat) returns (i: nat)
    requires k < size
    ensures var cs := ChunksFrom(vaddr, offset, size, perm);
      i < |cs| && cs[i].vaddr <= vaddr + k < cs[i].vaddr + cs[i].size
    decreases size
  {
    if size < CHUNK || k < CHUNK {
      i := 0;
    } else {
      i := ChunkOf(vaddr + CHUNK, offset + CHUNK, size - CHUNK, perm, k - CHUNK);
      i := i + 1;
    }
  }

  lemma {:induction false} ChunkIn(segments: seq<Segment>, i: nat, c: Chunk)
    requires i < |segments| && c in SegmentChunks(segments[i])
    ensures c in AllChunks(segments)
  {
    if i > 0 {
      ChunkIn(segments[1..], i - 1, c);
    }
  }

  lemma {:induction false} ChunkFrom(segments: seq<Segment>, c: Chunk) returns (i: nat)
    requires c in AllChunks(segments)
    ensures i < |segments| && c in SegmentChunks(segments[i])
  {
    if c in SegmentChunks(segments[0]) {
      i := 0;
    } else {
      i := ChunkFrom(segments[1..], c);
      i := i + 1;
    }
  }

  // ---- what a file must be like ----

  /** No two LOAD segments have bytes in the same page. */
  ghost predicate PageDisjoint(segments: seq<Segment>) {
    forall i, j, a: nat, b: nat :: 0 <= i < j < |segments| && InSegment(segments[i], a) && InSegment(segments[j], b) ==>
      PageOf(a) != PageOf(b)
  }

  ghost predicate AllFit(segments: seq<Segment>, fileSize: nat) {
    forall i, c :: 0 <= i < |segments| && c in SegmentChunks(segments[i]) ==> Fits(c, fileSize)
  }

  /** A segment that starts at a multiple of 2048 in the lower half never straddles a page. */
  lemma {:induction false} AlignedFits(vaddr: nat, offset: nat, size: nat, perm: Perm, fileSize: nat)
    requires vaddr % CHUNK == 0 && vaddr + size <= 0x8000_0000_0000 && offset + size <= fileSize
    ensures forall c :: c in ChunksFrom(vaddr, offset, size, perm) ==> Fits(c, fileSize)
    decreases size
  {
    hide PageOf, Lower;
    if size > 0 {
      HalfPages(vaddr);
      if size >= CHUNK {
        AlignedFits(vaddr + CHUNK, offset + CHUNK, size - CHUNK, perm, fileSize);
      }
    }
  }

  lemma HalfPages(vaddr: nat)
    requires vaddr % CHUNK == 0 && vaddr < 0x8000_0000_0000
    ensures vaddr % 4096 + CHUNK <= 4096 && Lower(PageOf(vaddr)) && (vaddr + CHUNK) % CHUNK == 0
  {
    assert vaddr / 4096 < 0x8_0000_0000;
  }

  lemma {:induction false} SegmentsLoadable(segments: seq<Segment>, fileSize: nat)
    requires PageDisjoint(segments) && AllFit(segments, fileSize)
    ensures Loadable(AllChunks(segments), fileSize)
  {
    hide Fits, PageOf, SegmentChunks;
    if segments != [] {
      var s, rest := segments[0], segments[1..];
      SegmentsLoadable(rest, fileSize);
      var cs, ds, all := SegmentChunks(s), AllChunks(rest), AllChunks(segments);
      SegmentOrdered(s);
      forall i, j | 0 <= i < j < |all| ensures Agree(all[i], all[j]) {
        if j < |cs| {
          assert all[i] == cs[i] && all[j] == cs[j] && cs[i] in cs && cs[j] in cs;
        } else if i < |cs| {
          FirstAgrees(segments, i, j - |cs|);
        } else {
          assert Agree(ds[i - |cs|], ds[j - |cs|]);
        }
      }
      assert forall i :: 0 <= i < |all| ==> all[i] in cs || all[i] in ds;
      assert forall i :: 0 <= i < |cs| ==> cs[i] in SegmentChunks(segments[0]);
    }
  }

  lemma FirstAgrees(segments: seq<Segment>, i: nat, j: nat)
    requires segments != [] && PageDisjoint(segments)
    requires i < |SegmentChunks(segments[0])| && j < |AllChunks(segments[1..])|
    ensures Agree(SegmentChunks(segments[0])[i], AllChunks(segments[1..])[j])
  {
    hide PageOf, SegmentChunks, AllChunks;
    var s, d := segments[0], AllChunks(segments[1..])[j];
    SegmentOrdered(s);
    var m := ChunkFrom(segments[1..], d);
    var t := segments[1..][m];
    SegmentOrdered(t);
    assert InSegment(s, SegmentChunks(s)[i].vaddr) && InSegment(segments[m + 1], d.vaddr);
  }

  // ---- the image ----

  /** Byte j of segment i is part of the image: segments of type 1, PT_LOAD, are loaded. */
  predicate IsByte(segments: seq<Segment>, i: nat, j: nat) {
    i < |segments| && segments[i].kind == 1 && j < segments[i].memsz
  }

  /** The byte k of a segment reads, through the page walk, as the file's, with the segment's permissions. */
  ghost predicate ByteLoaded(s: Snapshot, root: nat, file: seq<Byte>, segment: Segment, k: nat) {
    var a := segment.vaddr + k;
    && a < 0x1_0000_0000_0000 && segment.offset + k < |file|
    && ReadVirtual(s.mem, root, a) == Some(file[segment.offset + k])
    && Walk(s.mem, root, PageOf(a)).Mapped? && Walk(s.mem, root, PageOf(a)).perm == SegmentPerm(segment.flags)
  }

  /** Loading is complete: every byte of every LOAD segment is in place. */
  lemma ImageLoaded(s: Snapshot, root: nat, file: seq<Byte>, segments: seq<Segment>, i: nat, k: nat)
    requires Loadable(AllChunks(segments), |file|)
    requires AllHold(s, root, file, AllChunks(segments), |AllChunks(segments)|)
    requires IsByte(segments, i, k)
    ensures ByteLoaded(s, root, file, segments[i], k)
  {
    hide Walk, ReadVirtual, PageOf, Agree, Lower, AllChunks, ChunksFrom, SegmentPerm;
    var t := segments[i];
    var cs := SegmentChunks(t);
    SegmentOrdered(t);
    var n := ChunkOf(t.vaddr, t.offset, t.memsz, SegmentPerm(t.flags), k);
    var c := cs[n];
    ChunkIn(segments, i, c);
    var m :| 0 <= m < |AllChunks(segments)| && AllChunks(segments)[m] == c;
    assert Holds(s, root, file, c) && Fits(c, |file|);
    FitsEnd(c, |file|);
    SamePage(c.vaddr, t.vaddr + k - c.vaddr);
  }

  lemma FitsEnd(c: Chunk, fileSize: nat)
    requires Fits(c, fileSize)
    ensures c.vaddr + c.size <= 0x1_0000_0000_0000 && c.vaddr % 4096 + c.size <= 4096
  {
    assert c.vaddr / 4096 < 0x10_0000_0000;
  }

  // ---- stack and test pages ----

  const USER_STACK := 0x700_0000_0000
  const STACK_SIZE := 8 * CHUNK
  const TEST_PAGE := 0x4_0000_0000
  const TEST_PAGE_2 := 0x4_0000_1800
  const DATA := Perm(true, true, false)
  const KERNEL_DATA := Perm(false, true, false)

  /** The page at this position of the stack. */
  function StackPage(i: nat): Page { PageOf(USER_STACK + 0x1000 * i) }

  function ExtraPages(): set<Page> {
    {StackPage(0), StackPage(1), StackPage(2), StackPage(3), PageOf(TEST_PAGE), PageOf(TEST_PAGE_2)}
  }

  /** Every page that a program is given. */
  function ProgramPages(segments: seq<Segment>): set<Page> {
    ImagePages(AllChunks(segments)) + ExtraPages()
  }

  lemma ExtraDistinct()
    ensures forall i, j :: 0 <= i < j < 4 ==> StackPage(i) != StackPage(j)
    ensures forall i :: 0 <= i < 4 ==> StackPage(i) != PageOf(TEST_PAGE) && StackPage(i) != PageOf(TEST_PAGE_2)
    ensures PageOf(TEST_PAGE) != PageOf(TEST_PAGE_2)
    ensures forall v :: v in ExtraPages() ==> Lower(v)
    ensures forall i :: 0 <= i < 4 ==> StackPage(i) in ExtraPages()
  {
    forall i | 0 <= i < 4 ensures StackPage(i) == 0x7000_0000 + i {
      assert (USER_STACK + 0x1000 * i) / 0x1000 == 0x7000_0000 + i;
    }
  }

  /** The image is in place and there are frames for the rest of `pages`. */
  ghost predicate InPlace(s: Snapshot, root: nat, file: seq<Byte>, chunks: seq<Chunk>, pages: set<Page>) {
    Loadable(chunks, |file|) && AllHold(s, root, file, chunks, |chunks|) && KeptAt(s, root) &&
    Need(s.books, pages) <= |s.books.free|
  }

  predicate HasPerm(c: Cursor, perm: Perm) { c.Mapped? && c.perm == perm }

  lemma ExtraMapped(s0: Snapshot, s: Snapshot, root: nat, hhdm: nat, file: seq<Byte>, chunks: seq<Chunk>,
                    pages: set<Page>,
                    u: Page, perm: Perm)
    requires SoundAt(s0, root, hhdm) && SoundAt(s, root, hhdm) && Lower(u) && u in pages && u !in ImagePages(chunks)
    requires InPlace(s0, root, file, chunks, pages) && Walk(s0.mem, root, u).Fault? && IsMapped(s0, s, root, u, perm)
    ensures InPlace(s, root, file, chunks, pages)
    ensures HasPerm(Walk(s.mem, root, u), perm) && OthersSame(s0, s, root, u, 0, 0)
  {
    hide Walk, Sound, PageOf, ReadVirtual, Lower, KeptAt, Need, ImagePages, IsMapped, Missing, MapBooks, Agree, Fits,
         ForeignSame;
    MapOthers(s0, s, root, hhdm, u, perm);
    MapUser(s0, s, root, hhdm, u, perm);
    BeforeChunk(s0, root, hhdm, u, pages);
    MapNeed(s0.books, u, pages);
    MappedTo(s0, s, root, u, perm);
    forall i | 0 <= i < |chunks| ensures Holds(s, root, file, chunks[i]) {
      InImage(chunks, i);
      FitsEnd(chunks[i], |file|);
      HoldsBeside(s0, s, root, file, chunks[i], u);
    }
  }

  lemma MappedTo(s0: Snapshot, s: Snapshot, root: nat, u: Page, perm: Perm)
    requires IsMapped(s0, s, root, u, perm)
    ensures Missing(s0.books.tables, u, 3) < |s0.books.free| && s.books == MapBooks(s0.books, u)
  {
    hide Missing, MapBooks, Walk;
  }

  lemma HoldsBeside(s0: Snapshot, s: Snapshot, root: nat, file: seq<Byte>, c: Chunk, u: Page)
    requires Holds(s0, root, file, c) && PageOf(c.vaddr) != u && OthersSame(s0, s, root, u, 0, 0)
    requires c.vaddr % 4096 + c.size <= 4096
    ensures Holds(s, root, file, c)
  {
    hide Walk, ReadVirtual, PageOf;
    forall a: Address | c.vaddr <= a < c.vaddr + c.size
      ensures ReadVirtual(s.mem, root, a) == Some(file[c.offset + (a - c.vaddr)])
    {
      SamePage(c.vaddr, a - c.vaddr);
    }
  }

  method MapExtra(k: AddressSpace, address: nat, perm: Perm, ghost file: seq<Byte>, ghost chunks: seq<Chunk>,
                  ghost pages: set<Page>)
    requires k.Valid() && Lower(PageOf(address)) && PageOf(address) in pages && PageOf(address) !in ImagePages(chunks)
    requires InPlace(k.Snap(), k.root, file, chunks, pages) && Walk(k.mem, k.root, PageOf(address)).Fault?
    modifies k
    ensures k.Valid() && k.vHeap == old(k.vHeap) && InPlace(k.Snap(), k.root, file, chunks, pages)
    ensures HasPerm(Walk(k.mem, k.root, PageOf(address)), perm)
    ensures OthersSame(old(k.Snap()), k.Snap(), k.root, PageOf(address), 0, 0)
  {
    hide Sound, Current, Coherent, CanHold, StoresTo, NothingBehind, Walk, PageOf, KeptAt, AllHold, NoHuge, IsMapped,
         Need, Missing, MapBooks, Lower, Next, OthersSame, HasPerm;
    ghost var s0 := k.Snap();
    BeforeChunk(s0, k.root, k.hhdm, PageOf(address), pages);
    var ok := k.VmMap(address, perm.user, perm.writable, perm.executable);
    ExtraMapped(s0, k.Snap(), k.root, k.hhdm, file, chunks, pages, PageOf(address), perm);
  }

  ghost predicate StackMapped(s: Snapshot, root: nat, n: nat) {
    forall i :: 0 <= i < n ==> HasPerm(Walk(s.mem, root, StackPage(i)), DATA)
  }

  ghost predicate Vacant(s: Snapshot, root: nat, pages: set<Page>) {
    forall v :: v in pages ==> Walk(s.mem, root, v).Fault?
  }

  /** Loads the program whose file is in memory at `ehdr`, and maps its stack and test pages, up to the jump
      to user mode. */
  method ExecuteMod(k: AddressSpace, ehdr: nat, ghost file: seq<Byte>, segments: seq<Segment>, ghost pages: set<Page>)
    requires k.Valid() && KeptAt(k.Snap(), k.root) && SourceAt(k.Snap(), k.root, ehdr, file)
    requires PageDisjoint(segments) && AllFit(segments, |file|)
    requires ImagePages(AllChunks(segments)) !! ExtraPages() && Vacant(k.Snap(), k.root, ExtraPages())
    requires ProgramPages(segments) <= pages && Need(k.books, pages) <= |k.books.free|
    modifies k
    ensures k.Valid() && KeptAt(k.Snap(), k.root) && k.vHeap == old(k.vHeap)
    ensures Need(k.books, pages) <= |k.books.free|
    ensures OutsideSame(old(k.Snap()), k.Snap(), k.root, ProgramPages(segments))
    ensures LoadedBut(k.Snap(), k.root, file, segments, iset{})
  {
    hide SourceAt, Sound, Current, Walk, PageOf, KeptAt, AllHold, Loadable, Need, Lower, AllChunks, ImagePages,
         OthersSame, HasPerm, ByteLoaded, StackPage, Loading, PageDisjoint, AllFit, InPlace, ExtraPages, Vacant,
         StackMapped, OutsideSame;
    ghost var chunks, s0, area := AllChunks(segments), k.Snap(), ProgramPages(segments);
    SegmentsLoadable(segments, |file|);
    LoadSegments(k, ehdr, file, segments, pages);
    ghost var s1 := k.Snap();
    LoadedInPlace(s0, s1, k.root, file, chunks, pages, area);
    ghost var n := 0;
    var p := USER_STACK;
    NoStack(s1, k.root);
    while p < USER_STACK + STACK_SIZE
      invariant n <= 4 && p == USER_STACK + 0x1000 * n
      invariant k.Valid() && k.vHeap == old(k.vHeap) && InPlace(k.Snap(), k.root, file, chunks, pages)
      invariant StackMapped(k.Snap(), k.root, n) && Remaining(k.Snap(), k.root, n)
      invariant OutsideSame(s0, k.Snap(), k.root, area)
    {
      ghost var s := k.Snap();
      StackReady(s, k.root, n, chunks);
      MapExtra(k, p, DATA, file, chunks, pages);
      StackNext(s, k.Snap(), k.root, n);
      OutsideStep(s0, s, k.Snap(), k.root, area, PageOf(p), 0, 0);
      n := n + 1;
      p := p + 0x1000;
    }
    ghost var s4 := k.Snap();
    TestReady(s4, k.root, chunks);
    MapExtra(k, TEST_PAGE, DATA, file, chunks, pages);
    ghost var s5 := k.Snap();
    TestNext(s4, s5, k.root);
    OutsideStep(s0, s4, s5, k.root, area, PageOf(TEST_PAGE), 0, 0);
    MapExtra(k, TEST_PAGE_2, KERNEL_DATA, file, chunks, pages);
    Test2Next(s5, k.Snap(), k.root);
    OutsideStep(s0, s5, k.Snap(), k.root, area, PageOf(TEST_PAGE_2), 0, 0);
    AllBytes(k.Snap(), k.root, file, segments, pages);
    LoadedAll(k.Snap(), k.root, file, segments);
  }

  // ---- what a program finds ----

  /** The flags of a segment: read is 4, write is 2, execute is 1. */
  predicate HasBits(flags: nat, r: nat, w: nat, x: nat) {
    r < 2 && w < 2 && x < 2 && flags == 4 * r + 2 * w + x
  }

  /** The page can be executed if x is set, written if w is set, and used by the program unless all are clear. */
  predicate Grants(c: Cursor, r: nat, w: nat, x: nat) {
    && c.Mapped? && (c.perm.executable <==> x == 1) && (c.perm.writable <==> w == 1)
    && (c.perm.user <==> r == 1 || w == 1 || x == 1)
  }

  /** Every page of a LOAD segment has the permissions that the segment's flags ask for. */
  ghost predicate Protected(s: Snapshot, root: nat, segments: seq<Segment>) {
    forall i: nat, j: nat, r: nat, w: nat, x: nat :: IsByte(segments, i, j) && HasBits(segments[i].flags, r, w, x) ==>
      Grants(Walk(s.mem, root, PageOf(segments[i].vaddr + j)), r, w, x)
  }

  /** Stack and test pages, where kernel/proc.c:99-112 has them: the stack and the first test page can be read and
      written by the program, the second by the kernel only; none can be executed. */
  ghost predicate StackThere(s: Snapshot, root: nat) {
    && (forall v: Page :: 0x7000_0000 <= v < 0x7000_0004 ==> Grants(Walk(s.mem, root, v), 1, 1, 0))
    && Grants(Walk(s.mem, root, 0x40_0000), 1, 1, 0)
    && var c := Walk(s.mem, root, 0x40_0001);
       c.Mapped? && !c.perm.user && c.perm.writable && !c.perm.executable
  }

  /** The image is in place but for these bytes, under its segments' permissions, with its stack and test pages. */
  ghost predicate LoadedBut(s: Snapshot, root: nat, file: seq<Byte>, segments: seq<Segment>, touched: iset<nat>) {
    && (forall i: nat, j: nat :: IsByte(segments, i, j) && segments[i].vaddr + j !in touched ==>
          ByteLoaded(s, root, file, segments[i], j))
    && Protected(s, root, segments) && StackThere(s, root)
  }

  lemma FlagBits(flags: nat, r: nat, w: nat, x: nat)
    requires HasBits(flags, r, w, x)
    ensures flags / 2 % 2 == w && flags % 2 == x && (flags != 0 <==> r == 1 || w == 1 || x == 1)
  {
  }

  lemma LoadedAll(s: Snapshot, root: nat, file: seq<Byte>, segments: seq<Segment>)
    requires forall i: nat, j: nat :: IsByte(segments, i, j) ==> ByteLoaded(s, root, file, segments[i], j)
    requires StackMapped(s, root, 4)
    requires HasPerm(Walk(s.mem, root, PageOf(TEST_PAGE)), DATA)
    requires HasPerm(Walk(s.mem, root, PageOf(TEST_PAGE_2)), KERNEL_DATA)
    ensures LoadedBut(s, root, file, segments, iset{})
  {
    hide Walk, PageOf, StackPage, ReadVirtual;
    forall i: nat, j: nat, r: nat, w: nat, x: nat | IsByte(segments, i, j) && HasBits(segments[i].flags, r, w, x)
      ensures Grants(Walk(s.mem, root, PageOf(segments[i].vaddr + j)), r, w, x)
    {
      assert ByteLoaded(s, root, file, segments[i], j);
      FlagBits(segments[i].flags, r, w, x);
    }
    ExtraNumbers();
    forall v: Page | 0x7000_0000 <= v < 0x7000_0004 ensures Grants(Walk(s.mem, root, v), 1, 1, 0) {
      assert HasPerm(Walk(s.mem, root, StackPage(v - 0x7000_0000)), DATA);
    }
  }

  lemma ExtraNumbers()
    ensures forall i :: 0 <= i < 4 ==> StackPage(i) == 0x7000_0000 + i
    ensures PageOf(TEST_PAGE) == 0x40_0000 && PageOf(TEST_PAGE_2) == 0x40_0001
  {
    forall i | 0 <= i < 4 ensures StackPage(i) == 0x7000_0000 + i {
      assert (USER_STACK + 0x1000 * i) / 0x1000 == 0x7000_0000 + i;
    }
  }

  /** The stack pages from n on, and the test pages, are still to be mapped. */
  ghost predicate Remaining(s: Snapshot, root: nat, n: nat) {
    && (forall i :: n <= i < 4 ==> Walk(s.mem, root, StackPage(i)).Fault?)
    && Walk(s.mem, root, PageOf(TEST_PAGE)).Fault? && Walk(s.mem, root, PageOf(TEST_PAGE_2)).Fault?
  }

  /** One more page of the area has been mapped or written to. */
  lemma OutsideStep(s00: Snapshot, s0: Snapshot, s: Snapshot, root: nat, area: set<Page>, u: Page, from: nat, to: nat)
    requires OutsideSame(s00, s0, root, area) && OthersSame(s0, s, root, u, from, to) && u in area
    ensures OutsideSame(s00, s, root, area)
  {
    hide Walk, PageOf, ReadVirtual, ForeignSame;
    ForeignBoth(s00, s0, s);
  }

  lemma OutsideBoth(a: Snapshot, b: Snapshot, c: Snapshot, root: nat, area: set<Page>, more: set<Page>)
    requires OutsideSame(a, b, root, area) && OutsideSame(b, c, root, more)
    ensures OutsideSame(a, c, root, area + more)
  {
    hide Walk, PageOf, ReadVirtual, ForeignSame;
    ForeignBoth(a, b, c);
  }

  lemma LoadedInPlace(s0: Snapshot, s: Snapshot, root: nat, file: seq<Byte>, chunks: seq<Chunk>, pages: set<Page>,
                      area: set<Page>)
    requires Loadable(chunks, |file|) && Loading(s0, s, root, file, chunks, |chunks|, pages)
    requires ImagePages(chunks) !! ExtraPages() && Vacant(s0, root, ExtraPages())
    requires ImagePages(chunks) <= area
    ensures InPlace(s, root, file, chunks, pages) && Remaining(s, root, 0) && OutsideSame(s0, s, root, area)
  {
    hide Walk, PageOf, KeptAt, AllHold, Loadable, Need, Lower, ImagePages, ReadVirtual, StackPage, ForeignSame;
    forall v | v in ExtraPages() ensures Walk(s.mem, root, v).Fault? {
      assert v !in ImagePages(chunks);
    }
    ExtraDistinct();
  }

  lemma NoStack(s: Snapshot, root: nat)
    ensures StackMapped(s, root, 0)
  {
  }

  lemma StackReady(s: Snapshot, root: nat, n: nat, chunks: seq<Chunk>)
    requires n < 4 && Remaining(s, root, n) && ImagePages(chunks) !! ExtraPages()
    ensures var v := PageOf(USER_STACK + 0x1000 * n);
      Lower(v) && v in ExtraPages() && v !in ImagePages(chunks) && Walk(s.mem, root, v).Fault? && v == StackPage(n)
  {
    hide Walk, PageOf, Lower, ImagePages, ExtraPages;
    ExtraDistinct();
    assert StackPage(n) == PageOf(USER_STACK + 0x1000 * n);
  }

  lemma StackNext(s0: Snapshot, s: Snapshot, root: nat, n: nat)
    requires n < 4 && StackMapped(s0, root, n) && Remaining(s0, root, n)
    requires HasPerm(Walk(s.mem, root, PageOf(USER_STACK + 0x1000 * n)), DATA)
    requires OthersSame(s0, s, root, PageOf(USER_STACK + 0x1000 * n), 0, 0)
    ensures StackMapped(s, root, n + 1) && Remaining(s, root, n + 1)
  {
    hide Walk, PageOf, Lower, ExtraPages, HasPerm, ForeignSame, ReadVirtual;
    ExtraDistinct();
    assert StackPage(n) == PageOf(USER_STACK + 0x1000 * n);
  }

  lemma TestReady(s: Snapshot, root: nat, chunks: seq<Chunk>)
    requires Remaining(s, root, 4) && ImagePages(chunks) !! ExtraPages()
    ensures forall v :: v in {PageOf(TEST_PAGE), PageOf(TEST_PAGE_2)} ==>
      Lower(v) && v in ExtraPages() && v !in ImagePages(chunks) && Walk(s.mem, root, v).Fault?
  {
    hide Walk, PageOf, Lower, ImagePages;
    ExtraDistinct();
  }

  lemma TestNext(s0: Snapshot, s: Snapshot, root: nat)
    requires StackMapped(s0, root, 4) && Remaining(s0, root, 4) && OthersSame(s0, s, root, PageOf(TEST_PAGE), 0, 0)
    ensures StackMapped(s, root, 4) && Walk(s.mem, root, PageOf(TEST_PAGE_2)).Fault?
  {
    hide Walk, PageOf, Lower, ExtraPages, HasPerm, StackPage, ForeignSame, ReadVirtual;
    ExtraDistinct();
  }

  lemma Test2Next(s0: Snapshot, s: Snapshot, root: nat)
    requires StackMapped(s0, root, 4) && OthersSame(s0, s, root, PageOf(TEST_PAGE_2), 0, 0)
    ensures StackMapped(s, root, 4)
    ensures Walk(s.mem, root, PageOf(TEST_PAGE)) == Walk(s0.mem, root, PageOf(TEST_PAGE))
  {
    hide Walk, PageOf, Lower, ExtraPages, HasPerm, StackPage, ForeignSame, ReadVirtual;
    ExtraDistinct();
  }

  lemma AllBytes(s: Snapshot, root: nat, file: seq<Byte>, segments: seq<Segment>, pages: set<Page>)
    requires InPlace(s, root, file, AllChunks(segments), pages)
    ensures KeptAt(s, root) && Need(s.books, pages) <= |s.books.free|
    ensures forall i: nat, j: nat :: IsByte(segments, i, j) ==> ByteLoaded(s, root, file, segments[i], j)
  {
    hide AllHold, Loadable, KeptAt, Need, AllChunks, ByteLoaded;
    forall i: nat, j: nat | IsByte(segments, i, j)
      ensures ByteLoaded(s, root, file, segments[i], j)
    {
      ImageLoaded(s, root, file, segments, i, j);
    }
  }

  // ---- exec: tear down, then load ----

  /** The frames for `pages` once the lower half has been torn down. */
  predicate EnoughAfterTeardown(b: Books, pages: set<Page>) {
    |NeededTables(UpperTables(b.tables), pages)| + |pages| <= |b.free| + |LowerTables(b)|
  }

  lemma TornNeed(b: Books, b': Books, pages: set<Page>)
    requires Next(b, Teardown, b') && EnoughAfterTeardown(b, pages)
    ensures Need(b', pages) <= |b'.free|
  {
    hide NeededTables, UpperTables, UpperPages, LowerTables, LowerFrames;
    var freed: seq<nat> :| NoDuplicates(freed) && Members(freed) == LowerTables(b) && b' == TornBooks(b, freed);
    MembersCount(freed);
    Fewer(pages, b'.pages.Keys);
  }

  lemma Fewer(a: set<Page>, b: set<Page>)
    ensures |a - b| <= |a|
  {
    assert a == (a - b) + (a * b);
  }

  /** The teardown, for memory that was never adopted. */
  lemma TornForeign(s0: Snapshot, s: Snapshot, root: nat, hhdm: nat)
    requires SoundAt(s0, root, hhdm) && Next(s0.books, Op.Teardown, s.books) && |s.mem| == |s0.mem|
    requires forall f :: 0 <= f < |s.mem| && f != root && f !in LowerTables(s0.books) ==> s.mem[f] == s0.mem[f]
    ensures ForeignSame(s0, s)
  {
    hide Walk, Chain, Machine, Balanced, TornFrom, LowerPath, AllLinked, Closed;
    StepKeeps(s0.books, Op.Teardown, s.books);
    assert root in s0.books.tables.Values by { assert s0.books.tables[Top] == root; }
    assert LowerTables(s0.books) <= s0.books.tables.Values;
  }

  /** The program's pages are in the lower half. */
  lemma ProgramLower(segments: seq<Segment>, fileSize: nat)
    requires AllFit(segments, fileSize)
    ensures forall v :: v in ProgramPages(segments) ==> Lower(v)
  {
    hide Lower, PageOf, SegmentChunks, ExtraPages, AllChunks;
    ExtraDistinct();
    var chunks := AllChunks(segments);
    forall i | 0 <= i < |chunks| ensures Lower(PageOf(chunks[i].vaddr)) {
      var j := ChunkFrom(segments, chunks[i]);
      assert Fits(chunks[i], fileSize);
    }
  }

  lemma TornVacant(s: Snapshot, root: nat)
    requires forall v: Page :: Lower(v) ==> Walk(s.mem, root, v).Fault?
    ensures Vacant(s, root, ExtraPages())
  {
    hide Walk, Lower, ExtraPages, StackPage, PageOf;
    ExtraDistinct();
  }

  /** From s0 to s everything in the lower half but the pages of `area` has gone; the upper half
      translates as before, and memory that was never adopted is the same. */
  ghost predicate OnlyArea(s0: Snapshot, s: Snapshot, root: nat, area: set<Page>) {
    && ForeignSame(s0, s)
    && (forall v: Page :: Lower(v) && v !in area ==> Walk(s.mem, root, v).Fault?)
    && (forall v: Page :: !Lower(v) ==> Walk(s.mem, root, v) == Walk(s0.mem, root, v))
  }

  lemma TornThenLoaded(s0: Snapshot, s1: Snapshot, s: Snapshot, root: nat, area: set<Page>)
    requires OnlyArea(s0, s1, root, {}) && OutsideSame(s1, s, root, area) && forall v :: v in area ==> Lower(v)
    ensures OnlyArea(s0, s, root, area)
  {
    hide Walk, PageOf, ReadVirtual, ForeignSame, Lower;
    ForeignBoth(s0, s1, s);
  }

  /** Memory of the upper half that was never adopted, such as the kernel's own, reads as before. */
  lemma UpperReads(s0: Snapshot, s: Snapshot, root: nat, area: set<Page>, a: Address)
    requires OnlyArea(s0, s, root, area) && !Lower(PageOf(a))
    requires Walk(s0.mem, root, PageOf(a)).Mapped? && Walk(s0.mem, root, PageOf(a)).frame !in Pool(s0.books)
    ensures ReadVirtual(s.mem, root, a) == ReadVirtual(s0.mem, root, a)
  {
    hide Walk, PageOf, Lower, Pool, ReadVirtual;
    ReadSame(s0, s, root, a);
  }

  /** The exec system call, once the program has been found: whatever ran before, the new image
      is complete, with its stack, and alone in the lower half, and the heap starts afresh. There are
      frames left for the rest of `pages`. */
  method Exec(k: AddressSpace, ehdr: nat, ghost file: seq<Byte>, segments: seq<Segment>, ghost pages: set<Page>)
    requires k.Valid() && RootExecutable(k.mem, k.root) && SourceAt(k.Snap(), k.root, ehdr, file)
    requires PageDisjoint(segments) && AllFit(segments, |file|)
    requires ImagePages(AllChunks(segments)) !! ExtraPages()
    requires ProgramPages(segments) <= pages && EnoughAfterTeardown(k.books, pages)
    modifies k
    ensures k.Valid() && KeptAt(k.Snap(), k.root) && k.vHeap == 0x1_0000
    ensures Need(k.books, pages) <= |k.books.free|
    ensures OnlyArea(old(k.Snap()), k.Snap(), k.root, ProgramPages(segments))
    ensures LoadedBut(k.Snap(), k.root, file, segments, iset{})
  {
    hide SourceAt, IsTorn, Sound, Current, Walk, PageOf, Kept, Next, Need, Lower, AllChunks, ImagePages, HasPerm,
         ByteLoaded, StackPage, PageDisjoint, AllFit, ExtraPages, Vacant, StackMapped, EnoughAfterTeardown,
         LowerTables, RootExecutable, ProgramPages, ForeignSame, OutsideSame;
    ghost var s0 := k.Snap();
    k.UnmapLowerHalf();
    ghost var s1 := k.Snap();
    TornForeign(s0, s1, k.root, k.hhdm);
    TornNeed(s0.books, k.books, pages);
    TornVacant(s1, k.root);
    SourceStays(s0, s1, k.root, ehdr, file);
    ExecuteMod(k, ehdr, file, segments, pages);
    ProgramLower(segments, |file|);
    TornThenLoaded(s0, s1, k.Snap(), k.root, ProgramPages(segments));
  }

  /** Once the kernel owns the lower half, the next exec finds what it needs there. */
  lemma KeptExecutable(s: Snapshot, root: nat, hhdm: nat)
    requires SoundAt(s, root, hhdm) && KeptAt(s, root)
    ensures RootExecutable(s.mem, root)
  {
    hide Walk, Chain, Machine, Balanced, AllLinked, Closed;
    forall i | 0 <= i < 256 ensures !s.mem[root][i].noExecute {
      assert First(Down(Top, i)) == i && Depth(Top) == 0;
      assert OpenEntry(s.mem[s.books.tables[Top]][i], 0);
    }
  }
}
