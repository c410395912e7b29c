/** kernel/proc.c: loading the segments of an ELF file through the page tables. */
module Loader {
  import opened Words
  import opened PageTable
  import opened ByteMemory
  import opened Ledger
  import opened FreeList
  import opened Space
  import opened MapSteps
  import opened UserHalf
  import opened Mapping
  import opened Leaves
  import opened UserPages
  import opened Caches
  import opened MapStores
  import opened HalfWritten
  import opened Kernel
  import opened UserMemory

  // ---- what the loop does, chunk by chunk ----

  const CHUNK := 2048
  const LOAD := 1

  datatype Segment = Segment(kind: nat, flags: nat, offset: nat, vaddr: nat, memsz: nat)

  /** `size` bytes of the file, to be placed within one page with these permissions. */
  datatype Chunk = Chunk(vaddr: nat, offset: nat, size: nat, perm: Perm)

  /** A segment with no flags is not even readable by the program; the others always are. */
  function SegmentPerm(flags: nat): Perm {
    Perm(flags != 0, flags / 2 % 2 == 1, flags % 2 == 1)
  }

  function ChunksFrom(vaddr: nat, offset: nat, size: nat, perm: Perm): seq<Chunk>
    decreases size
  {
    if size == 0 then []
    else if size < CHUNK then [Chunk(vaddr, offset, size, perm)]
    else [Chunk(vaddr, offset, CHUNK, perm)] + ChunksFrom(vaddr + CHUNK, offset + CHUNK, size - CHUNK, perm)
  }

  function SegmentChunks(s: Segment): seq<Chunk> {
    if s.kind == LOAD then ChunksFrom(s.vaddr, s.offset, s.memsz, SegmentPerm(s.flags)) else []
  }

  function AllChunks(segments: seq<Segment>): seq<Chunk> {
    if segments == [] then [] else SegmentChunks(segments[0]) + AllChunks(segments[1..])
  }

  /** The chunk lies in one page of the lower half and its bytes are in the file. */
  predicate Fits(c: Chunk, fileSize: nat) {
    && 0 < c.size && c.vaddr % 4096 + c.size <= 4096 && Lower(PageOf(c.vaddr)) && c.vaddr < 0x1_0000_0000_0000
    && c.offset + c.size <= fileSize
  }

  /** Two chunks are in different pages, or are different bytes of a page with the same permissions. */
  predicate Agree(c: Chunk, d: Chunk) {
    PageOf(c.vaddr) != PageOf(d.vaddr) ||
    (c.perm == d.perm && (c.vaddr + c.size <= d.vaddr || d.vaddr + d.size <= c.vaddr))
  }

  ghost predicate Loadable(chunks: seq<Chunk>, fileSize: nat) {
    && (forall i :: 0 <= i < |chunks| ==> Fits(chunks[i], fileSize))
    && (forall i, j :: 0 <= i < j < |chunks| ==> Agree(chunks[i], chunks[j]))
  }

  /** A loaded chunk: its page has the permissions, and its bytes read as in the file. */
  ghost predicate Holds(s: Snapshot, root: nat, file: seq<Byte>, c: Chunk) {
    && c.offset + c.size <= |file|
    && PageOf(c.vaddr) in s.books.pages
    && Walk(s.mem, root, PageOf(c.vaddr)) == Mapped(s.books.pages[PageOf(c.vaddr)], c.perm)
    && forall a: Address :: c.vaddr <= a < c.vaddr + c.size ==>
         ReadVirtual(s.mem, root, a) == Some(file[c.offset + (a - c.vaddr)])
  }

  /** Earlier chunks survive the loading of one that agrees with them. */
  lemma HoldsStill(s0: Snapshot, s: Snapshot, root: nat, file: seq<Byte>, c: Chunk, d: Chunk)
    requires Fits(c, |file|) && Fits(d, |file|) && Agree(c, d) && Holds(s0, root, file, c)
    requires OthersSame(s0, s, root, PageOf(d.vaddr), d.vaddr, d.vaddr + d.size)
    requires PageOf(c.vaddr) == PageOf(d.vaddr) && c.perm == d.perm ==>
      PageOf(c.vaddr) in s.books.pages &&
      Walk(s.mem, root, PageOf(c.vaddr)) == Mapped(s.books.pages[PageOf(c.vaddr)], c.perm)
    ensures Holds(s, root, file, c)
  {
    hide Walk, ReadVirtual, Lower, PageOf;
    forall a: Address | c.vaddr <= a < c.vaddr + c.size
      ensures ReadVirtual(s.mem, root, a) == Some(file[c.offset + (a - c.vaddr)])
    {
      SamePage(c.vaddr, a - c.vaddr);
    }
  }

  // ---- how many frames loading takes ----

  function NeededTables(tables: Tables, image: set<Page>): set<Path> {
    set v, d | v in image && 1 <= d <= 3 && PathTo(v, d) !in tables :: PathTo(v, d)
  }

  /** The frames that mapping the pages of `image` will take from the free list: absent tables and absent pages. */
  function Need(b: Books, image: set<Page>): nat {
    |NeededTables(b.tables, image)| + |image - b.pages.Keys|
  }

  lemma {:induction false} GrownNeed(b: Books, v: Page, image: set<Page>, depth: nat)
    requires v in image && depth <= 3 && Missing(b.tables, v, depth) <= |b.free|
    ensures |NeededTables(Grown(b, v, depth).tables, image)| + Missing(b.tables, v, depth) ==
      |NeededTables(b.tables, image)|
  {
    hide PathTo, NeededTables;
    if depth > 0 {
      GrownNeed(b, v, image, depth - 1);
      var g, p := Grown(b, v, depth - 1), PathTo(v, depth);
      if p !in b.tables {
        DepthOf(v, depth);
        assert p !in g.tables;
        OneLess(g.tables, v, image, depth, g.free[0]);
      }
    }
  }

  lemma OneLess(tables: Tables, v: Page, image: set<Page>, depth: nat, f: nat)
    requires v in image && 1 <= depth <= 3 && PathTo(v, depth) !in tables
    ensures |NeededTables(tables[PathTo(v, depth) := f], image)| + 1 == |NeededTables(tables, image)|
  {
    hide PathTo;
    var p := PathTo(v, depth);
    assert p in NeededTables(tables, image);
    assert NeededTables(tables[p := f], image) == NeededTables(tables, image) - {p};
  }

  lemma DepthOf(v: Page, d: nat)
    requires d <= 3
    ensures Depth(PathTo(v, d)) == d
  {
  }

  lemma MissingNeed(b: Books, v: Page, image: set<Page>, depth: nat)
    requires v in image && depth <= 3
    ensures Missing(b.tables, v, depth) <= |NeededTables(b.tables, image)|
  {
    var some := b.(free := seq(3, _ => 0));
    GrownNeed(some, v, image, depth);
  }

  /** Mapping a page takes its absent tables off the needed ones... */
  lemma MapNeedTables(b: Books, v: Page, image: set<Page>)
    requires v in image && Missing(b.tables, v, 3) < |b.free|
    ensures |NeededTables(MapBooks(b, v).tables, image)| + Missing(b.tables, v, 3) == |NeededTables(b.tables, image)|
  {
    hide Grown, NeededTables, Missing, PathTo;
    GrownNeed(b, v, image, 3);
  }

  /** ...and the page off the absent pages, each for one frame of the free list. */
  lemma MapNeedPages(b: Books, v: Page, image: set<Page>)
    requires v in image && v !in b.pages && Missing(b.tables, v, 3) < |b.free|
    ensures |image - MapBooks(b, v).pages.Keys| + 1 == |image - b.pages.Keys|
    ensures |MapBooks(b, v).free| + Missing(b.tables, v, 3) + 1 == |b.free|
  {
    hide Grown, Missing, PathTo;
    assert image - MapBooks(b, v).pages.Keys == (image - b.pages.Keys) - {v};
  }

  /** If there are frames for the whole image, there are for the next page, and for the rest after it. */
  lemma MapNeed(b: Books, v: Page, image: set<Page>)
    requires v in image && v !in b.pages && Need(b, image) <= |b.free|
    ensures Missing(b.tables, v, 3) < |b.free|
    ensures Need(MapBooks(b, v), image) <= |MapBooks(b, v).free|
  {
    hide Grown, NeededTables, Missing, PathTo, MapBooks;
    MissingNeed(b, v, image, 3);
    assert v in image - b.pages.Keys;
    MapNeedTables(b, v, image);
    MapNeedPages(b, v, image);
  }

  // ---- the code ----

  /** Maps, copies and protects one chunk of the file that is in memory at `ehdr`. */
  method LoadChunk(k: AddressSpace, ehdr: nat, ghost file: seq<Byte>, c: Chunk, ghost image: set<Page>)
    requires k.Valid() && KeptAt(k.Snap(), k.root) && SourceAt(k.Snap(), k.root, ehdr, file)
    requires Fits(c, |file|) && PageOf(c.vaddr) in image && Need(k.books, image) <= |k.books.free|
    modifies k
    ensures k.Valid() && KeptAt(k.Snap(), k.root) && k.vHeap == old(k.vHeap)
    ensures SourceAt(k.Snap(), k.root, ehdr, file)
    ensures Need(k.books, image) <= |k.books.free|
    ensures Holds(k.Snap(), k.root, file, c)
    ensures OthersSame(old(k.Snap()), k.Snap(), k.root, PageOf(c.vaddr), c.vaddr, c.vaddr + c.size)
  {
    hide Sound, Walk, Current, Coherent, CanHold, StoresTo, NothingBehind, PageOf, Stored, KeptAt, SameWalks, NoHuge,
         IsMapped, IsProtected, OthersSame, Need, Missing, MapBooks, Lower, Next, ReadVirtual, SourceAt;
    ghost var u := PageOf(c.vaddr);
    ghost var s0 := k.Snap();
    BeforeChunk(s0, k.root, k.hhdm, u, image);
    var mapped := k.VmMap(c.vaddr, true, true, true);
    ghost var s1 := k.Snap();
    AfterMap(s0, s1, k.root, k.hhdm, u, image);
    SourceOthers(s0, s1, k.root, ehdr, file, u, 0, 0);
    SourceSlice(s1, k.root, ehdr, file, c.offset, c.size);
    SourceStart(s1, k.root, ehdr + c.offset, file[c.offset..c.offset + c.size]);
    Memcpy(k, c.vaddr, ehdr + c.offset, c.size, file[c.offset..c.offset + c.size]);
    ghost var s2 := k.Snap();
    AfterCopy(s0, s1, s2, k.root, k.hhdm, c, file);
    KeptNoHuge(s2, k.root, u);
    DataFrame(s2, k.root, k.hhdm, u);
    var ok := k.VmProtect(c.vaddr, c.perm.user, c.perm.writable, c.perm.executable);
    AfterProtect(s0, s2, k.Snap(), k.root, k.hhdm, c, file);
    SourceOthers(s0, k.Snap(), k.root, ehdr, file, u, c.vaddr, c.vaddr + c.size);
  }

  /** The file stays in memory while pages of the lower half change. */
  lemma SourceOthers(s0: Snapshot, s: Snapshot, root: nat, ehdr: nat, file: seq<Byte>, u: Page, from: nat, to: nat)
    requires SourceAt(s0, root, ehdr, file) && OthersSame(s0, s, root, u, from, to) && Lower(u)
    ensures SourceAt(s, root, ehdr, file)
  {
    hide SourceAt, SameExcept, Lower;
    SourceExcept(s0, s, root, ehdr, file, {u}, iset a: nat | PageOf(a) == u && from <= a < to);
  }

  lemma SourceStart(s: Snapshot, root: nat, src: nat, bytes: seq<Byte>)
    requires SourceAt(s, root, src, bytes) && bytes != []
    ensures src < 0x1_0000_0000_0000
  {
    hide UpperByte;
  }

  lemma BeforeChunk(s: Snapshot, root: nat, hhdm: nat, u: Page, image: set<Page>)
    requires SoundAt(s, root, hhdm) && KeptAt(s, root) && Lower(u) && u in image
    requires Need(s.books, image) <= |s.books.free|
    ensures NoHuge(s.mem, s.books.tables, u)
    ensures Walk(s.mem, root, u).Fault? ==> Missing(s.books.tables, u, 3) < |s.books.free| && u !in s.books.pages
  {
    hide Walk, NoHuge, Need, Missing, OpenHalf, Chain, Machine, Balanced, Tree, Lower, MapBooks;
    OpenNoHuge(s.mem, s.books.tables, u);
    if Walk(s.mem, root, u).Fault? {
      assert u !in s.books.pages;
      MapNeed(s.books, u, image);
    }
  }

  lemma KeptNoHuge(s: Snapshot, root: nat, u: Page)
    requires KeptAt(s, root) && Lower(u)
    ensures NoHuge(s.mem, s.books.tables, u)
  {
    hide Walk, NoHuge, OpenHalf, Lower;
    OpenNoHuge(s.mem, s.books.tables, u);
  }

  lemma AfterMap(s0: Snapshot, s1: Snapshot, root: nat, hhdm: nat, u: Page, image: set<Page>)
    requires SoundAt(s0, root, hhdm) && SoundAt(s1, root, hhdm) && KeptAt(s0, root) && Lower(u)
    requires u in image && Need(s0.books, image) <= |s0.books.free|
    requires if Walk(s0.mem, root, u).Fault? then IsMapped(s0, s1, root, u, FULL) else s1 == s0
    ensures u in s1.books.pages && Need(s1.books, image) <= |s1.books.free|
    ensures OthersSame(s0, s1, root, u, 0, 0)
  {
    hide Walk, NoHuge, Need, Missing, OpenHalf, Sound, Lower, MapBooks, OthersSame, KeptAt;
    MapOthers(s0, s1, root, hhdm, u, FULL);
    if Walk(s0.mem, root, u).Fault? {
      BeforeChunk(s0, root, hhdm, u, image);
      MapNeed(s0.books, u, image);
      MappedBooks(s0, s1, root, u);
    }
  }

  lemma MappedBooks(s0: Snapshot, s1: Snapshot, root: nat, u: Page)
    requires IsMapped(s0, s1, root, u, FULL)
    ensures Missing(s0.books.tables, u, 3) < |s0.books.free| && s1.books == MapBooks(s0.books, u)
  {
    hide Missing, MapBooks, Walk;
  }

  /** The bytes of the chunk read as in the file. */
  ghost predicate Copied(s: Snapshot, root: nat, file: seq<Byte>, c: Chunk)
    requires c.offset + c.size <= |file|
  {
    forall a: Address :: c.vaddr <= a < c.vaddr + c.size ==>
      ReadVirtual(s.mem, root, a) == Some(file[c.offset + (a - c.vaddr)])
  }

  lemma AfterCopy(s0: Snapshot, s1: Snapshot, s2: Snapshot, root: nat, hhdm: nat, c: Chunk, file: seq<Byte>)
    requires Fits(c, |file|) && SoundAt(s1, root, hhdm) && PageOf(c.vaddr) in s1.books.pages
    requires OthersSame(s0, s1, root, PageOf(c.vaddr), 0, 0)
    requires s2 == s1.(mem := s2.mem) && SameWalks(s1.mem, s2.mem, root)
    requires IsStored(s1.mem, s2.mem, Place(s1, PageOf(c.vaddr), c.vaddr), file[c.offset..c.offset + c.size])
    ensures Copied(s2, root, file, c)
    ensures OthersSame(s0, s2, root, PageOf(c.vaddr), c.vaddr, c.vaddr + c.size)
  {
    hide Walk, Sound, Lower, PageOf, ReadVirtual, Stored, Place, ForeignSame;
    var u, bytes := PageOf(c.vaddr), file[c.offset..c.offset + c.size];
    DataFrame(s1, root, hhdm, u);
    PlaceFrame(s1, u, c.vaddr);
    StoreForeign(s1, s2, u, c.vaddr, bytes);
    ForeignBoth(s0, s1, s2);
    forall a: Address | PageOf(a) in s1.books.pages
      ensures ReadVirtual(s2.mem, root, a) ==
        if c.vaddr <= a < c.vaddr + c.size then Some(bytes[a - c.vaddr]) else ReadVirtual(s1.mem, root, a)
    {
      StoreReads(s1, s2, root, hhdm, c.vaddr, bytes, a);
    }
    forall a: Address | c.vaddr <= a < c.vaddr + c.size ensures PageOf(a) == u {
      SamePage(c.vaddr, a - c.vaddr);
    }
  }

  lemma AfterProtect(s0: Snapshot, s2: Snapshot, s3: Snapshot, root: nat, hhdm: nat, c: Chunk, file: seq<Byte>)
    requires Fits(c, |file|) && SoundAt(s2, root, hhdm) && SoundAt(s3, root, hhdm) && KeptAt(s2, root)
    requires PageOf(c.vaddr) in s2.books.pages && Copied(s2, root, file, c)
    requires OthersSame(s0, s2, root, PageOf(c.vaddr), c.vaddr, c.vaddr + c.size)
    requires IsProtected(s2, s3, root, PageOf(c.vaddr), c.perm)
    ensures Holds(s3, root, file, c) && s3.books == s2.books
    ensures OthersSame(s0, s3, root, PageOf(c.vaddr), c.vaddr, c.vaddr + c.size)
  {
    hide Walk, Sound, Lower, PageOf, ReadVirtual, KeptAt, OnlyLeaf, ForeignSame;
    var u := PageOf(c.vaddr);
    ProtectOthers(s2, s3, root, hhdm, u, c.perm);
    ForeignBoth(s0, s2, s3);
    ProtectUser(s2, s3, root, hhdm, u, c.perm);
    DataFrame(s2, root, hhdm, u);
    forall a: Address | c.vaddr <= a < c.vaddr + c.size ensures PageOf(a) == u {
      SamePage(c.vaddr, a - c.vaddr);
    }
  }

  // ---- whole segments ----

  ghost predicate AllHold(s: Snapshot, root: nat, file: seq<Byte>, chunks: seq<Chunk>, n: nat)
    requires n <= |chunks|
  {
    forall i :: 0 <= i < n ==> Holds(s, root, file, chunks[i])
  }

  function ImagePages(chunks: seq<Chunk>): set<Page> {
    set i | 0 <= i < |chunks| :: PageOf(chunks[i].vaddr)
  }

  /** The first n chunks are in place, and there are frames for the rest of `pages`. */
  ghost predicate Loading(s0: Snapshot, s: Snapshot, root: nat, file: seq<Byte>, chunks: seq<Chunk>, n: nat,
                          pages: set<Page>) {
    && n <= |chunks| && AllHold(s, root, file, chunks, n) && KeptAt(s, root)
    && OutsideSame(s0, s, root, ImagePages(chunks))
    && ImagePages(chunks) <= pages && Need(s.books, pages) <= |s.books.free|
  }

  lemma OneMore(s00: Snapshot, s0: Snapshot, s: Snapshot, root: nat, file: seq<Byte>, chunks: seq<Chunk>, n: nat,
                pages: set<Page>)
    requires n < |chunks| && Loadable(chunks, |file|) && Loading(s00, s0, root, file, chunks, n, pages)
    requires Holds(s, root, file, chunks[n]) && KeptAt(s, root) && Need(s.books, pages) <= |s.books.free|
    requires OthersSame(s0, s, root, PageOf(chunks[n].vaddr), chunks[n].vaddr, chunks[n].vaddr + chunks[n].size)
    ensures Loading(s00, s, root, file, chunks, n + 1, pages)
  {
    hide Walk, ReadVirtual, PageOf, Fits, Agree, ImagePages, KeptAt, Need, ForeignSame;
    ForeignBoth(s00, s0, s);
    forall i | 0 <= i < n ensures Holds(s, root, file, chunks[i]) {
      HoldsStill(s0, s, root, file, chunks[i], chunks[n]);
    }
    InImage(chunks, n);
  }

  lemma InImage(chunks: seq<Chunk>, n: nat)
    requires n < |chunks|
    ensures PageOf(chunks[n].vaddr) in ImagePages(chunks)
  {
  }

  /** What loading the next chunk needs. */
  lemma ChunkReady(s0: Snapshot, s: Snapshot, root: nat, file: seq<Byte>, chunks: seq<Chunk>, n: nat, pages: set<Page>)
    requires Loading(s0, s, root, file, chunks, n, pages) && n < |chunks| && Loadable(chunks, |file|)
    ensures KeptAt(s, root) && Fits(chunks[n], |file|)
    ensures PageOf(chunks[n].vaddr) in ImagePages(chunks) && PageOf(chunks[n].vaddr) in pages
    ensures Need(s.books, pages) <= |s.books.free|
  {
    hide Walk, PageOf, Fits, Agree, ImagePages, KeptAt, Need, AllHold, OutsideSame;
    InImage(chunks, n);
  }

  /** Loads one segment, whose chunks come next. */
  method LoadSegment(k: AddressSpace, ehdr: nat, ghost file: seq<Byte>, segment: Segment, ghost s00: Snapshot,
                     ghost chunks: seq<Chunk>,
                     ghost from: nat, ghost rest: seq<Chunk>, ghost pages: set<Page>) returns (ghost n: nat)
    requires k.Valid() && Loadable(chunks, |file|) && Loading(s00, k.Snap(), k.root, file, chunks, from, pages)
    requires SourceAt(k.Snap(), k.root, ehdr, file)
    requires segment.kind == LOAD && from <= |chunks| && chunks[from..] == SegmentChunks(segment) + rest
    modifies k
    ensures k.Valid() && k.vHeap == old(k.vHeap) && Loading(s00, k.Snap(), k.root, file, chunks, n, pages)
    ensures SourceAt(k.Snap(), k.root, ehdr, file)
    ensures n <= |chunks| && chunks[n..] == rest
  {
    hide SourceAt, Sound, Current, PageOf, KeptAt, Holds, OthersSame, Loading, Loadable, Need, Fits, Agree,
         ImagePages, SegmentPerm;
    n := from;
    var size: nat := segment.memsz;
    var offset: nat := segment.offset;
    var vaddr: nat := segment.vaddr;
    var perm := SegmentPerm(segment.flags);
    while size > 0
      invariant k.Valid() && k.vHeap == old(k.vHeap) && Loading(s00, k.Snap(), k.root, file, chunks, n, pages)
      invariant SourceAt(k.Snap(), k.root, ehdr, file)
      invariant n <= |chunks| && chunks[n..] == ChunksFrom(vaddr, offset, size, perm) + rest
    {
      ghost var s0 := k.Snap();
      var last := size < CHUNK;
      var c := Chunk(vaddr, offset, if last then size else CHUNK, perm);
      assert c == chunks[n..][0] == chunks[n];
      ChunkReady(s00, s0, k.root, file, chunks, n, pages);
      LoadChunk(k, ehdr, file, c, pages);
      OneMore(s00, s0, k.Snap(), k.root, file, chunks, n, pages);
      assert chunks[n + 1..] == chunks[n..][1..];
      n := n + 1;
      if last {
        return;
      }
      vaddr := vaddr + CHUNK;
      offset := offset + CHUNK;
      size := size - CHUNK;
    }
  }

  method LoadSegments(k: AddressSpace, ehdr: nat, ghost file: seq<Byte>, segments: seq<Segment>,
                      ghost pages: set<Page>)
    requires k.Valid() && KeptAt(k.Snap(), k.root) && SourceAt(k.Snap(), k.root, ehdr, file)
    requires Loadable(AllChunks(segments), |file|)
    requires ImagePages(AllChunks(segments)) <= pages && Need(k.books, pages) <= |k.books.free|
    modifies k
    ensures k.Valid() && k.vHeap == old(k.vHeap)
    ensures Loading(old(k.Snap()), k.Snap(), k.root, file, AllChunks(segments), |AllChunks(segments)|, pages)
  {
    hide SourceAt, Sound, Current, Loadable, Loading, Need, ImagePages, KeptAt, SegmentChunks;
    ghost var s00, chunks := k.Snap(), AllChunks(segments);
    ghost var n: nat := 0;
    NothingYet(s00, k.root, file, chunks, pages);
    assert segments[0..] == segments;
    for i := 0 to |segments|
      invariant k.Valid() && k.vHeap == old(k.vHeap) && Loading(s00, k.Snap(), k.root, file, chunks, n, pages)
      invariant SourceAt(k.Snap(), k.root, ehdr, file)
      invariant n <= |chunks| && chunks[n..] == AllChunks(segments[i..])
    {
      assert segments[i..][1..] == segments[i + 1..];
      NextSegment(segments[i..]);
      if segments[i].kind == LOAD {
        n := LoadSegment(k, ehdr, file, segments[i], s00, chunks, n, AllChunks(segments[i + 1..]), pages);
      }
    }
    assert |chunks[n..]| == 0;
  }

  lemma NextSegment(segments: seq<Segment>)
    requires segments != []
    ensures AllChunks(segments) == SegmentChunks(segments[0]) + AllChunks(segments[1..])
    ensures segments[0].kind != LOAD ==> AllChunks(segments) == AllChunks(segments[1..])
  {
  }

  lemma NothingYet(s: Snapshot, root: nat, file: seq<Byte>, chunks: seq<Chunk>, pages: set<Page>)
    requires KeptAt(s, root) && ImagePages(chunks) <= pages && Need(s.books, pages) <= |s.books.free|
    ensures Loading(s, s, root, file, chunks, 0, pages)
  {
    hide Walk, ReadVirtual, PageOf, ImagePages, KeptAt, Need, ForeignSame;
    ForeignNone(s);
  }
}
