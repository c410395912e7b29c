/** Memory as programs see it: bytes read and written through the page walk, and what each operation
    leaves as it was. */
module UserMemory {
  import opened Digits
  import opened Words
  import opened PageTable
  import opened ByteMemory
  import opened Ledger
  import opened FreeList
  import opened Space
  import opened MapSteps
  import opened UserHalf
  import opened Mapping
  import opened Leaves
  import opened UserPages
  import opened Caches
  import opened Kernel

  // ---- reading memory as a program does ----

  /** A virtual address without its sign extension. */
  type Address = a: nat | a < 0x1_0000_0000_0000

  /** The byte at a virtual address, through the page walk. */
  function ReadVirtual(mem: Mem, root: nat, address: Address): Option<Byte> {
    match Walk(mem, root, PageOf(address))
    case Mapped(f, _) => if f < |mem| then Some(ReadByte(mem, 4096 * f + address % 4096)) else None
    case _ => None
  }

  /** The address in the frame is the address in the page. */
  lemma FrameByte(f: nat, address: nat)
    ensures (4096 * f + address % 4096) / 4096 == f && (4096 * f + address % 4096) % 4096 == address % 4096
  {
  }

  lemma SamePage(a: nat, j: nat)
    requires a % 4096 + j < 4096
    ensures PageOf(a + j) == PageOf(a) && (a + j) % 4096 == a % 4096 + j
  {
    assert (a + j) / 4096 == a / 4096;
  }

  // ---- what stays the same ----

  /** From s0 to s translations may have changed in `area` only. Pages that were mapped are still mapped there,
      to the same frames, and their bytes read as before, except those of `touched`. Memory that was never
      adopted is the same. */
  ghost predicate SameExcept(s0: Snapshot, s: Snapshot, root: nat, area: set<Page>, touched: iset<nat>) {
    && ForeignSame(s0, s)
    && (forall v: Page :: v in s0.books.pages ==> v in s.books.pages && s.books.pages[v] == s0.books.pages[v])
    && (forall v: Page :: v !in area ==> Walk(s.mem, root, v) == Walk(s0.mem, root, v))
    && (forall a: Address :: PageOf(a) in s0.books.pages && a !in touched ==>
          ReadVirtual(s.mem, root, a) == ReadVirtual(s0.mem, root, a))
  }

  /** Only the bytes [from, to) of page u, and its permissions, may have changed. */
  ghost predicate OthersSame(s0: Snapshot, s: Snapshot, root: nat, u: Page, from: nat, to: nat) {
    SameExcept(s0, s, root, {u}, iset a: nat | PageOf(a) == u && from <= a < to)
  }

  /** Only these pages may have changed. */
  ghost predicate OutsideSame(s0: Snapshot, s: Snapshot, root: nat, image: set<Page>) {
    SameExcept(s0, s, root, image, iset a: nat | PageOf(a) in image)
  }

  lemma ExceptNothing(s: Snapshot, root: nat, area: set<Page>, touched: iset<nat>)
    ensures SameExcept(s, s, root, area, touched)
  {
    hide Walk, PageOf, ReadVirtual, ForeignSame;
    ForeignNone(s);
  }

  lemma ExceptMore(s0: Snapshot, s: Snapshot, root: nat, area: set<Page>, more: set<Page>, touched: iset<nat>,
                   also: iset<nat>)
    requires SameExcept(s0, s, root, area, touched) && area <= more && touched <= also
    ensures SameExcept(s0, s, root, more, also)
  {
    hide Walk, PageOf, ReadVirtual, ForeignSame;
  }

  lemma ExceptBoth(a: Snapshot, b: Snapshot, c: Snapshot, root: nat, area: set<Page>, touched: iset<nat>,
                   more: set<Page>, also: iset<nat>)
    requires SameExcept(a, b, root, area, touched) && SameExcept(b, c, root, more, also)
    ensures SameExcept(a, c, root, area + more, touched + also)
  {
    hide Walk, PageOf, ReadVirtual, ForeignSame;
    ForeignBoth(a, b, c);
  }

  // ---- the three steps for one chunk ----

  lemma DataFrame(s: Snapshot, root: nat, hhdm: nat, v: Page)
    requires SoundAt(s, root, hhdm) && v in s.books.pages
    ensures s.books.pages[v] < |s.mem|
    ensures s.books.pages[v] !in s.books.tables.Values && s.books.pages[v] !in s.books.free
    ensures Walk(s.mem, root, v).Mapped? && Walk(s.mem, root, v).frame == s.books.pages[v]
  {
    hide Walk, Chain, Machine, Tree;
    PageApart(s.books, v);
  }

  /** If a page keeps its frame and the frame its contents, its bytes read the same. */
  lemma ReadSame(s0: Snapshot, s: Snapshot, root: nat, a: Address)
    requires Walk(s0.mem, root, PageOf(a)).Mapped? && Walk(s.mem, root, PageOf(a)).Mapped?
    requires |s.mem| == |s0.mem|
    requires var f := Walk(s0.mem, root, PageOf(a)).frame;
      Walk(s.mem, root, PageOf(a)).frame == f && (f < |s.mem| ==> s.mem[f] == s0.mem[f])
    ensures ReadVirtual(s.mem, root, a) == ReadVirtual(s0.mem, root, a)
  {
    hide Walk, PageOf, GetByte;
    FrameByte(Walk(s0.mem, root, PageOf(a)).frame, a);
  }

  lemma MapOthers(s0: Snapshot, s: Snapshot, root: nat, hhdm: nat, u: Page, perm: Perm)
    requires SoundAt(s0, root, hhdm) && SoundAt(s, root, hhdm) && KeptAt(s0, root) && Lower(u)
    requires if Walk(s0.mem, root, u).Fault? then IsMapped(s0, s, root, u, perm) else s == s0
    ensures OthersSame(s0, s, root, u, 0, 0) && u in s.books.pages
  {
    hide Walk, Reach, Sound, OpenHalf, ReadVirtual, PageOf, Lower, MapBooks, ForeignSame;
    ForeignNone(s0);
    if Walk(s0.mem, root, u).Fault? {
      NotInBooks(s0, root, hhdm, u);
      MapForeign(s0, s, root, u, perm);
      forall v: Page | v in s0.books.pages
        ensures v in s.books.pages && s.books.pages[v] == s0.books.pages[v] && v != u
      {
        DataFrame(s0, root, hhdm, v);
        MapKeepsPage(s0.books, u, v);
      }
      forall a: Address | PageOf(a) in s0.books.pages
        ensures ReadVirtual(s.mem, root, a) == ReadVirtual(s0.mem, root, a)
      {
        DataFrame(s0, root, hhdm, PageOf(a));
        DataFrame(s, root, hhdm, PageOf(a));
        ReadSame(s0, s, root, a);
      }
    }
  }

  lemma NotInBooks(s: Snapshot, root: nat, hhdm: nat, v: Page)
    requires SoundAt(s, root, hhdm)
    ensures Balanced(s.books) && (Walk(s.mem, root, v).Fault? ==> v !in s.books.pages)
  {
    hide Walk, Chain, Machine, Tree, Balanced;
  }

  lemma MapKeepsPage(b: Books, u: Page, v: Page)
    requires Missing(b.tables, u, 3) < |b.free|
    ensures v in b.pages && u != v ==> v in MapBooks(b, u).pages && MapBooks(b, u).pages[v] == b.pages[v]
  {
    hide Grown;
  }

  lemma ProtectOthers(s0: Snapshot, s: Snapshot, root: nat, hhdm: nat, u: Page, perm: Perm)
    requires SoundAt(s0, root, hhdm) && SoundAt(s, root, hhdm) && u in s0.books.pages
    requires IsProtected(s0, s, root, u, perm)
    ensures OthersSame(s0, s, root, u, 0, 0)
  {
    hide Walk, Reach, Sound, OpenHalf, ReadVirtual, PageOf, ForeignSame;
    ProtectForeign(s0, s, root, u, perm);
    forall a: Address | PageOf(a) in s0.books.pages
      ensures ReadVirtual(s.mem, root, a) == ReadVirtual(s0.mem, root, a)
    {
      DataFrame(s0, root, hhdm, PageOf(a));
      DataFrame(s, root, hhdm, PageOf(a));
      LeafTable(s0, PathTo(u, 3));
      ReadSame(s0, s, root, a);
    }
  }

  lemma LeafTable(s: Snapshot, p: Path)
    requires p in s.books.tables
    ensures s.books.tables[p] in s.books.tables.Values
  {
  }

  /** Where a store to page u, offset by `from`, lands. */
  function Place(s: Snapshot, u: Page, from: nat): nat
    requires u in s.books.pages
  {
    4096 * s.books.pages[u] + from % 4096
  }

  /** The bytes have been stored from x up, within one frame. */
  ghost predicate IsStored(mem: Mem, mem': Mem, x: nat, bytes: seq<Byte>) {
    x % 4096 + |bytes| <= 4096 && x / 4096 < |mem| && InMemory(mem, x, |bytes|) && mem' == Stored(mem, x, bytes)
  }

  lemma StoreKeepsSound(s: Snapshot, s': Snapshot, root: nat, hhdm: nat, u: Page, from: nat, bytes: seq<Byte>)
    requires SoundAt(s, root, hhdm) && u in s.books.pages && from % 4096 + |bytes| <= 4096
    requires s.books.pages[u] < |s.mem| && s' == s.(mem := s'.mem)
    requires Place(s, u, from) / 4096 == s.books.pages[u] && Place(s, u, from) % 4096 == from % 4096
    requires IsStored(s.mem, s'.mem, Place(s, u, from), bytes)
    ensures SoundAt(s', root, hhdm) && SameWalks(s.mem, s'.mem, root)
    ensures KeptAt(s, root) ==> KeptAt(s', root)
  {
    hide Walk, Reach, Chain, Machine, Tree, Balanced, Stored, Lower, OpenHalf, PagesMapped, Place;
    var f := s.books.pages[u];
    DataFrame(s, root, hhdm, u);
    StoredInFrame(s.mem, Place(s, u, from), bytes);
    assert s'.mem == s.mem[f := s'.mem[f]];
    OverwriteKeeps(s.mem, root, hhdm, s.freeList, s.books, f, s'.mem[f]);
    if KeptAt(s, root) {
      TablesSame(s, s', f);
      OpenOutside(s.mem, s'.mem, s.books.tables);
    }
  }

  lemma StoreForeign(s: Snapshot, s': Snapshot, u: Page, from: nat, bytes: seq<Byte>)
    requires u in s.books.pages && s' == s.(mem := s'.mem) && IsStored(s.mem, s'.mem, Place(s, u, from), bytes)
    requires Place(s, u, from) / 4096 == s.books.pages[u]
    ensures ForeignSame(s, s')
  {
    hide Place, Stored;
    StoredInFrame(s.mem, Place(s, u, from), bytes);
    assert s.books.pages[u] in s.books.pages.Values;
  }

  lemma TablesSame(s: Snapshot, s': Snapshot, f: nat)
    requires f < |s.mem| == |s'.mem| && f !in s.books.tables.Values && s'.mem == s.mem[f := s'.mem[f]]
    ensures forall p :: p in s.books.tables && s.books.tables[p] < |s.mem| ==>
      s'.mem[s.books.tables[p]] == s.mem[s.books.tables[p]]
  {
    assert forall p :: p in s.books.tables ==> s.books.tables[p] in s.books.tables.Values;
  }

  lemma PlaceOf(f: nat, g: nat, from: nat, a: nat, n: nat)
    requires from % 4096 + n <= 4096
    ensures var x, y := 4096 * f + from % 4096, 4096 * g + a % 4096;
      x <= y < x + n <==> g == f && from % 4096 <= a % 4096 < from % 4096 + n
  {
  }

  lemma SameOffset(from: nat, a: nat, n: nat)
    requires from % 4096 + n <= 4096
    ensures from <= a < from + n <==> a / 4096 == from / 4096 && from % 4096 <= a % 4096 < from % 4096 + n
    ensures a / 4096 == from / 4096 ==> a % 4096 - from % 4096 == a - from
  {
  }

  /** After the store the bytes read as stored, and no other byte has changed. */
  lemma StoreReads(s: Snapshot, s': Snapshot, root: nat, hhdm: nat, from: Address, bytes: seq<Byte>, a: Address)
    requires SoundAt(s, root, hhdm) && PageOf(from) in s.books.pages && from % 4096 + |bytes| <= 4096
    requires SameWalks(s.mem, s'.mem, root)
    requires var x := Place(s, PageOf(from), from);
      x / 4096 == s.books.pages[PageOf(from)] && x % 4096 == from % 4096 && IsStored(s.mem, s'.mem, x, bytes)
    requires PageOf(a) in s.books.pages
    ensures ReadVirtual(s'.mem, root, a) ==
      if from <= a < from + |bytes| then Some(bytes[a - from]) else ReadVirtual(s.mem, root, a)
  {
    hide Walk, Sound, Stored, ReadByte;
    var u, v := PageOf(from), PageOf(a);
    DataFrame(s, root, hhdm, v);
    DataFrame(s, root, hhdm, u);
    DistinctFrames(s, root, hhdm, u, v);
    FrameByte(s.books.pages[v], a);
    PlaceOf(s.books.pages[u], s.books.pages[v], from, a, |bytes|);
    SameOffset(from, a, |bytes|);
    StoredThenRead(s.mem, Place(s, u, from), bytes, Place(s, v, a));
  }

  lemma DistinctFrames(s: Snapshot, root: nat, hhdm: nat, u: Page, v: Page)
    requires SoundAt(s, root, hhdm) && u in s.books.pages && v in s.books.pages
    ensures s.books.pages[u] == s.books.pages[v] <==> u == v
  {
    hide Walk, Chain, Machine, Tree;
  }

  lemma PlaceFrame(s: Snapshot, u: Page, from: nat)
    requires u in s.books.pages
    ensures Place(s, u, from) / 4096 == s.books.pages[u] && Place(s, u, from) % 4096 == from % 4096
  {
    FrameByte(s.books.pages[u], from);
  }

  // ---- storing ----

  /** The bytes from `from` up. */
  predicate InSpan(a: nat, from: nat, n: nat) { from <= a < from + n }

  ghost function Span(from: nat, n: nat): iset<nat> { iset a: nat | InSpan(a, from, n) }

  /** The bytes at `from` read as these. */
  ghost predicate Reads(s: Snapshot, root: nat, from: nat, bytes: seq<Byte>) {
    from + |bytes| <= 0x1_0000_0000_0000 &&
    forall i :: 0 <= i < |bytes| ==> ReadVirtual(s.mem, root, from + i) == Some(bytes[i])
  }

  lemma StoreExcept(s: Snapshot, s': Snapshot, root: nat, hhdm: nat, from: Address, bytes: seq<Byte>)
    requires SoundAt(s, root, hhdm) && PageOf(from) in s.books.pages && from % 4096 + |bytes| <= 4096
    requires s' == s.(mem := s'.mem) && SameWalks(s.mem, s'.mem, root)
    requires IsStored(s.mem, s'.mem, Place(s, PageOf(from), from), bytes)
    ensures SameExcept(s, s', root, {}, Span(from, |bytes|)) && Reads(s', root, from, bytes)
  {
    hide Walk, Sound, PageOf, ReadVirtual, Stored, Place, ForeignSame;
    DataFrame(s, root, hhdm, PageOf(from));
    PlaceFrame(s, PageOf(from), from);
    StoreForeign(s, s', PageOf(from), from, bytes);
    forall a: Address | PageOf(a) in s.books.pages
      ensures ReadVirtual(s'.mem, root, a) ==
        if from <= a < from + |bytes| then Some(bytes[a - from]) else ReadVirtual(s.mem, root, a)
    {
      StoreReads(s, s', root, hhdm, from, bytes, a);
    }
    SpanEnd(from, |bytes|);
    forall i | 0 <= i < |bytes| ensures ReadVirtual(s'.mem, root, from + i) == Some(bytes[i]) {
      SamePage(from, i);
    }
  }

  lemma SpanEnd(from: Address, n: nat)
    requires from % 4096 + n <= 4096
    ensures from + n <= 0x1_0000_0000_0000
  {
    assert from / 4096 < 0x10_0000_0000;
  }

  /** A store of a few bytes within a page, through the page walk. The kernel may write to read-only pages
      (CR0.WP is clear); for a program's own stores the callers ask for the permission. */
  method StoreVirtual(k: AddressSpace, dest: Address, bytes: seq<Byte>)
    requires k.Valid() && PageOf(dest) in k.books.pages && dest % 4096 + |bytes| <= 4096
    modifies k`mem
    ensures k.Valid() && SameWalks(old(k.mem), k.mem, k.root)
    ensures old(KeptAt(k.Snap(), k.root)) ==> KeptAt(k.Snap(), k.root)
    ensures IsStored(old(k.mem), k.mem, Place(k.Snap(), PageOf(dest), dest), bytes)
    ensures SameExcept(old(k.Snap()), k.Snap(), k.root, {}, Span(dest, |bytes|))
    ensures Reads(k.Snap(), k.root, dest, bytes)
  {
    hide Sound, Walk, Current, PageOf, Stored, KeptAt, SameWalks, SameExcept, Reads, InMemory;
    ghost var s0, u := k.Snap(), PageOf(dest);
    DataFrame(s0, k.root, k.hhdm, u);
    PlaceFrame(s0, u, dest);
    var c := Walk(k.mem, k.root, PageOf(dest));
    FrameInMemory(k.mem, 4096 * c.frame + dest % 4096, |bytes|);
    k.mem := Stored(k.mem, 4096 * c.frame + dest % 4096, bytes);
    StoreKeepsSound(s0, k.Snap(), k.root, k.hhdm, u, dest, bytes);
    StoreExcept(s0, k.Snap(), k.root, k.hhdm, dest, bytes);
    CurrentSame(s0.mem, k.mem, k.root, k.tlb, k.tlb);
  }

  // ---- copying from the upper half ----

  /** The byte at this upper-half address, in memory that was never adopted, is byte i of `bytes`. */
  ghost predicate UpperByte(s: Snapshot, root: nat, src: nat, bytes: seq<Byte>, i: nat)
    requires i < |bytes| && src + |bytes| <= 0x1_0000_0000_0000
  {
    var a: Address := src + i;
    && !Lower(PageOf(a)) && Walk(s.mem, root, PageOf(a)).Mapped?
    && Walk(s.mem, root, PageOf(a)).frame !in Pool(s.books)
    && ReadVirtual(s.mem, root, a) == Some(bytes[i])
  }

  /** These bytes are at `src`, in memory of the upper half that was never adopted. */
  ghost predicate SourceAt(s: Snapshot, root: nat, src: nat, bytes: seq<Byte>) {
    src + |bytes| <= 0x1_0000_0000_0000 &&
    forall i :: 0 <= i < |bytes| ==> UpperByte(s, root, src, bytes, i)
  }

  lemma SourceSlice(s: Snapshot, root: nat, src: nat, bytes: seq<Byte>, offset: nat, size: nat)
    requires SourceAt(s, root, src, bytes) && offset + size <= |bytes|
    ensures SourceAt(s, root, src + offset, bytes[offset..offset + size])
  {
    hide Walk, Lower, PageOf, ReadVirtual, Pool;
    var from, part := src + offset, bytes[offset..offset + size];
    forall i | 0 <= i < size ensures UpperByte(s, root, from, part, i) {
      assert UpperByte(s, root, src, bytes, offset + i);
      assert part[i] == bytes[offset + i];
    }
  }

  /** They stay there, whatever happens to other memory. */
  lemma SourceStays(s0: Snapshot, s: Snapshot, root: nat, src: nat, bytes: seq<Byte>)
    requires SourceAt(s0, root, src, bytes) && ForeignSame(s0, s)
    requires forall v: Page :: !Lower(v) ==> Walk(s.mem, root, v) == Walk(s0.mem, root, v)
    ensures SourceAt(s, root, src, bytes)
  {
    hide Walk, Lower, PageOf, ReadVirtual, Pool;
    forall i | 0 <= i < |bytes| ensures UpperByte(s, root, src, bytes, i) {
      assert UpperByte(s0, root, src, bytes, i);
      ReadSame(s0, s, root, src + i);
    }
  }

  lemma SourceExcept(s0: Snapshot, s: Snapshot, root: nat, src: nat, bytes: seq<Byte>, area: set<Page>,
                     touched: iset<nat>)
    requires SourceAt(s0, root, src, bytes) && SameExcept(s0, s, root, area, touched)
    requires forall v :: v in area ==> Lower(v)
    ensures SourceAt(s, root, src, bytes)
  {
    hide Walk, Lower, PageOf, ReadVirtual, ForeignSame, SourceAt;
    SourceStays(s0, s, root, src, bytes);
  }

  /** Copies memory byte by byte: each byte is read through the page walk, and stored through it. */
  method Memcpy(k: AddressSpace, dest: Address, src: Address, size: nat, ghost bytes: seq<Byte>)
    requires k.Valid() && PageOf(dest) in k.books.pages && dest % 4096 + size <= 4096
    requires |bytes| == size && SourceAt(k.Snap(), k.root, src, bytes)
    modifies k`mem
    ensures k.Valid() && SameWalks(old(k.mem), k.mem, k.root)
    ensures old(KeptAt(k.Snap(), k.root)) ==> KeptAt(k.Snap(), k.root)
    ensures IsStored(old(k.mem), k.mem, Place(k.Snap(), PageOf(dest), dest), bytes)
  {
    hide Sound, Walk, Current, PageOf, Stored, StoreByte, KeptAt, SameWalks, SourceAt, ReadVirtual;
    ghost var s0, u := k.Snap(), PageOf(dest);
    ghost var x := Place(s0, u, dest);
    DataFrame(s0, k.root, k.hhdm, u);
    FrameByte(s0.books.pages[u], dest);
    StoredEmpty(s0.mem, x);
    assert bytes[..0] == [];
    var progress := 0;
    while progress < size
      invariant progress <= size
      invariant k.Snap() == s0.(mem := k.mem)
      invariant IsStored(s0.mem, k.mem, x, bytes[..progress])
    {
      StoreKeepsSound(s0, k.Snap(), k.root, k.hhdm, u, dest, bytes[..progress]);
      StoreForeign(s0, k.Snap(), u, dest, bytes[..progress]);
      NextByte(s0, k.Snap(), k.root, src, bytes, progress);
      DataFrame(k.Snap(), k.root, k.hhdm, u);
      SamePage(dest, progress);
      var b := ReadVirtual(k.mem, k.root, src + progress);
      var c := Walk(k.mem, k.root, PageOf(dest + progress));
      ghost var more := bytes[..progress + 1];
      StoredLast(s0.mem, x, more, progress);
      assert more[..progress] == bytes[..progress];
      k.mem := StoreByte(k.mem, 4096 * c.frame + (dest + progress) % 4096, b.value);
      progress := progress + 1;
    }
    assert bytes[..size] == bytes;
    StoreKeepsSound(s0, k.Snap(), k.root, k.hhdm, u, dest, bytes);
    CurrentSame(s0.mem, k.mem, k.root, k.tlb, k.tlb);
  }

  lemma NextByte(s0: Snapshot, s: Snapshot, root: nat, src: nat, bytes: seq<Byte>, i: nat)
    requires SourceAt(s0, root, src, bytes) && ForeignSame(s0, s) && SameWalks(s0.mem, s.mem, root) && i < |bytes|
    ensures src + i < 0x1_0000_0000_0000 && ReadVirtual(s.mem, root, src + i) == Some(bytes[i])
  {
    hide Walk, Lower, PageOf, ReadVirtual, ForeignSame;
    SourceStays(s0, s, root, src, bytes);
    assert UpperByte(s, root, src, bytes, i);
  }

  lemma StoredEmpty(mem: Mem, x: nat)
    ensures Stored(mem, x, []) == mem
  {
  }

  lemma StoredLast(mem: Mem, x: nat, bytes: seq<Byte>, n: nat)
    requires x % 4096 + |bytes| <= 4096 && x / 4096 < |mem| && |bytes| == n + 1
    ensures InMemory(mem, x, n) && InMemory(mem, x, n + 1) && (x + n) / 4096 == x / 4096
    ensures Stored(mem, x, bytes) == StoreByte(Stored(mem, x, bytes[..n]), x + n, bytes[n])
  {
    hide StoreByte, InMemory, Stored;
    InFrame(x, n);
    FrameInMemory(mem, x, n);
    FrameInMemory(mem, x, n + 1);
    StoredUnfold(mem, x, bytes, n);
  }

  lemma StoredUnfold(mem: Mem, x: nat, bytes: seq<Byte>, n: nat)
    requires InMemory(mem, x, |bytes|) && |bytes| == n + 1
    ensures InMemory(mem, x, n) && (x + n) / 4096 < |mem|
    ensures Stored(mem, x, bytes) == StoreByte(Stored(mem, x, bytes[..n]), x + n, bytes[n])
  {
    hide StoreByte;
  }

  // ---- 64-bit variables ----

  const LIMIT := 0x1_0000_0000_0000_0000

  /** The bytes of a 64-bit number, lowest first. */
  function Bytes64(n: nat): (bytes: seq<Byte>)
    ensures |bytes| == 8 && forall i :: 0 <= i < 8 ==> bytes[i] == Expand(n, 256, 8)[i]
  {
    Expand(n, 256, 8)
  }

  /** The lowest byte comes first. */
  lemma BytesSum(n: nat)
    requires n < LIMIT
    ensures var b: seq<nat> := Bytes64(n);
      n == b[0] + 0x100 * b[1] + 0x1_0000 * b[2] + 0x100_0000 * b[3] + 0x1_0000_0000 * b[4]
         + 0x100_0000_0000 * b[5] + 0x1_0000_0000_0000 * b[6] + 0x100_0000_0000_0000 * b[7]
  {
    hide Power, Expand, Value;
    ByteLimit();
    NumberRoundTrip(n, 256, 8);
    Eight(Bytes64(n));
  }

  lemma Eight(b: seq<nat>)
    requires |b| == 8
    ensures Value(b, 256) == b[0] + 256 * (b[1] + 256 * (b[2] + 256 * (b[3] + 256 * (b[4] + 256 *
      (b[5] + 256 * (b[6] + 256 * b[7]))))))
  {
    hide Value;
    FirstOf(b, 7);
    FirstOf(b, 6);
    FirstOf(b, 5);
    FirstOf(b, 4);
    FirstOf(b, 3);
    FirstOf(b, 2);
    FirstOf(b, 1);
    FirstOf(b, 0);
    assert b[0..] == b;
    NoValue(b[8..]);
  }

  lemma FirstOf(b: seq<nat>, i: nat)
    requires i < |b|
    ensures Value(b[i..], 256) == b[i] + 256 * Value(b[i + 1..], 256)
  {
    assert b[i..][1..] == b[i + 1..];
  }

  lemma NoValue(b: seq<nat>)
    requires b == []
    ensures Value(b, 256) == 0
  {
  }

  function ByteOf(o: Option<Byte>): Byte { if o.Some? then o.value else 0 }

  /** The n bytes at this address, 0 where nothing is mapped. */
  function BytesAt(mem: Mem, root: nat, a: nat, n: nat): (bytes: seq<nat>)
    requires a + n <= 0x1_0000_0000_0000
    ensures |bytes| == n
  {
    if n == 0 then [] else BytesAt(mem, root, a, n - 1) + [ByteOf(ReadVirtual(mem, root, a + n - 1))]
  }

  lemma {:induction false} BytesAtEach(mem: Mem, root: nat, a: nat, n: nat)
    requires a + n <= 0x1_0000_0000_0000
    ensures forall i :: 0 <= i < n ==> BytesAt(mem, root, a, n)[i] == ByteOf(ReadVirtual(mem, root, a + i))
  {
    hide ReadVirtual;
    if n > 0 {
      BytesAtEach(mem, root, a, n - 1);
    }
  }

  /** The 64-bit variable at this address. */
  function LoadWord(mem: Mem, root: nat, a: nat): nat
    requires a + 8 <= 0x1_0000_0000_0000
  {
    Value(BytesAt(mem, root, a, 8), 256)
  }

  ghost predicate WordAt(s: Snapshot, root: nat, a: nat, n: nat) {
    n < LIMIT && Reads(s, root, a, Bytes64(n))
  }

  lemma ByteLimit()
    ensures Power(256, 8) == LIMIT
  {
    assert Power(256, 4) == 256 * (256 * (256 * (256 * Power(256, 0))));
    assert Power(256, 8) == 256 * (256 * (256 * (256 * Power(256, 4))));
  }

  lemma WordLoaded(s: Snapshot, root: nat, a: nat, n: nat)
    requires WordAt(s, root, a, n)
    ensures a + 8 <= 0x1_0000_0000_0000 && LoadWord(s.mem, root, a) == n
  {
    hide ReadVirtual, Power, Expand, Value, BytesAt, Bytes64;
    ByteLimit();
    NumberRoundTrip(n, 256, 8);
    BytesAtEach(s.mem, root, a, 8);
    var bytes := BytesAt(s.mem, root, a, 8);
    forall i | 0 <= i < 8 ensures bytes[i] == Expand(n, 256, 8)[i] {
      assert ReadVirtual(s.mem, root, a + i) == Some(Bytes64(n)[i]);
    }
    assert bytes == Expand(n, 256, 8);
  }

  /** A program may keep a 64-bit variable here. */
  ghost predicate CanWrite(s: Snapshot, root: nat, a: Address) {
    && a % 8 == 0 && PageOf(a) in s.books.pages
    && Walk(s.mem, root, PageOf(a)).Mapped?
    && Walk(s.mem, root, PageOf(a)).perm.user && Walk(s.mem, root, PageOf(a)).perm.writable
  }

  lemma WordInPage(a: nat)
    requires a % 8 == 0
    ensures a % 4096 + 8 <= 4096
  {
    assert a % 8 == a % 4096 % 8;
  }

  lemma WordStays(s0: Snapshot, s: Snapshot, root: nat, a: Address, n: nat, area: set<Page>, touched: iset<nat>)
    requires SameExcept(s0, s, root, area, touched) && PageOf(a) in s0.books.pages && a % 8 == 0
    requires WordAt(s0, root, a, n) && Span(a, 8) !! touched
    ensures WordAt(s, root, a, n)
  {
    hide Walk, PageOf, ReadVirtual, ForeignSame, Bytes64;
    WordInPage(a);
    forall i | 0 <= i < 8 ensures ReadVirtual(s.mem, root, a + i) == Some(Bytes64(n)[i]) {
      SamePage(a, i);
      assert a + i in Span(a, 8);
    }
  }

  lemma WriteStays(s0: Snapshot, s: Snapshot, root: nat, a: Address, area: set<Page>, touched: iset<nat>)
    requires SameExcept(s0, s, root, area, touched) && CanWrite(s0, root, a) && PageOf(a) !in area
    ensures CanWrite(s, root, a)
  {
    hide Walk, PageOf, ReadVirtual, ForeignSame;
  }

  /** A program's store to a 64-bit variable. */
  method StoreWord(k: AddressSpace, a: Address, n: nat)
    requires k.Valid() && CanWrite(k.Snap(), k.root, a) && n < LIMIT
    modifies k`mem
    ensures k.Valid() && SameWalks(old(k.mem), k.mem, k.root)
    ensures old(KeptAt(k.Snap(), k.root)) ==> KeptAt(k.Snap(), k.root)
    ensures SameExcept(old(k.Snap()), k.Snap(), k.root, {}, Span(a, 8)) && WordAt(k.Snap(), k.root, a, n)
  {
    hide Sound, Walk, Current, PageOf, Stored, KeptAt, SameWalks, SameExcept, Reads, Bytes64, IsStored;
    WordInPage(a);
    StoreVirtual(k, a, Bytes64(n));
  }
}
