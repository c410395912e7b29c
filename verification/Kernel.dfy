/** kernel/paging.c: the frame allocator and the operations on the active address space. */
module Kernel {
  import opened Words
  import opened PageTable
  import opened TableUpdates
  import opened ByteMemory
  import opened Ledger
  import opened FreeList
  import opened Space
  import opened MapSteps
  import opened UserHalf
  import opened Mapping
  import opened Leaves
  import opened UserPages
  import opened Regions
  import opened Teardown
  import opened Torn
  import opened Caches
  import opened MapStores
  import opened HalfWritten

  const HEAP_START := 0x10000
  const MMAP_SIZE := 2048

  lemma MapNext(s0: Snapshot, s: Snapshot, root: nat, hhdm: nat, v: Page, perm: Perm)
    requires SoundAt(s0, root, hhdm) && SoundAt(s, root, hhdm) && IsMapped(s0, s, root, v, perm)
    requires Walk(s0.mem, root, v).Fault?
    ensures Next(s0.books, Op.Map(v), s.books)
    ensures KeptAt(s0, root) ==> KeptAt(s, root)
  {
    hide Chain, Machine, Balanced, Tree, KeptAt, Walk, MapMem, MapBooks, Missing, Untouched, SameWalksBut, Reach;
    assert v !in s0.books.pages;
    if KeptAt(s0, root) {
      MapUser(s0, s, root, hhdm, v, perm);
    }
  }

  lemma NextNothing(b: Books, v: Page)
    ensures Next(b, Op.Map(v), b)
  {
  }

  lemma UnmapNext(s0: Snapshot, s: Snapshot, root: nat, v: Page)
    requires IsUnmapped(s0, s, root, v)
    ensures Next(s0.books, Op.Unmap(v), s.books)
    ensures KeptAt(s0, root) ==> KeptAt(s, root)
  {
    hide KeptAt, Walk, OnlyLeaf;
    if KeptAt(s0, root) {
      UnmapUser(s0, s, root, v);
    }
  }

  lemma ProtectNext(s0: Snapshot, s: Snapshot, root: nat, hhdm: nat, v: Page, perm: Perm)
    requires SoundAt(s, root, hhdm) && IsProtected(s0, s, root, v, perm)
    ensures KeptAt(s0, root) ==> KeptAt(s, root)
  {
    hide KeptAt, Walk, OnlyLeaf, Sound;
    if KeptAt(s0, root) {
      ProtectUser(s0, s, root, hhdm, v, perm);
    }
  }

  class AddressSpace {
    const hhdm: nat   // where physical memory is mapped
    const root: nat   // the frame in CR3
    var mem: Mem
    var freeList: nat
    var vHeap: nat
    ghost var books: Books
    ghost var tlb: Tlb

    ghost predicate Consistent()
      reads this
    {
      Sound(mem, root, hhdm, freeList, books)
    }

    ghost predicate Valid()
      reads this
    {
      Consistent() && Current(mem, root, tlb)
    }

    /** The kernel takes over the bootloader's tables, and what the processor has cached of them; no
        frame has been adopted yet. */
    constructor (hhdm: nat, root: nat, mem: Mem, ghost tables: Tables, ghost cached: Tlb)
      requires Machine(mem, hhdm) && Tree(mem, root, tables) && Current(mem, root, cached)
      ensures Valid() && this.mem == mem && this.root == root && this.hhdm == hhdm && vHeap == 0x1_0000
      ensures books == Books([], tables, map[], {}, {}) && tlb == cached && freeList == 0
    {
      this.hhdm, this.root, this.mem, this.freeList, this.vHeap := hhdm, root, mem, 0, HEAP_START;
      books := Books([], tables, map[], {}, {});
      tlb := cached;
    }

    ghost function Snap(): Snapshot
      reads this
    {
      Snapshot(mem, freeList, books)
    }

    /** Any number of speculative walks by the processor. */
    ghost method Speculate()
      modifies this`tlb
      ensures CanFill(mem, root, old(tlb), tlb)
    {
      assert CanFill(mem, root, tlb, tlb);
      var filled: Tlb :| CanFill(mem, root, tlb, filled);
      tlb := filled;
    }

    ghost method Invalidate(address: nat)
      modifies this`tlb
      ensures tlb == old(tlb) - {PageOf(address)}
    {
      tlb := tlb - {PageOf(address)};
    }

    /** Pops the free list. Returns the kernel's pointer to the frame, or 0 if there is none. */
    method PmemAlloc() returns (p: nat)
      requires Consistent()
      modifies this`freeList, this`books
      ensures Consistent()
      ensures Next(old(books), Alloc, books)
      ensures p == Head(hhdm, old(books.free))
      ensures old(books.free) == [] ==> freeList == old(freeList)
    {
      hide Sound, Encode;
      SoundList(mem, root, hhdm, freeList, books);
      if freeList == 0 {
        return 0;
      }
      AllocKeepsSound(mem, root, hhdm, freeList, books);
      var first := freeList;
      freeList := Encode(mem[FrameOf(hhdm, freeList)][0]);
      books := books.(free := books.free[1..], owned := books.owned + {books.free[0]});
      return first;
    }

    /** Pushes the frame at physical address `p`, which nobody else may be using. */
    method PmemFree(p: nat)
      requires Consistent() && p % 4096 == 0 && p / 4096 in books.owned
      modifies this`mem, this`freeList, this`books
      ensures Consistent()
      ensures Next(old(books), Free(p / 4096), books)
      ensures SameWalks(old(mem), mem, root)
      ensures forall f :: 0 <= f < |mem| && f != p / 4096 ==> mem[f] == old(mem)[f]
      ensures SameTails(old(mem), mem)
    {
      hide Sound, SameWalks, Encode, Decode, TornFrom, MapBooks, UnmapBooks, Missing, Digits.Power;
      var f := p / 4096;
      FreeKeepsSound(mem, root, hhdm, freeList, books, f);
      mem := mem[f := mem[f][0 := Decode(freeList)]];
      freeList := p + hhdm;
      books := books.(free := [f] + books.free, owned := books.owned - {f});
    }

    /** Zeroes memory one byte at a time through the kernel's mapping. */
    method Memset(start: nat, size: nat)
      requires hhdm <= start && InMemory(mem, start - hhdm, size)
      modifies this`mem
      ensures mem == Stored(old(mem), start - hhdm, Zeros(size))
    {
      hide Stored, StoreByte;
      var progress := 0;
      StoredNone(mem, start - hhdm);
      while progress < size
        invariant progress <= size && InMemory(old(mem), start - hhdm, progress)
        invariant mem == Stored(old(mem), start - hhdm, Zeros(progress))
      {
        assert InMemory(old(mem), start - hhdm, progress + 1);
        StoredZero(old(mem), start - hhdm, progress);
        mem := StoreByte(mem, start - hhdm + progress, 0);
        progress := progress + 1;
      }
    }

    /** Lists every frame of the usable regions, each link stored at the frame's physical address. */
    method InitList(regions: seq<Region>)
      requires Valid() && Adoptable(Snap(), regions)
      modifies this`mem, this`freeList, this`books
      ensures Valid()
      ensures books == old(books).(free := Reverse(AllFrames(regions)) + old(books.free))
      ensures SameWalks(old(mem), mem, root)
      ensures forall f :: f in books.free <==> UsableFrame(regions, f) || f in old(books.free)
      ensures SameBut(old(mem), mem, Members(AllFrames(regions)))
      ensures old(Coherent(mem, root, tlb)) ==> Coherent(mem, root, tlb)
    {
      hide Sound, Walk, Encode, Decode, AllFrames, SameWalks, SameBut, Current, Coherent, Listing, Reverse, TornFrom,
           MapBooks, UnmapBooks, UsableFrame;
      ghost var s0, fs := Snap(), AllFrames(regions);
      Adopt(s0, root, hhdm, regions);
      AdoptableFacts(s0, regions);
      SameSelf(mem, root, Members(fs));
      books := Listing(s0.books, fs, 0);
      ghost var n := 0;
      NoFrames(regions);
      for i := 0 to |regions|
        invariant SoundAt(Snap(), root, hhdm) && SameWalks(s0.mem, mem, root) && SameBut(s0.mem, mem, Members(fs))
        invariant n == |AllFrames(regions[..i])| <= |fs| && books == Listing(s0.books, fs, n)
      {
        ghost var start := n;
        FramesPrefix(regions, i + 1);
        RegionCount(regions, i);
        if regions[i].kind == USABLE {
          var pages := regions[i].length / 4096;
          for j := 0 to pages
            invariant SoundAt(Snap(), root, hhdm) && SameWalks(s0.mem, mem, root) && SameBut(s0.mem, mem, Members(fs))
            invariant n == start + j <= |fs| && books == Listing(s0.books, fs, n)
          {
            RegionFrame(regions, i, j);
            ListNext(s0.books, fs, n);
            var curr := regions[i].base + 4096 * j;
            ghost var before := mem;
            assert curr / 4096 == fs[n];
            PmemFree(curr);  // the same store as there, made through the identity mapping
            SameBoth(s0.mem, before, mem, root);
            SameButStep(s0.mem, before, mem, root, fs, n);
            n := n + 1;
          }
        }
      }
      assert regions[..|regions|] == regions;
      AllListed(s0.books, fs);
      ListedExactly(s0, regions, books.free);
      CurrentSame(s0.mem, mem, root, tlb, tlb);
      if Coherent(s0.mem, root, tlb) {
        CoherentSame(s0.mem, mem, root, tlb, tlb);
      }
    }

    /** Takes a frame and clears it. */
    method TakeZeroed() returns (p: nat)
      requires Consistent() && books.free != []
      modifies this`mem, this`freeList, this`books
      ensures Consistent()
      ensures Took(old(Snap()), Snap()) && |mem| == |old(mem)|
      ensures p >= hhdm && (p - hhdm) / 4096 == old(books.free)[0] < |mem| && old(books.free)[0] < 0x8_0000_0000_0000
      ensures SameWalks(old(mem), mem, root)
      ensures forall v: Page, k :: 0 <= k <= 4 ==> Reach(mem, root, v, k) == Reach(old(mem), root, v, k)
    {
      hide Sound, Encode, Stored;
      ghost var f := books.free[0];
      SoundList(mem, root, hhdm, freeList, books);
      FrameFits(mem, root, hhdm, freeList, books, f);
      p := PmemAlloc();
      OwnedOverwrite(mem, root, hhdm, freeList, books, f, ZeroTable());
      FrameOfVaddr(hhdm, f);
      ZeroedFrame(mem, f);
      Memset(p, 4096);
    }

    /** Stores an entry, whole or half-written; then the processor may walk. `z` is memory but for this entry. */
    method StoreEntry(t: nat, index: nat, w: Word, ghost z: Mem, ghost was: Word)
      requires t < |mem| && index < 512 && |z| == |mem| && mem == Put(z, t, index, was)
      modifies this`mem, this`tlb
      ensures mem == Put(z, t, index, w) && CanFill(mem, root, old(tlb), tlb)
    {
      PutInside(z, t, index, was);
      PutInside(mem, t, index, w);
      mem := SetEntry(mem, t, index, w);
      Speculate();
    }

    /** The same, with a record of the memories that the processor may have walked since its cache was `tlb0`. */
    method StoreField(t: nat, index: nat, w: Word, ghost z: Mem, ghost was: Word, ghost tlb0: Tlb, ghost held: seq<Mem>)
      returns (ghost held': seq<Mem>)
      requires t < |mem| && index < 512 && |z| == |mem| && mem == Put(z, t, index, was)
      requires CanHold(held, root, tlb0, tlb)
      modifies this`mem, this`tlb
      ensures mem == Put(z, t, index, w)
      ensures held' == held + [Put(z, t, index, w)] && CanHold(held', root, tlb0, tlb)
    {
      ghost var before := tlb;
      StoreEntry(t, index, w, z, was);
      HoldMore(held, mem, root, tlb0, before, tlb);
      held' := held + [mem];
    }

    /** The first three stores to an absent entry. */
    method StoreFlags(t: nat, index: nat, e: Word) returns (added: Word, ghost held: seq<Mem>)
      requires t < |mem| && index < 512 && e == mem[t][index]
      modifies this`mem, this`tlb
      ensures added == Open(e) && mem == Put(old(mem), t, index, added) && CanHold(held, root, old(tlb), tlb)
      ensures held == OpenStores(old(mem), t, index, e)
    {
      hide CanHold, Put;
      ghost var z, tlb0 := mem, tlb;
      PutInside(mem, t, index, e);
      HoldNothing(root, tlb);
      added := e.(present := true);
      held := StoreField(t, index, added, z, e, tlb0, []);
      added := added.(user := true);
      held := StoreField(t, index, added, z, Marked(e), tlb0, held);
      added := added.(writable := true);
      held := StoreField(t, index, added, z, Opened(e), tlb0, held);
    }

    /** The stores to an absent entry above the last level: it is present before its address is stored. */
    method StoreTable(t: nat, index: nat, e: Word, p: nat) returns (added: Word)
      requires t < |mem| && index < 512 && e == mem[t][index] && hhdm <= p && (p - hhdm) / 4096 < 0x8_0000_0000_0000
      modifies this`mem, this`tlb
      ensures added == Open(e).(address := (p - hhdm) / 4096) && mem == SetEntry(old(mem), t, index, added)
      ensures CanHold(TableStores(old(mem), t, index, e, (p - hhdm) / 4096), root, old(tlb), tlb)
    {
      hide CanHold, Put, Open, Opened, Marked;
      ghost var z, tlb0, held := mem, tlb, [];
      added, held := StoreFlags(t, index, e);
      ghost var was := added;
      added := added.(address := (p - hhdm) / 4096);
      held := StoreField(t, index, added, z, was, tlb0, held);
      PutInside(z, t, index, added);
    }

    /** The stores to an absent entry at the last level. */
    method StorePage(t: nat, index: nat, e: Word, p: nat, user: bool, writable: bool, executable: bool)
      returns (added: Word)
      requires t < |mem| && index < 512 && e == mem[t][index] && hhdm <= p && (p - hhdm) / 4096 < 0x8_0000_0000_0000
      modifies this`mem, this`tlb
      ensures var perm := Perm(user, writable, executable); var f := (p - hhdm) / 4096;
        && added == Leaf(e, perm).(address := f) && mem == SetEntry(old(mem), t, index, added)
        && CanHold(PageStores(old(mem), t, index, e, f, perm), root, old(tlb), tlb)
    {
      hide CanHold, Put, Open, Opened, Marked, OpenStores;
      ghost var z, tlb0, perm, held := mem, tlb, Perm(user, writable, executable), [];
      added, held := StoreFlags(t, index, e);
      added := added.(writable := writable);
      held := StoreField(t, index, added, z, Open(e), tlb0, held);
      added := added.(user := user);
      held := StoreField(t, index, added, z, LeafWritable(e, perm), tlb0, held);
      added := added.(noExecute := !executable);
      held := StoreField(t, index, added, z, LeafUser(e, perm), tlb0, held);
      added := added.(address := (p - hhdm) / 4096);
      held := StoreField(t, index, added, z, Leaf(e, perm), tlb0, held);
      PutInside(z, t, index, added);
    }

    /** An absent entry above the last level gets a fresh table, open to every access. */
    method AddTable(t: nat, index: nat, e: Word, ghost s0: Snapshot, ghost v: Page, ghost d: nat, ghost perm: Perm,
                    ghost tlb0: Tlb) returns (added: Word)
      requires SoundAt(Snap(), root, hhdm)
      requires d < 3 && Descended(s0, Snap(), root, v, d)
      requires PathTo(v, d) in books.tables && t == books.tables[PathTo(v, d)] < |mem| && index == Slot(v, 3 - d)
      requires e == mem[t][index] && !e.present
      requires Recorded(s0, v, d, perm, root, tlb0, tlb)
      modifies this`mem, this`freeList, this`books, this`tlb
      ensures SoundAt(Snap(), root, hhdm)
      ensures Descended(s0, Snap(), root, v, d + 1) && TableOf(Snap(), PathTo(v, d + 1)) == added.address
      ensures Snap() != s0
      ensures Recorded(s0, v, d + 1, perm, root, tlb0, tlb)
    {
      hide Sound, Tree, Walk, Reach, NoHuge, Descended, CanFill, CanHold, Slot, PageOf, SameWalks, LevelStores,
           SetEntry, Missing, TableStores;
      ghost var s := Snap();
      TableLevel(s0, s, root, hhdm, v, d, perm);
      DescendedFacts(s0, s, root, v, d);
      TableKept(s, v, d, root, hhdm);
      var p := TakeZeroed();
      ghost var s1, c0 := Snap(), tlb;
      added := StoreTable(t, index, e, p);
      books := books.(tables := books.tables[PathTo(v, d + 1) := added.address],
                      owned := books.owned - {added.address});
      DescendHang(s0, s, s1, Snap(), root, hhdm, v, d, added);
      HoldBoth(StoresTo(s0, v, d, perm), LevelStores(s0, v, d, perm), root, tlb0, c0, tlb);
    }

    /** An absent last-level entry gets a fresh page with the permissions asked for. */
    method AddPage(t: nat, index: nat, e: Word, user: bool, writable: bool, executable: bool, ghost s0: Snapshot,
                   ghost v: Page, ghost tlb0: Tlb)
      returns (added: Word)
      requires SoundAt(Snap(), root, hhdm)
      requires Descended(s0, Snap(), root, v, 3) && Walk(mem, root, v).Fault?
      requires PathTo(v, 3) in books.tables && t == books.tables[PathTo(v, 3)] < |mem| && index == Slot(v, 0)
      requires e == mem[t][index]
      requires Recorded(s0, v, 3, Perm(user, writable, executable), root, tlb0, tlb)
      modifies this`mem, this`freeList, this`books, this`tlb
      ensures SoundAt(Snap(), root, hhdm)
      ensures IsMapped(s0, Snap(), root, v, Perm(user, writable, executable))
      ensures Recorded(s0, v, 4, Perm(user, writable, executable), root, tlb0, tlb)
    {
      hide Sound, Tree, Walk, Reach, NoHuge, Descended, CanFill, CanHold, Slot, PageOf, SameWalks, LevelStores,
           SetEntry, Missing, IsMapped, PageStores, Leaf;
      ghost var s, perm := Snap(), Perm(user, writable, executable);
      PageLevel(s0, s, root, hhdm, v, perm);
      DescendedFacts(s0, s, root, v, 3);
      TableKept(s, v, 3, root, hhdm);
      var p := TakeZeroed();
      ghost var s1, c0 := Snap(), tlb;
      added := StorePage(t, index, e, p, user, writable, executable);
      LeafPerm(e, perm, added.address);
      books := books.(pages := books.pages[v := added.address], owned := books.owned - {added.address});
      DescendMap(s0, s, s1, Snap(), root, hhdm, v, added);
      HoldBoth(StoresTo(s0, v, 3, perm), LevelStores(s0, v, 3, perm), root, tlb0, c0, tlb);
    }

    /** Maps the page of `address` to a fresh zeroed frame; false if it is already mapped. Accesses to
        mapped pages are translated correctly afterwards; the cache agrees with the tables altogether if
        nothing translated behind the entries that were filled. */
    method VmMap(address: nat, user: bool, writable: bool, executable: bool) returns (ok: bool)
      requires Valid()
      requires NoHuge(mem, books.tables, PageOf(address))
      requires Walk(mem, root, PageOf(address)).Fault? ==> Missing(books.tables, PageOf(address), 3) < |books.free|
      modifies this`mem, this`freeList, this`books, this`tlb
      ensures Valid()
      ensures ok <==> old(Walk(mem, root, PageOf(address))).Fault?
      ensures !ok ==> Snap() == old(Snap()) && tlb == old(tlb)
      ensures ok ==> IsMapped(old(Snap()), Snap(), root, PageOf(address), Perm(user, writable, executable))
      ensures ok ==> PageOf(address) !in tlb
      ensures ok ==>
        CanHold(StoresTo(old(Snap()), PageOf(address), 4, Perm(user, writable, executable)), root, old(tlb), tlb)
      ensures ok && old(Coherent(mem, root, tlb)) && NothingBehind(old(Snap()), PageOf(address)) ==>
        Coherent(mem, root, tlb)
      ensures Next(old(books), Op.Map(PageOf(address)), books)
      ensures old(KeptAt(Snap(), root)) ==> KeptAt(Snap(), root)
    {
      hide Sound, Tree, Walk, Reach, NoHuge, Descended, IsMapped, Coherent, Current, CanHold, LevelStores, Slot,
           PageOf, Missing, Next, KeptAt, NothingBehind, StoresTo, Climbed, SameWalksBut, MapBooks, Untouched;
      ghost var v, perm := PageOf(address), Perm(user, writable, executable);
      ghost var s0, tlb0 := Snap(), tlb;
      var page := address - address % 4096;
      var indices := [page / 0x1000 % 512, page / 0x20_0000 % 512,
                      page / 0x4000_0000 % 512, page / 0x80_0000_0000 % 512];
      AlignedSlots(address);
      var table := 4096 * root;
      var i := 3;
      Start(s0, root, hhdm, v);
      HoldStart(s0, v, perm, root, tlb);
      while i >= 0
        invariant -1 <= i <= 3
        invariant SoundAt(Snap(), root, hhdm)
        invariant i >= 0 ==> Descended(s0, Snap(), root, v, 3 - i) && table == 4096 * TableOf(Snap(), PathTo(v, 3 - i))
        invariant Walk(s0.mem, root, v).Fault? ==> CanHold(StoresTo(s0, v, 3 - i, perm), root, tlb0, tlb)
        invariant i < 0 ==> Walk(s0.mem, root, v).Fault?
        invariant i < 0 ==> IsMapped(s0, Snap(), root, v, Perm(user, writable, executable))
        invariant i >= 0 && Snap() == s0 ==> tlb == tlb0
      {
        var t := table / 4096;
        DescendedTable(s0, Snap(), root, hhdm, v, 3 - i);
        assert indices[i] == Slot(v, i);
        var e := mem[t][indices[i]];
        if i == 0 && e.present {
          DescendMapped(s0, Snap(), root, hhdm, v);
          NextNothing(books, v);
          return false;
        }
        if !e.present {
          DescendAbsent(s0, Snap(), root, hhdm, v, 3 - i);
          if i > 0 {
            e := AddTable(t, indices[i], e, s0, v, 3 - i, perm, tlb0);
          } else {
            e := AddPage(t, indices[i], e, user, writable, executable, s0, v, tlb0);
          }
        } else {
          DescendPresent(s0, Snap(), root, hhdm, v, 3 - i);
          DescendClimbed(s0, Snap(), root, v, 3 - i);
          DescendClimbed(s0, Snap(), root, v, 4 - i);
          if Walk(s0.mem, root, v).Fault? {
            StoresSame(s0, Snap(), root, v, 3 - i, perm);
          }
        }
        table := e.address * 4096;
        i := i - 1;
      }
      ghost var before := tlb;
      Invalidate(address);
      HoldLess(StoresTo(s0, v, 4, perm), root, tlb0, before, v);
      MappedWalks(s0, Snap(), root, v, perm);
      MapCurrent(s0, mem, root, hhdm, v, perm, tlb0, tlb);
      if Coherent(s0.mem, root, tlb0) && NothingBehind(s0, v) {
        MapCoherent(s0, mem, root, hhdm, v, perm, tlb0, tlb);
      }
      MapNext(s0, Snap(), root, hhdm, v, Perm(user, writable, executable));
      return true;
    }

    /** The physical address behind a virtual one, found without looking at any `present` bit. */
    method Translate(address: nat) returns (final: nat)
      requires Valid() && PathTo(PageOf(address), 3) in books.tables
      ensures Walk(mem, root, PageOf(address)).Mapped? ==>
        final == 4096 * Walk(mem, root, PageOf(address)).frame + address % 4096
    {
      hide Sound, Tree, Walk, Reach, NoHuge, Descended, Current, Slot, PageOf;
      ghost var s, v := Snap(), PageOf(address);
      AddressSlots(address);
      var offset := address % 4096;
      var pageTable: nat := 4096 * root;
      var i := 0;
      UpperNoHuge(s, root, hhdm, v);
      Start(s, root, hhdm, v);
      while i < 4
        invariant i <= 4
        invariant i < 4 ==> Descended(s, s, root, v, i) && pageTable == 4096 * TableOf(s, PathTo(v, i))
        invariant i == 4 && Walk(mem, root, v).Mapped? ==> pageTable == 4096 * Walk(mem, root, v).frame
      {
        DescendedTable(s, s, root, hhdm, v, i);
        var index := if i == 0 then address / 0x80_0000_0000 % 512
          else if i == 1 then address / 0x4000_0000 % 512
          else if i == 2 then address / 0x20_0000 % 512
          else address / 0x1000 % 512;
        assert index == Slot(v, 3 - i);
        var entry := mem[pageTable / 4096][index];
        if i < 3 {
          UpperPresent(s, root, hhdm, v, i);
          DescendPresent(s, s, root, hhdm, v, i);
        } else {
          LeafWalk(s, root, hhdm, v);
        }
        pageTable := entry.address * 4096;
        i := i + 1;
      }
      return pageTable + offset;
    }

    /** Removes the translation of the page of `address`, whose upper levels must be present. */
    method VmUnmap(address: nat) returns (ok: bool)
      requires Valid()
      requires PathTo(PageOf(address), 3) in books.tables
      modifies this`mem, this`books, this`tlb
      ensures Valid() && ok
      ensures IsUnmapped(old(Snap()), Snap(), root, PageOf(address)) && PageOf(address) !in tlb
      ensures old(Coherent(mem, root, tlb)) ==> Coherent(mem, root, tlb)
      ensures Next(old(books), Op.Unmap(PageOf(address)), books)
      ensures old(KeptAt(Snap(), root)) ==> KeptAt(Snap(), root)
    {
      hide Sound, Tree, Walk, Reach, NoHuge, Descended, IsUnmapped, Current, Coherent, Slot, PageOf, UnmapBooks,
           CanFill, AsGood, Put, SameWalksBut, Next, KeptAt;
      ghost var v := PageOf(address);
      ghost var s0, tlb0 := Snap(), tlb;
      var indices := [address / 0x1000 % 512, address / 0x20_0000 % 512,
                      address / 0x4000_0000 % 512, address / 0x80_0000_0000 % 512];
      AddressSlots(address);
      var table := 4096 * root;
      var i := 3;
      UpperNoHuge(s0, root, hhdm, v);
      Start(s0, root, hhdm, v);
      GoodStart(s0.mem, root, tlb0, v);
      while i >= 0
        invariant -1 <= i <= 3
        invariant SoundAt(Snap(), root, hhdm)
        invariant i >= 0 ==> Snap() == s0 && tlb == tlb0 && Descended(s0, s0, root, v, 3 - i)
        invariant i >= 0 ==> table == 4096 * TableOf(s0, PathTo(v, 3 - i))
        invariant i < 0 ==> IsUnmapped(s0, Snap(), root, v) && AsGood(s0.mem, mem, root, tlb0, tlb, v)
      {
        var t := table / 4096;
        DescendedTable(s0, Snap(), root, hhdm, v, 3 - i);
        assert indices[i] == Slot(v, i);
        if i == 0 {
          PutInside(mem, t, indices[i], mem[t][indices[i]]);
          PutInside(mem, t, indices[i], mem[t][indices[i]].(present := false));
          StoreEntry(t, indices[i], mem[t][indices[i]].(present := false), s0.mem, mem[t][indices[i]]);
          books := UnmapBooks(books, v);
          StoreUnmapped(s0, Snap(), root, hhdm, v, s0.mem[t][indices[i]].(present := false));
          LeafSame(s0, Snap(), root, v);
          GoodStep(s0.mem, s0.mem, mem, root, tlb0, tlb0, tlb, v);
        } else {
          UpperPresent(s0, root, hhdm, v, 3 - i);
          DescendPresent(s0, s0, root, hhdm, v, 3 - i);
        }
        table := mem[t][indices[i]].address * 4096;
        i := i - 1;
      }
      ghost var before := tlb;
      Invalidate(address);
      GoodEnd(s0.mem, mem, root, tlb0, before, v);
      UnmapNext(s0, Snap(), root, v);
      return true;
    }

    /** Stores a permission bit of the last-level entry of `v`. */
    method StoreLeaf(t: nat, index: nat, w: Word, ghost s0: Snapshot, ghost v: Page, ghost tlb0: Tlb, ghost was: Word)
      requires SoundAt(s0, root, hhdm) && Snap() == s0.(mem := mem) && PathTo(v, 3) in books.tables
      requires t == books.tables[PathTo(v, 3)] < |s0.mem| == |mem| && index == Slot(v, 0)
      requires EntryAt(s0, v, 3).present
      requires SameButPerm(EntryAt(s0, v, 3), w)
      requires mem == Put(s0.mem, t, index, was) && SameWalksBut(s0.mem, mem, root, v)
      requires AsGood(s0.mem, mem, root, tlb0, tlb, v)
      modifies this`mem, this`tlb
      ensures SoundAt(Snap(), root, hhdm) && IsProtected(s0, Snap(), root, v, EntryPerm(w))
      ensures mem == Put(s0.mem, t, index, w) && SameWalksBut(s0.mem, mem, root, v)
      ensures AsGood(s0.mem, mem, root, tlb0, tlb, v)
    {
      hide Sound, Tree, Walk, Reach, IsProtected, Slot, CanFill, SameWalksBut, AsGood, Put;
      ghost var mem0, before := mem, tlb;
      StoreEntry(t, index, w, s0.mem, was);
      PutInside(s0.mem, t, index, w);
      StoreProtected(s0, Snap(), root, hhdm, v, w);
      ProtectSame(s0, Snap(), root, v, EntryPerm(w));
      GoodStep(s0.mem, mem0, mem, root, tlb0, before, tlb, v);
    }

    /** Stores the permissions of the last-level entry of `v`, one by one. */
    method StorePerm(t: nat, index: nat, e: Word, user: bool, writable: bool, executable: bool, ghost s0: Snapshot,
                     ghost v: Page) returns (stored: Word)
      requires SoundAt(s0, root, hhdm) && Snap() == s0 && PathTo(v, 3) in books.tables
      requires t == books.tables[PathTo(v, 3)] < |mem| && index == Slot(v, 0) && e == mem[t][index] && e.present
      modifies this`mem, this`tlb
      ensures SoundAt(Snap(), root, hhdm) && IsProtected(s0, Snap(), root, v, Perm(user, writable, executable))
      ensures AsGood(s0.mem, mem, root, old(tlb), tlb, v)
    {
      hide Sound, Tree, Walk, Reach, IsProtected, Slot, SameWalksBut, AsGood, Put, SameButPerm, EntryPerm;
      ghost var tlb0 := tlb;
      PermStages(e, Perm(user, writable, executable));
      GoodStart(mem, root, tlb, v);
      PutInside(mem, t, index, e);
      stored := e.(writable := writable);
      StoreLeaf(t, index, stored, s0, v, tlb0, e);
      ghost var was := stored;
      stored := stored.(user := user);
      StoreLeaf(t, index, stored, s0, v, tlb0, was);
      was := stored;
      stored := stored.(noExecute := !executable);
      StoreLeaf(t, index, stored, s0, v, tlb0, was);
    }

    /** Changes the permissions of the page of `address`; false if it is not mapped. */
    method VmProtect(address: nat, user: bool, writable: bool, executable: bool) returns (ok: bool)
      requires Valid()
      requires NoHuge(mem, books.tables, PageOf(address))
      modifies this`mem, this`tlb
      ensures Valid()
      ensures ok <==> old(Walk(mem, root, PageOf(address))).Mapped?
      ensures !ok ==> Snap() == old(Snap()) && tlb == old(tlb)
      ensures ok ==> IsProtected(old(Snap()), Snap(), root, PageOf(address), Perm(user, writable, executable))
      ensures old(Coherent(mem, root, tlb)) ==> Coherent(mem, root, tlb)
      ensures old(KeptAt(Snap(), root)) ==> KeptAt(Snap(), root)
    {
      hide Sound, Tree, Reach, NoHuge, Descended, IsProtected, Current, Coherent, Slot, PageOf, CanFill, SameWalksBut,
           Walk, KeptAt, AsGood, SetEntry, Put, Climbed, Meet, OnlyLeaf;
      ghost var v := PageOf(address);
      ghost var s0, tlb0 := Snap(), tlb;
      var indices := [address / 0x1000 % 512, address / 0x20_0000 % 512,
                      address / 0x4000_0000 % 512, address / 0x80_0000_0000 % 512];
      AddressSlots(address);
      var table := 4096 * root;
      var i := 3;
      Start(s0, root, hhdm, v);
      while i >= 0
        invariant -1 <= i <= 3
        invariant SoundAt(Snap(), root, hhdm)
        invariant i >= 0 ==> Snap() == s0 && tlb == tlb0 && Descended(s0, s0, root, v, 3 - i)
        invariant i >= 0 ==> table == 4096 * TableOf(s0, PathTo(v, 3 - i))
        invariant i < 0 ==> IsProtected(s0, Snap(), root, v, Perm(user, writable, executable))
        invariant i < 0 ==> AsGood(s0.mem, mem, root, tlb0, tlb, v)
        invariant i < 0 ==> Walk(s0.mem, root, v).Mapped?
      {
        var t := table / 4096;
        DescendedTable(s0, Snap(), root, hhdm, v, 3 - i);
        assert indices[i] == Slot(v, i);
        var e := mem[t][indices[i]];
        if !e.present {
          SoundTree(s0, root, hhdm);
          AbsentFault(s0, root, v, 3 - i);
          return false;
        }
        if i == 0 {
          LeafWalk(s0, root, hhdm, v);
          e := StorePerm(t, indices[i], e, user, writable, executable, s0, v);
        } else {
          DescendPresent(s0, s0, root, hhdm, v, 3 - i);
        }
        table := e.address * 4096;
        i := i - 1;
      }
      ghost var before := tlb;
      Invalidate(address);
      GoodEnd(s0.mem, mem, root, tlb0, before, v);
      ProtectNext(s0, Snap(), root, hhdm, v, Perm(user, writable, executable));
      return true;
    }

    /** Frees the last-level tables below entry b of the level-3 table at entry a of the root. */
    method FreeLastLevel(table: nat, ghost s0: Snapshot, ghost s1: Snapshot, ghost a: nat, ghost b: nat)
      requires Traversing(s0, s1, Snap(), root, hhdm, a, Freed(s0.books.tables, a, b, 0)) && b < 512
      requires Down(Down(Top, a), b) in s0.books.tables && s0.books.tables[Down(Down(Top, a), b)] == table
      modifies this`mem, this`freeList, this`books
      ensures Traversing(s0, s1, Snap(), root, hhdm, a, Freed(s0.books.tables, a, b, 512))
    {
      hide Sound, Walk, Freed, Detached, Freeing, Points, SameWalks;
      ghost var p := Down(Down(Top, a), b);
      var c := 0;
      while c < 512
        invariant c <= 512
        invariant Traversing(s0, s1, Snap(), root, hhdm, a, Freed(s0.books.tables, a, b, c))
      {
        UnderHere(a, b, c);
        TreeSlots(s0, root, hhdm);
        FreedRow(s0.books.tables, a, b);
        FreedGrows(s0.books.tables, a, b, c);
        Unfreed(s0, s1, Snap(), root, hhdm, a, Freed(s0.books.tables, a, b, c), p);
        ChildThere(s0, root, hhdm, p, c);
        FreedNext(s0.books.tables, a, b, c);
        var e := mem[table][c];
        LevelTwo(e, p, a, b);
        if e.present && !e.pageSize {
          ghost var s, f := Snap(), e.address;
          Unfreed(s0, s1, s, root, hhdm, a, Freed(s0.books.tables, a, b, c), Down(p, c));
          PmemFree(e.address * 4096);
          FreeingStep(s1, s, Snap(), root, Freed(s0.books.tables, a, b, c), f);
        }
        c := c + 1;
      }
    }

    /** Frees the level-2 tables, and all below them, of the level-3 table at entry a of the root. */
    method FreeMiddleLevel(table: nat, ghost s0: Snapshot, ghost s1: Snapshot, ghost a: nat)
      requires Traversing(s0, s1, Snap(), root, hhdm, a, {})
      requires Down(Top, a) in s0.books.tables && s0.books.tables[Down(Top, a)] == table
      modifies this`mem, this`freeList, this`books
      ensures Traversing(s0, s1, Snap(), root, hhdm, a, Freed(s0.books.tables, a, 512, 0))
    {
      hide Sound, Walk, Freed, Detached, Freeing, Points, SameWalks;
      ghost var p := Down(Top, a);
      var b := 0;
      FreedStart(s0.books.tables, a);
      while b < 512
        invariant b <= 512
        invariant Traversing(s0, s1, Snap(), root, hhdm, a, Freed(s0.books.tables, a, b, 0))
      {
        UnderHere(a, b, 0);
        TreeSlots(s0, root, hhdm);
        FreedEnd(s0.books.tables, a);
        FreedRows(s0.books.tables, a, b);
        Unfreed(s0, s1, Snap(), root, hhdm, a, Freed(s0.books.tables, a, b, 0), p);
        ChildThere(s0, root, hhdm, p, b);
        FreedRow(s0.books.tables, a, b);
        var e := mem[table][b];
        LevelThree(e, p, a);
        if e.present && !e.pageSize {
          FreeLastLevel(e.address, s0, s1, a, b);
          ghost var s, f := Snap(), e.address;
          Unfreed(s0, s1, s, root, hhdm, a, Freed(s0.books.tables, a, b, 512), p);
          Unfreed(s0, s1, s, root, hhdm, a, Freed(s0.books.tables, a, b, 512), Down(p, b));
          PmemFree(mem[table][b].address * 4096);
          FreeingStep(s1, s, Snap(), root, Freed(s0.books.tables, a, b, 512), f);
        }
        b := b + 1;
      }
    }

    /** Tears down the lower half of the address space, gives its tables back, and flushes the cache. */
    method UnmapLowerHalf()
      requires Valid()
      modifies this
      ensures Valid() && tlb == map[] && Coherent(mem, root, tlb)
      ensures Next(old(books), Teardown, books) && IsTorn(old(Snap()), Snap(), root)
      ensures |mem| == |old(mem)|
      ensures forall v: Page :: Lower(v) ==> Walk(mem, root, v).Fault?
      ensures forall v: Page :: !Lower(v) ==> Walk(mem, root, v) == Walk(old(mem), root, v)
      ensures forall f :: 0 <= f < |mem| && f != root && f !in LowerTables(old(books)) ==> mem[f] == old(mem)[f]
      ensures RootExecutable(old(mem), root) ==> Kept(mem, root, books)
      ensures vHeap == 0x1_0000
    {
      hide Sound, Walk, Freed, Freeing, Points, SameWalks, TornTo, LastFreed, IsTorn, TornFrom, MapBooks, UnmapBooks,
           Kept, LowerTables, Lower;
      ghost var s0 := Snap();
      RootInMemory(s0, root, hhdm);
      TornStart(s0, root);
      NoneFreed(s0);
      var a := 0;
      while a < 256
        invariant a <= 256
        invariant SoundAt(Snap(), root, hhdm) && TornTo(s0, Snap(), root, a) && LastFreed(s0, Snap(), a)
      {
        ghost var s := Snap();
        RootInMemory(s, root, hhdm);
        if mem[root][a].present {
          mem := SetEntry(mem, root, a, mem[root][a].(present := false));
          books := DetachBooks(books, a);
          Speculate();  // until CR3 is reloaded the cache may hold what is no longer mapped
          ghost var s1 := Snap();
          DetachKeepsSound(s, s1, root, hhdm, a);
          FreeingNone(s1, root);
          RootChild(s, s1, root, hhdm, a);
          var table := mem[root][a].address;
          FreeMiddleLevel(table, s, s1, a);
          ghost var s2, f := Snap(), table;
          UnderHere(a, 0, 0);
          TreeSlots(s, root, hhdm);
          FreedEnd(s.books.tables, a);
          Unfreed(s, s1, s2, root, hhdm, a, Freed(s.books.tables, a, 512, 0), Down(Top, a));
          RootUnfreed(s, s1, s2, root, hhdm, a);
          PmemFree(mem[root][a].address * 4096);
          FreeingStep(s1, s2, Snap(), root, Freed(s.books.tables, a, 512, 0), f);
          TornStep(s0, s, s1, Snap(), root, hhdm, a);
        } else {
          TornSkip(s0, s, root, hhdm, a);
        }
        a := a + 1;
      }
      vHeap := HEAP_START;
      tlb := map[];
      TornDone(s0, Snap(), root, hhdm);
    }
  }
}
