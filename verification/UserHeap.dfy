/** stdlib/mem.c: the bump allocator of user programs, over the mmap system call. */
module UserHeap {
  import opened PageTable
  import opened Ledger
  import opened Space
  import opened MapSteps
  import opened UserHalf
  import opened Mapping
  import opened UserPages
  import opened Caches
  import opened Kernel
  import opened UserMemory
  import opened Syscalls

  const PAGE_SIZE := 2048

  /** x rounded up to a multiple of y, for the two granularities in use. */
  function RoundUp(x: nat, y: nat): (r: nat)
    requires y == 16 || y == PAGE_SIZE
    ensures x <= r < x + y && r % y == 0
  {
    if y == 16 then (if x % 16 == 0 then x else x + (16 - x % 16))
    else (if x % 2048 == 0 then x else x + (2048 - x % 2048))
  }

  // ---- the allocator as a function ----

  /** The allocator's two variables, and how far mmap has handed out memory. */
  datatype Heap = Heap(bump: nat, space: nat, granted: nat)

  const FRESH := Heap(0, 0, HEAP_START)

  /** Does a request of this size need more memory from mmap? */
  predicate NeedsMore(h: Heap, sz: nat) { h.space < RoundUp(sz, 16) }

  function Allocate(h: Heap, sz: nat): (Heap, nat) {
    var size := RoundUp(sz, 16);
    if NeedsMore(h, sz) then
      (Heap(h.granted + size, RoundUp(size, PAGE_SIZE) - size, h.granted + MMAP_SIZE), h.granted)
    else
      (Heap(h.bump + size, h.space - size, h.granted), h.bump)
  }

  /** The heap after the first n requests. */
  function After(requests: seq<nat>, n: nat): Heap
    requires n <= |requests|
  {
    if n == 0 then FRESH else Allocate(After(requests, n - 1), requests[n - 1]).0
  }

  /** The address returned for request i. */
  function Block(requests: seq<nat>, i: nat): nat
    requires i < |requests|
  {
    Allocate(After(requests, i), requests[i]).1
  }

  /** Byte x belongs to the block of request i. */
  predicate InBlock(requests: seq<nat>, i: nat, x: nat)
    requires i < |requests|
  {
    Block(requests, i) <= x < Block(requests, i) + requests[i]
  }

  /** Every byte of block i lies in memory that mmap has handed out. */
  ghost predicate Granted(requests: seq<nat>, i: nat)
    requires i < |requests|
  {
    forall x: nat :: InBlock(requests, i, x) ==> HEAP_START <= x < After(requests, i + 1).granted
  }

  /** What holds as long as no request exceeded what one mmap hands out. */
  predicate Tidy(h: Heap) {
    && h.granted % PAGE_SIZE == 0 && h.granted >= HEAP_START
    && h.bump % 16 == 0 && h.space % 16 == 0
    && if h.bump == 0 then h.space == 0 else HEAP_START <= h.bump && h.bump + h.space == h.granted
  }

  lemma TidyStep(h: Heap, sz: nat)
    requires Tidy(h) && sz <= PAGE_SIZE
    ensures var (h', block) := Allocate(h, sz);
      && Tidy(h') && h'.granted >= h.granted && h'.bump >= h.bump && block % 16 == 0
      && (sz > 0 ==> HEAP_START <= block && h.bump <= block && block + sz <= h'.bump <= h'.granted)
  {
    var size := RoundUp(sz, 16);
    SmallRequest(sz);
    hide RoundUp;
    if NeedsMore(h, sz) {
      PagesAligned(h.granted);
      SumAligned(h.granted, size);
    } else {
      SumAligned(h.bump, size);
      DifferenceAligned(h.space, size);
    }
  }

  lemma SmallRequest(sz: nat)
    requires sz <= PAGE_SIZE
    ensures var size := RoundUp(sz, 16);
      size <= PAGE_SIZE && (size > 0 ==> RoundUp(size, PAGE_SIZE) == PAGE_SIZE && (PAGE_SIZE - size) % 16 == 0)
  {
  }

  lemma PagesAligned(x: nat)
    requires x % PAGE_SIZE == 0
    ensures x % 16 == 0 && (x + MMAP_SIZE) % PAGE_SIZE == 0
  {
    var q := x / PAGE_SIZE;
    assert x == 16 * (128 * q);
    assert x + MMAP_SIZE == PAGE_SIZE * (q + 1);
  }

  lemma SumAligned(x: nat, y: nat)
    requires x % 16 == 0 && y % 16 == 0
    ensures (x + y) % 16 == 0
  {
  }

  lemma DifferenceAligned(x: nat, y: nat)
    requires x % 16 == 0 && y % 16 == 0 && y <= x
    ensures (x - y) % 16 == 0
  {
  }

  lemma {:induction false} TidyRun(requests: seq<nat>, n: nat)
    requires n <= |requests| && forall i :: 0 <= i < n ==> requests[i] <= PAGE_SIZE
    ensures Tidy(After(requests, n))
  {
    if n > 0 {
      TidyRun(requests, n - 1);
      TidyStep(After(requests, n - 1), requests[n - 1]);
    }
  }

  lemma {:induction false} BumpGrows(requests: seq<nat>, m: nat, n: nat)
    requires m <= n <= |requests| && forall i :: 0 <= i < n ==> requests[i] <= PAGE_SIZE
    ensures After(requests, m).bump <= After(requests, n).bump
    decreases n
  {
    if m < n {
      TidyRun(requests, n - 1);
      TidyStep(After(requests, n - 1), requests[n - 1]);
      BumpGrows(requests, m, n - 1);
    }
  }

  /** Blocks of requests up to 2048 bytes are aligned and do not overlap. */
  lemma Disjoint(requests: seq<nat>, i: nat, j: nat, x: nat)
    requires i < j < |requests| && forall k :: 0 <= k <= j ==> requests[k] <= PAGE_SIZE
    ensures Block(requests, i) % 16 == 0 && Block(requests, j) % 16 == 0
    ensures !(InBlock(requests, i, x) && InBlock(requests, j, x))
  {
    TidyRun(requests, i);
    TidyStep(After(requests, i), requests[i]);
    BumpGrows(requests, i + 1, j);
    TidyRun(requests, j);
    TidyStep(After(requests, j), requests[j]);
  }

  // ---- where blocks lie ----

  /** The least multiple of 16, and of 2048, from x up. */
  function Up16(x: nat): nat { (x + 15) / 16 * 16 }

  function Up2048(x: nat): nat { (x + 2047) / 2048 * 2048 }

  lemma RoundsUp(x: nat)
    ensures RoundUp(x, 16) == Up16(x) && Up16(x) % 16 == 0
  {
    var q := (x + 15) / 16;
    assert x % 16 == 0 ==> x == 16 * (x / 16);
  }

  /** Of a tidy heap: what is left is what there is up to the next multiple of 2048. */
  lemma SpaceLeft(h: Heap)
    requires Tidy(h) && h.space < 2048 && h.bump > 0
    ensures h.space == Up2048(h.bump) - h.bump && h.granted == Up2048(h.bump)
    ensures h.bump % 2048 != 0 ==> h.space == 2048 - h.bump % 2048
  {
    Between(h.bump, h.space, h.granted);
  }

  lemma Between(x: nat, space: nat, end: nat)
    requires x + space == end && end % 2048 == 0 && space < 2048
    ensures end == (x + 2047) / 2048 * 2048 && (x % 2048 != 0 ==> space == 2048 - x % 2048)
  {
    var q := end / 2048;
    assert end == 2048 * q;
    assert (x + 2047) / 2048 == q;
  }

  /** The first block is at the start of the heap. */
  lemma FirstBlock(requests: seq<nat>)
    requires requests != [] && requests[0] > 0
    ensures Block(requests, 0) == 0x1_0000
  {
  }

  /** Each block follows the one before, rounded up to 16, as long as it does not cross a multiple of 2048;
      otherwise it starts at the next multiple. */
  lemma NextBlock(requests: seq<nat>, i: nat)
    requires i + 1 < |requests| && forall k :: 0 <= k <= i + 1 ==> 1 <= requests[k] <= 2048
    ensures var a, b := Block(requests, i) + Up16(requests[i]), Up16(requests[i + 1]);
      Block(requests, i + 1) == if a % 2048 != 0 && a % 2048 + b <= 2048 then a else Up2048(a)
  {
    hide RoundUp, Up16, Up2048, Allocate, Tidy, After;
    TidyRun(requests, i + 1);
    LittleSpace(requests, i + 1);
    RoundsUp(requests[i]);
    TidyRun(requests, i);
    TidyStep(After(requests, i), requests[i]);
    BumpIs(requests, i);
    NextFrom(After(requests, i + 1), requests[i + 1]);
  }

  lemma NextFrom(h: Heap, sz: nat)
    requires Tidy(h) && h.space < 2048 && h.bump > 0 && sz > 0
    ensures var b := Up16(sz);
      Allocate(h, sz).1 == if h.bump % 2048 != 0 && h.bump % 2048 + b <= 2048 then h.bump else Up2048(h.bump)
  {
    hide RoundUp, Up16, Up2048, Tidy;
    RoundsUp(sz);
    PositiveRound(sz);
    SpaceLeft(h);
    AtBoundary(h.bump);
  }

  lemma AtBoundary(x: nat)
    ensures x % 2048 == 0 ==> Up2048(x) == x
  {
  }

  lemma PositiveRound(x: nat)
    requires x > 0
    ensures Up16(x) > 0
  {
  }

  lemma BumpIs(requests: seq<nat>, i: nat)
    requires i < |requests|
    ensures After(requests, i + 1).bump == Block(requests, i) + RoundUp(requests[i], 16)
  {
    hide RoundUp;
  }

  /** Space is never left for a request beyond 2048 bytes. */
  lemma {:induction false} LittleSpace(requests: seq<nat>, n: nat)
    requires n <= |requests|
    ensures After(requests, n).space < PAGE_SIZE
  {
    if n > 0 {
      LittleSpace(requests, n - 1);
      var size := RoundUp(requests[n - 1], 16);
      assert RoundUp(size, PAGE_SIZE) - size < PAGE_SIZE;
    }
  }

  /** A larger request is answered with 2048 bytes all the same, and its block runs past them. */
  lemma Overrun(requests: seq<nat>, i: nat)
    requires i < |requests| && requests[i] > PAGE_SIZE
    ensures !Granted(requests, i)
  {
    LittleSpace(requests, i);
    var h := After(requests, i);
    assert NeedsMore(h, requests[i]);
    assert InBlock(requests, i, h.granted + MMAP_SIZE);
  }

  /** Every block lies in memory handed out by mmap if and only if no request exceeds 2048 bytes. */
  lemma GrantedExactly(requests: seq<nat>)
    ensures (forall i :: 0 <= i < |requests| ==> Granted(requests, i)) <==>
            (forall i :: 0 <= i < |requests| ==> requests[i] <= PAGE_SIZE)
  {
    forall i | 0 <= i < |requests| && requests[i] > PAGE_SIZE ensures !Granted(requests, i) {
      Overrun(requests, i);
    }
    if forall i :: 0 <= i < |requests| ==> requests[i] <= PAGE_SIZE {
      forall i | 0 <= i < |requests| ensures Granted(requests, i) {
        TidyRun(requests, i);
        TidyStep(After(requests, i), requests[i]);
      }
    }
  }

  // ---- the allocator in memory ----

  /** Every page below the heap's end is mapped, and open to the program. */
  ghost predicate HeapMapped(s: Snapshot, root: nat, end: nat) {
    forall v: Page :: HEAP_START <= 4096 * v < end ==> Walk(s.mem, root, v).Mapped? && Walk(s.mem, root, v).perm == FULL
  }

  /** The pages of the heap up to its end. */
  function HeapPages(end: nat): set<Page> {
    set v: Page | 0 <= v < 0x10_0000_0000 && HEAP_START <= 4096 * v < end
  }

  /** A call of mmap adds a page if the heap ends at a page boundary. */
  lemma OneMorePage(end: nat)
    requires HEAP_START <= end && end + MMAP_SIZE <= LOWER_END && end % MMAP_SIZE == 0
    ensures |HeapPages(end + MMAP_SIZE)| == |HeapPages(end)| + (if end % 4096 == 0 then 1 else 0)
  {
    hide Lower, PageOf;
    HeapPage(end);
    HalfPage(end);
    var v := PageOf(end);
    if end % 4096 == 0 {
      assert HeapPages(end + MMAP_SIZE) == HeapPages(end) + {v};
    } else {
      assert HeapPages(end + MMAP_SIZE) == HeapPages(end);
    }
  }

  /** Only every second mmap adds a page to the heap. */
  lemma {:induction false} EverySecondMmap(n: nat)
    requires HEAP_START + MMAP_SIZE * n <= LOWER_END
    ensures |HeapPages(HEAP_START + MMAP_SIZE * n)| == (n + 1) / 2
  {
    hide HeapPages;
    if n == 0 {
      NoHeapPages();
    } else {
      EverySecondMmap(n - 1);
      EndAfter(n - 1);
      OneMorePage(HEAP_START + MMAP_SIZE * (n - 1));
    }
  }

  lemma NoHeapPages()
    ensures HeapPages(HEAP_START) == {}
  {
  }

  lemma EndAfter(n: nat)
    ensures var end := HEAP_START + MMAP_SIZE * n; end % MMAP_SIZE == 0 && (end % 4096 == 0 <==> n % 2 == 0)
  {
    var q := n / 2;
    assert HEAP_START + MMAP_SIZE * n == 4096 * (16 + q) + 2048 * (n % 2);
  }

  const LOWER_END := 0x8000_0000_0000

  lemma HeapPage(end: nat)
    requires end + MMAP_SIZE <= LOWER_END && end % MMAP_SIZE == 0
    ensures Lower(PageOf(end)) && PageOf(end) == end / 4096
    ensures forall v: Page :: 4096 * v < end + MMAP_SIZE <==> 4096 * v < end || (v == PageOf(end) && end % 4096 == 0)
    ensures end % 4096 != 0 ==> 4096 * PageOf(end) < end
  {
    var q := end / 4096;
    HalfPage(end);
    assert q < 0x8_0000_0000;
    forall v: Page ensures 4096 * v < end + MMAP_SIZE <==> 4096 * v < end || (v == q && end % 4096 == 0) {
      HeapCovers(end, q, v);
    }
  }

  lemma HalfPage(end: nat)
    requires end % MMAP_SIZE == 0
    ensures end == 4096 * (end / 4096) || end == 4096 * (end / 4096) + 2048
    ensures end % 4096 == 0 <==> end == 4096 * (end / 4096)
  {
  }

  lemma HeapCovers(end: nat, q: nat, v: nat)
    requires end == 4096 * q || end == 4096 * q + 2048
    ensures 4096 * v < end + MMAP_SIZE <==> 4096 * v < end || (v == q && end == 4096 * q)
  {
  }

  lemma HeapGrows(s0: Snapshot, s: Snapshot, root: nat, hhdm: nat, end: nat)
    requires end + MMAP_SIZE <= LOWER_END && end % MMAP_SIZE == 0 && end >= HEAP_START
    requires SoundAt(s, root, hhdm) && KeptAt(s0, root) && HeapMapped(s0, root, end)
    requires end % 4096 == 0 ==> Walk(s0.mem, root, PageOf(end)).Fault?
    requires if Walk(s0.mem, root, PageOf(end)).Fault? then IsMapped(s0, s, root, PageOf(end), FULL) else s == s0
    ensures HeapMapped(s, root, end + MMAP_SIZE)
  {
    hide Walk, PageOf, Sound, KeptAt;
    var u := PageOf(end);
    HeapPage(end);
    if Walk(s0.mem, root, u).Fault? {
      MapUser(s0, s, root, hhdm, u, FULL);
      MappedSame(s0, s, root, u);
      if end % 4096 != 0 {
        assert false;
      }
    }
  }

  lemma MappedSame(s0: Snapshot, s: Snapshot, root: nat, v: Page)
    requires IsMapped(s0, s, root, v, FULL)
    ensures SameWalksBut(s0.mem, s.mem, root, v)
  {
    hide SameWalksBut, Walk;
  }

  lemma {:induction false} GrantGrows(requests: seq<nat>, m: nat, n: nat)
    requires m <= n <= |requests|
    ensures After(requests, m).granted <= After(requests, n).granted
    decreases n
  {
    if m < n {
      GrantGrows(requests, m, n - 1);
    }
  }

  /** Every byte of every block handed out so far is in a page that is mapped and open to the program. */
  lemma BlocksMapped(s: Snapshot, root: nat, requests: seq<nat>, n: nat, i: nat, x: nat)
    requires i < n <= |requests| && forall k :: 0 <= k < |requests| ==> requests[k] <= PAGE_SIZE
    requires After(requests, n).granted <= LOWER_END && HeapMapped(s, root, After(requests, n).granted)
    requires InBlock(requests, i, x)
    ensures Walk(s.mem, root, PageOf(x)).Mapped? && Walk(s.mem, root, PageOf(x)).perm == FULL
  {
    hide Walk, InBlock, Granted, PageOf, After;
    GrantedExactly(requests);
    GrantedByte(requests, i, x);
    GrantGrows(requests, i + 1, n);
    HeapByte(x);
  }

  lemma HeapByte(x: nat)
    requires HEAP_START <= x < LOWER_END
    ensures HEAP_START <= 4096 * PageOf(x) <= x
  {
    assert x / 4096 < 0x8_0000_0000;
  }

  lemma GrantedByte(requests: seq<nat>, i: nat, x: nat)
    requires i < |requests| && Granted(requests, i) && InBlock(requests, i, x)
    ensures HEAP_START <= x < After(requests, i + 1).granted
  {
    hide After, Allocate, Block;
  }

  // ---- the allocator's variables ----

  /** Where the allocator's two global variables are in the program's memory. */
  datatype Globals = Globals(bump: Address, space: Address)

  /** They are two variables that the program can write. */
  ghost predicate GlobalsOk(s: Snapshot, root: nat, g: Globals) {
    && CanWrite(s, root, g.bump) && CanWrite(s, root, g.space) && Span(g.bump, 8) !! Span(g.space, 8)
  }

  /** A variable of the program, on its stack, where the mmap call leaves its answer. */
  ghost predicate SlotOk(s: Snapshot, root: nat, g: Globals, slot: Address) {
    && CanWrite(s, root, slot) && Span(slot, 8) !! Span(g.bump, 8) && Span(slot, 8) !! Span(g.space, 8)
  }

  /** The variables, and the end of what mmap has handed out. */
  ghost predicate HeapIs(s: Snapshot, root: nat, g: Globals, vHeap: nat, h: Heap) {
    WordAt(s, root, g.bump, h.bump) && WordAt(s, root, g.space, h.space) && vHeap == h.granted
  }

  ghost function GlobalBytes(g: Globals): iset<nat> { Span(g.bump, 8) + Span(g.space, 8) }

  /** Requests that no 64-bit computation of the allocator wraps around for. */
  const MAX_REQUEST := 0x4000_0000_0000_0000

  predicate Bounded(h: Heap) { h.bump + h.space <= LOWER_END + MAX_REQUEST + 4096 }

  lemma BoundedStep(h: Heap, sz: nat)
    requires Bounded(h) && sz <= MAX_REQUEST && h.granted <= LOWER_END
    ensures Bounded(Allocate(h, sz).0)
    ensures RoundUp(RoundUp(sz, 16), PAGE_SIZE) < LIMIT && h.granted + RoundUp(RoundUp(sz, 16), PAGE_SIZE) < LIMIT
  {
    hide RoundUp;
    var size := RoundUp(sz, 16);
    var more := RoundUp(size, PAGE_SIZE);
    assert more < MAX_REQUEST + 4096;
  }

  /** The page that a request adds to the heap, if it does. */
  function PageAdded(h: Heap, size: nat): set<Page> {
    if NeedsMore(h, size) && h.granted % 4096 == 0 then {PageOf(h.granted)} else {}
  }

  ghost function Touched(h: Heap, g: Globals, size: nat, slot: Address): iset<nat> {
    GlobalBytes(g) + (if NeedsMore(h, size) then Span(slot, 8) else iset{})
  }

  /** The allocator's own stores. */
  method StoreGlobals(k: AddressSpace, g: Globals, bump: nat, space: nat)
    requires k.Valid() && GlobalsOk(k.Snap(), k.root, g) && bump < LIMIT && space < LIMIT
    modifies k`mem
    ensures k.Valid() && SameWalks(old(k.mem), k.mem, k.root)
    ensures old(KeptAt(k.Snap(), k.root)) ==> KeptAt(k.Snap(), k.root)
    ensures SameExcept(old(k.Snap()), k.Snap(), k.root, {}, GlobalBytes(g)) && GlobalsOk(k.Snap(), k.root, g)
    ensures WordAt(k.Snap(), k.root, g.bump, bump) && WordAt(k.Snap(), k.root, g.space, space)
  {
    hide Sound, Walk, Current, PageOf, KeptAt, SameWalks, SameExcept, WordAt, CanWrite, Span;
    ghost var s0 := k.Snap();
    StoreWord(k, g.bump, bump);
    ghost var s1 := k.Snap();
    GlobalsStay(s0, s1, k.root, g, {}, Span(g.bump, 8));
    StoreWord(k, g.space, space);
    ghost var s2 := k.Snap();
    WritesPage(s1, k.root, g.bump);
    WordStays(s1, s2, k.root, g.bump, bump, {}, Span(g.space, 8));
    GlobalsStay(s1, s2, k.root, g, {}, Span(g.space, 8));
    ExceptBoth(s0, s1, s2, k.root, {}, Span(g.bump, 8), {}, Span(g.space, 8));
    ExceptMore(s0, s2, k.root, {} + {}, {}, Span(g.bump, 8) + Span(g.space, 8), GlobalBytes(g));
    SameBoth(s0.mem, s1.mem, s2.mem, k.root);
  }

  lemma WritesPage(s: Snapshot, root: nat, a: Address)
    requires CanWrite(s, root, a)
    ensures PageOf(a) in s.books.pages && a % 8 == 0
  {
    hide Walk;
  }

  lemma GlobalsStay(s0: Snapshot, s: Snapshot, root: nat, g: Globals, area: set<Page>, touched: iset<nat>)
    requires GlobalsOk(s0, root, g) && SameExcept(s0, s, root, area, touched)
    requires forall v :: v in area ==> v !in s0.books.pages
    ensures GlobalsOk(s, root, g)
  {
    hide Walk, SameExcept, Span, CanWrite;
    WritesPage(s0, root, g.bump);
    WritesPage(s0, root, g.space);
    WriteStays(s0, s, root, g.bump, area, touched);
    WriteStays(s0, s, root, g.space, area, touched);
  }

  // ---- the allocator in memory ----

  /** Room for one more call of mmap: the next heap page is not in use for something else. */
  ghost predicate Room(s: Snapshot, root: nat, vHeap: nat) {
    var v := PageOf(vHeap);
    && vHeap + MMAP_SIZE <= LOWER_END
    && (vHeap % 4096 == 0 ==> Walk(s.mem, root, v).Fault? && Missing(s.books.tables, v, 3) < |s.books.free|)
  }

  /** What the heap relies on between requests. */
  ghost predicate HeapReady(s: Snapshot, root: nat, vHeap: nat) {
    && KeptAt(s, root) && HEAP_START <= vHeap <= LOWER_END && vHeap % MMAP_SIZE == 0
    && HeapMapped(s, root, vHeap)
  }

  /** The books after a request: one more page if it adds one. */
  function BooksAfter(b: Books, h: Heap, size: nat): Books {
    if NeedsMore(h, size) && h.granted % 4096 == 0 && Missing(b.tables, PageOf(h.granted), 3) < |b.free|
    then MapBooks(b, PageOf(h.granted)) else b
  }

  /** The program's mmap: the system call leaves the address in a variable on the stack, whose value it returns. */
  method UserMmap(k: AddressSpace, slot: Address) returns (p: nat)
    requires k.Valid() && HeapReady(k.Snap(), k.root, k.vHeap) && Room(k.Snap(), k.root, k.vHeap)
    requires CanWrite(k.Snap(), k.root, slot)
    modifies k
    ensures k.Valid() && p == old(k.vHeap) && k.vHeap == p + MMAP_SIZE && HeapReady(k.Snap(), k.root, k.vHeap)
    ensures var v := PageOf(p); var grows := p % 4096 == 0;
      && (if grows then old(Missing(k.books.tables, v, 3) < |k.books.free|) && k.books == MapBooks(old(k.books), v)
          else k.books == old(k.books))
      && (grows ==> v !in old(k.books.pages))
      && SameExcept(old(k.Snap()), k.Snap(), k.root, if grows then {v} else {}, Span(slot, 8))
  {
    hide Sound, Current, Walk, PageOf, HeapMapped, KeptAt, NoHuge, IsMapped, Missing, SameExcept, Lower, Reads,
         Bytes64, SameWalks, MapBooks, ReadVirtual, CanWrite, Span;
    ghost var s0, end := k.Snap(), k.vHeap;
    MmapReady(s0, k.root, end);
    WritesPage(s0, k.root, slot);
    WordInPage(slot);
    ghost var between := Mmap(k, slot);
    HeapGrows(s0, between, k.root, k.hhdm, end);
    HeapStays(between, k.Snap(), k.root, end + MMAP_SIZE);
    PagesAligned(end);
    AfterMmap(s0, between, k.root, k.hhdm, end);
    ghost var area: set<Page> := if end % 4096 == 0 then {PageOf(end)} else {};
    ExceptBoth(s0, between, k.Snap(), k.root, area, iset{}, {}, Span(slot, 8));
    ExceptMore(s0, k.Snap(), k.root, area + {}, area, iset{} + Span(slot, 8), Span(slot, 8));
    WordLoaded(k.Snap(), k.root, slot, end);
    p := LoadWord(k.mem, k.root, slot);
  }

  lemma HeapStays(s: Snapshot, s': Snapshot, root: nat, end: nat)
    requires HeapMapped(s, root, end) && SameWalks(s.mem, s'.mem, root)
    ensures HeapMapped(s', root, end)
  {
    hide Walk;
  }

  lemma AfterMmap(s0: Snapshot, s: Snapshot, root: nat, hhdm: nat, end: nat)
    requires SoundAt(s0, root, hhdm) && SoundAt(s, root, hhdm) && HeapReady(s0, root, end) && Room(s0, root, end)
    requires if Walk(s0.mem, root, PageOf(end)).Fault? then IsMapped(s0, s, root, PageOf(end), FULL) else s == s0
    ensures var v := PageOf(end); var grows := end % 4096 == 0;
      && (if grows then Missing(s0.books.tables, v, 3) < |s0.books.free| && s.books == MapBooks(s0.books, v)
          else s.books == s0.books)
      && (grows ==> v !in s0.books.pages)
      && SameExcept(s0, s, root, if grows then {v} else {}, iset{})
  {
    hide Walk, PageOf, Sound, KeptAt, HeapMapped, Missing, MapBooks, Lower, ReadVirtual, ForeignSame, IsMapped,
         NoHuge;
    var v := PageOf(end);
    MmapReady(s0, root, end);
    if end % 4096 == 0 {
      MapOthers(s0, s, root, hhdm, v, FULL);
      MappedMissing(s0, s, root, v, FULL);
      NotInBooks(s0, root, hhdm, v);
      TouchNone(s0, s, root, v);
    } else {
      ExceptNothing(s, root, {}, iset{});
    }
  }

  lemma TouchNone(s0: Snapshot, s: Snapshot, root: nat, v: Page)
    requires OthersSame(s0, s, root, v, 0, 0)
    ensures SameExcept(s0, s, root, {v}, iset{})
  {
    hide Walk, PageOf, ReadVirtual, ForeignSame;
  }

  /** The program's malloc: the next block of the allocation function. Nothing in memory changes but the allocator's
      variables and the answer of mmap, and no translation but that of the page that is added. */
  method Malloc(k: AddressSpace, g: Globals, size: nat, slot: Address, ghost h: Heap) returns (result: nat)
    requires k.Valid() && HeapReady(k.Snap(), k.root, k.vHeap) && size <= MAX_REQUEST && Bounded(h)
    requires GlobalsOk(k.Snap(), k.root, g) && HeapIs(k.Snap(), k.root, g, k.vHeap, h)
    requires SlotOk(k.Snap(), k.root, g, slot)
    requires NeedsMore(h, size) ==> Room(k.Snap(), k.root, k.vHeap)
    modifies k
    ensures k.Valid() && HeapReady(k.Snap(), k.root, k.vHeap)
    ensures GlobalsOk(k.Snap(), k.root, g) && HeapIs(k.Snap(), k.root, g, k.vHeap, Allocate(h, size).0)
    ensures result == Allocate(h, size).1
    ensures k.books == BooksAfter(old(k.books), h, size)
    ensures forall v :: v in PageAdded(h, size) ==> v !in old(k.books.pages)
    ensures SameExcept(old(k.Snap()), k.Snap(), k.root, PageAdded(h, size), Touched(h, g, size, slot))
  {
    hide Sound, Current, Walk, PageOf, RoundUp, HeapMapped, KeptAt, NoHuge, IsMapped, Missing, SameExcept, Lower,
         WordAt, CanWrite, Span, MapBooks, SameWalks, LoadWord;
    ghost var s0 := k.Snap();
    BoundedStep(h, size);
    var sz := RoundUp(size, 16);
    WordLoaded(s0, k.root, g.bump, h.bump);
    WordLoaded(s0, k.root, g.space, h.space);
    ExceptNothing(s0, k.root, PageAdded(h, size), Touched(h, g, size, slot));
    ghost var mid := h;
    if LoadWord(k.mem, k.root, g.space) < sz {
      var roundedUp := RoundUp(sz, PAGE_SIZE);
      var newmem := UserMmap(k, slot);
      if newmem == 0 {
        assert false;
      }
      ghost var s1 := k.Snap();
      GlobalsStay(s0, s1, k.root, g, PageAdded(h, size), Span(slot, 8));
      StoreGlobals(k, g, newmem, roundedUp);
      ExceptBoth(s0, s1, k.Snap(), k.root, PageAdded(h, size), Span(slot, 8), {}, GlobalBytes(g));
      ExceptMore(s0, k.Snap(), k.root, PageAdded(h, size) + {}, PageAdded(h, size), Span(slot, 8) + GlobalBytes(g),
                 Touched(h, g, size, slot));
      HeapStays(s1, k.Snap(), k.root, k.vHeap);
      mid := Heap(newmem, roundedUp, k.vHeap);
    }
    ghost var s2 := k.Snap();
    WordLoaded(s2, k.root, g.bump, mid.bump);
    WordLoaded(s2, k.root, g.space, mid.space);
    result := LoadWord(k.mem, k.root, g.bump);
    StoreGlobals(k, g, result + sz, LoadWord(k.mem, k.root, g.space) - sz);
    HeapStays(s2, k.Snap(), k.root, k.vHeap);
    ExceptBoth(s0, s2, k.Snap(), k.root, PageAdded(h, size), Touched(h, g, size, slot), {}, GlobalBytes(g));
    ExceptMore(s0, k.Snap(), k.root, PageAdded(h, size) + {}, PageAdded(h, size),
               Touched(h, g, size, slot) + GlobalBytes(g), Touched(h, g, size, slot));
  }

  /** The page of the next heap address is either free to map or mapped already. */
  lemma MmapReady(s: Snapshot, root: nat, end: nat)
    requires KeptAt(s, root) && HeapMapped(s, root, end) && HEAP_START <= end
    requires end + MMAP_SIZE <= LOWER_END && end % MMAP_SIZE == 0
    ensures NoHuge(s.mem, s.books.tables, PageOf(end)) && Lower(PageOf(end))
    ensures Walk(s.mem, root, PageOf(end)).Fault? ==> end % 4096 == 0
  {
    hide Walk, NoHuge, PageOf, OpenHalf, Lower;
    HeapPage(end);
    OpenNoHuge(s.mem, s.books.tables, PageOf(end));
  }
}
