/** kernel/idt.c: the mmap system call. */
module Syscalls {
  import opened PageTable
  import opened Ledger
  import opened Space
  import opened MapSteps
  import opened MapStores
  import opened Mapping
  import opened UserPages
  import opened Caches
  import opened HalfWritten
  import opened Kernel
  import opened UserMemory

  /** Hands out the next 2048 bytes of the heap, whatever was asked for; whether `vm_map` did anything is not
      checked. The address is stored where the caller said. `between` is the state before that store. */
  method Mmap(k: AddressSpace, arg0: Address) returns (ghost between: Snapshot)
    requires k.Valid() && NoHuge(k.mem, k.books.tables, PageOf(k.vHeap))
    requires Walk(k.mem, k.root, PageOf(k.vHeap)).Fault? ==>
      Missing(k.books.tables, PageOf(k.vHeap), 3) < |k.books.free|
    requires arg0 % 4096 + 8 <= 4096
    requires PageOf(arg0) in k.books.pages ||
      (PageOf(arg0) == PageOf(k.vHeap) && Walk(k.mem, k.root, PageOf(k.vHeap)).Fault?)
    modifies k
    ensures k.Valid() && k.vHeap == old(k.vHeap) + 2048
    ensures if old(Walk(k.mem, k.root, PageOf(k.vHeap))).Fault?
            then IsMapped(old(k.Snap()), between, k.root, PageOf(old(k.vHeap)), FULL) else between == old(k.Snap())
    ensures k.Snap() == between.(mem := k.mem) && SameWalks(between.mem, k.mem, k.root)
    ensures SoundAt(between, k.root, k.hhdm)
    ensures SameExcept(between, k.Snap(), k.root, {}, Span(arg0, 8))
    ensures Reads(k.Snap(), k.root, arg0, Bytes64(old(k.vHeap)))
    ensures old(KeptAt(k.Snap(), k.root)) ==> KeptAt(between, k.root) && KeptAt(k.Snap(), k.root)
  {
    hide Sound, Walk, NoHuge, IsMapped, KeptAt, Missing, PageOf, Current, Coherent, CanHold, StoresTo, NothingBehind,
         Next, SameExcept, Reads, Bytes64, SameWalks, IsStored;
    ghost var s0 := k.Snap();
    var ok := k.VmMap(k.vHeap, true, true, true);
    between := k.Snap();
    if ok {
      NewPage(s0, between, k.root, PageOf(k.vHeap), FULL);
    }
    if PageOf(arg0) in s0.books.pages && ok {
      PageStays(s0, between, k.root, k.hhdm, PageOf(k.vHeap), FULL, PageOf(arg0));
    }
    StoreVirtual(k, arg0, Bytes64(k.vHeap));
    k.vHeap := k.vHeap + MMAP_SIZE;
  }

  lemma NewPage(s0: Snapshot, s: Snapshot, root: nat, v: Page, perm: Perm)
    requires IsMapped(s0, s, root, v, perm)
    ensures v in s.books.pages
  {
    hide Walk, MapMem, Missing, Grown;
  }

  lemma PageStays(s0: Snapshot, s: Snapshot, root: nat, hhdm: nat, v: Page, perm: Perm, u: Page)
    requires SoundAt(s0, root, hhdm) && IsMapped(s0, s, root, v, perm) && u in s0.books.pages
    ensures u in s.books.pages
  {
    hide Walk, MapMem, MapBooks, Missing, Sound;
    MappedMissing(s0, s, root, v, perm);
    MapKeepsPage(s0.books, v, u);
    NewPage(s0, s, root, v, perm);
  }

  lemma MappedMissing(s0: Snapshot, s: Snapshot, root: nat, v: Page, perm: Perm)
    requires IsMapped(s0, s, root, v, perm)
    ensures Missing(s0.books.tables, v, 3) < |s0.books.free| && s.books == MapBooks(s0.books, v)
  {
    hide Walk, MapMem, MapBooks, Missing;
  }
}
